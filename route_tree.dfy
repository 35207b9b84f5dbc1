/** The value of the routing tree of `src/router.rs` and the pure descriptions of how it is built:
    path segmentation, item insertion, and merging one tree into another under a prefix. */
module RouteTree {
  import opened Wrappers
  import opened Text

  /** What a node stores for one HTTP method: the item, and the names of the path variables
      met on the way from the root, in order. */
  datatype Entry<T> = Entry(item: T, names: seq<string>)

  /** One `Router` node: items keyed by the method's string form, static children keyed by
      their segment text, at most one variable child and at most one wildcard child. */
  datatype Tree<T> = Tree(
    items: map<string, Entry<T>>,
    statics: map<string, Tree<T>>,
    variable: Option<Tree<T>>,
    wildcard: Option<Tree<T>>)

  /** `Router::new()`. */
  function Empty<T>(): Tree<T> {
    Tree(map[], map[], None, None)
  }

  // ---------------------------------------------------------------------------------------------
  // Segmentation

  /** `path_to_vec`: the empty path and "/" have no segments; otherwise at most one leading and one
      trailing '/' are dropped and the rest is split on '/', keeping empty segments. */
  function PathToVec(path: string): seq<string>
  {
    if |path| == 0 then []
    else if |path| == 1 then (if path == "/" then [] else [path])
    else
      var start := if path[0] == '/' then 1 else 0;
      var end := if path[|path| - 1] == '/' then 1 else 0;
      Split(path[start..|path| - end], '/')
  }

  /** Whether `path_to_vec` drops a leading '/' from `path`. */
  predicate DropsLeading(path: string) {
    |path| >= 2 && path[0] == '/'
  }

  /** Whether `path_to_vec` drops a trailing '/' from `path`. */
  predicate DropsTrailing(path: string) {
    |path| >= 2 && path[|path| - 1] == '/'
  }

  /** The segments of a path other than "" and "/" are never empty as a list, contain no '/', and
      joined with '/' give the path back once the dropped leading and trailing '/' are restored. */
  lemma PathToVecJoin(path: string)
    ensures path == "" || path == "/" ==> PathToVec(path) == []
    ensures path != "" && path != "/" ==>
      var segs := PathToVec(path);
      && |segs| >= 1
      && (forall i :: 0 <= i < |segs| ==> '/' !in segs[i])
      && path == (if DropsLeading(path) then "/" else "") + Join(segs, '/') + (if DropsTrailing(path) then "/" else "")
  {
    if |path| == 1 && path != "/" {
      assert PathToVec(path) == [path];
      assert path[0] != '/';
      assert '/' !in path;
    } else if |path| >= 2 {
      PathToVecJoinLong(path);
    }
  }

  lemma PathToVecJoinLong(path: string)
    requires |path| >= 2
    ensures path == (if DropsLeading(path) then "/" else "") + Join(PathToVec(path), '/') + (if DropsTrailing(path) then "/" else "")
  {
    var start := if path[0] == '/' then 1 else 0;
    var end := if path[|path| - 1] == '/' then 1 else 0;
    var inner := path[start..|path| - end];
    JoinSplit(inner, '/');
    Reassemble(path, start, end);
  }

  /** A string is its dropped first character, its middle and its dropped last character. */
  lemma Reassemble(path: string, start: nat, end: nat)
    requires |path| >= 2 && start <= 1 && end <= 1
    requires (start == 1 <==> path[0] == '/') && (end == 1 <==> path[|path| - 1] == '/')
    ensures path == (if start == 1 then "/" else "") + path[start..|path| - end] + (if end == 1 then "/" else "")
  {
    assert path == path[..start] + path[start..|path| - end] + path[|path| - end..];
    assert start == 1 ==> path[..start] == "/";
    assert end == 1 ==> path[|path| - end..] == "/";
  }

  /** Segments that contain no '/' are read back from the path that joins them between a leading
      and a trailing '/'. */
  lemma PathToVecOfSlashed(segs: seq<string>)
    requires |segs| >= 1
    requires forall i :: 0 <= i < |segs| ==> '/' !in segs[i]
    ensures PathToVec("/" + Join(segs, '/') + "/") == segs
  {
    var j := Join(segs, '/');
    var path := "/" + j + "/";
    assert path[1..|path| - 1] == j;
    SplitJoin(segs, '/');
  }

  // ---------------------------------------------------------------------------------------------
  // Insertion

  /** A pattern segment starting with ':' names a variable. */
  predicate IsVariable(piece: string) {
    |piece| > 0 && piece[0] == ':'
  }

  /** The names after adding the one a pattern segment declares (none for literals and '*'). */
  function PushName(names: seq<string>, piece: string): seq<string> {
    if IsVariable(piece) then names + [piece[1..]] else names
  }

  /** The names of the variables declared along a pattern, in order. */
  function VarNames(path: seq<string>): (names: seq<string>)
    ensures |names| <= |path|
  {
    if |path| == 0 then [] else PushName([], path[0]) + VarNames(path[1..])
  }

  /** The names declared by two patterns one after the other are the first's, then the second's:
      a ':name' segment adds its name, any other segment nothing. */
  lemma {:induction false} VarNamesAppend(a: seq<string>, b: seq<string>)
    ensures VarNames(a + b) == VarNames(a) + VarNames(b)
    ensures VarNames(["*"]) == [] && (forall s :: !IsVariable(s) ==> VarNames([s]) == [])
    ensures forall s :: IsVariable(s) ==> VarNames([s]) == [s[1..]]
    decreases |a|
  {
    if |a| > 0 {
      assert (a + b)[1..] == a[1..] + b;
      VarNamesAppend(a[1..], b);
    } else {
      assert a + b == b;
    }
    forall s | true
      ensures VarNames([s]) == PushName([], s)
    {
      assert [s][1..] == [];
    }
  }

  /** The child `find_or_insert_router` descends into for `piece`: the wildcard child for "*",
      the variable child for ":name", the static child keyed by the text otherwise; a fresh empty
      node when it does not exist yet. */
  function Child<T>(t: Tree<T>, piece: string): Tree<T> {
    if piece == "*" then t.wildcard.GetOr(Empty())
    else if IsVariable(piece) then t.variable.GetOr(Empty())
    else if piece in t.statics then t.statics[piece]
    else Empty()
  }

  /** `t` with the child for `piece` replaced by `c`. */
  function SetChild<T>(t: Tree<T>, piece: string, c: Tree<T>): Tree<T> {
    if piece == "*" then t.(wildcard := Some(c))
    else if IsVariable(piece) then t.(variable := Some(c))
    else t.(statics := t.statics[piece := c])
  }

  /** `insert_item_vec`: descend along the pattern segments, creating nodes as needed, and store
      the item with the accumulated variable names under the method at the last node. */
  function InsertVec<T>(t: Tree<T>, m: string, path: seq<string>, names: seq<string>, item: T): Tree<T>
    decreases |path|
  {
    if |path| == 0 then t.(items := t.items[m := Entry(item, names)])
    else SetChild(t, path[0], InsertVec(Child(t, path[0]), m, path[1..], PushName(names, path[0]), item))
  }

  /** `insert_item`: the pattern is trimmed of whitespace and segmented first. */
  function InsertItem<T>(t: Tree<T>, m: string, pattern: string, item: T): Tree<T> {
    InsertVec(t, m, PathToVec(Trim(pattern)), [], item)
  }

  /** One route of `from_routes`: a method, a pattern and an item. */
  datatype Route<T> = Route(m: string, pattern: string, item: T)

  /** `from_routes`: the routes inserted into an empty tree one after the other. */
  function FromRoutes<T>(routes: seq<Route<T>>): Tree<T>
  {
    if |routes| == 0 then Empty()
    else
      var last := routes[|routes| - 1];
      InsertItem(FromRoutes(routes[..|routes| - 1]), last.m, last.pattern, last.item)
  }

  // ---------------------------------------------------------------------------------------------
  // Merging

  /** `merge_router`: every item of `o` is stored with `names` prepended to its own names, over
      what `t` had for that method; static children are merged key by key, creating missing ones,
      and the variable and wildcard children likewise. */
  function Merge<T>(t: Tree<T>, names: seq<string>, o: Tree<T>): Tree<T>
    decreases o
  {
    Tree(
      t.items + map m | m in o.items :: Entry(o.items[m].item, names + o.items[m].names),
      map k | k in t.statics.Keys + o.statics.Keys ::
        if k in o.statics then Merge(if k in t.statics then t.statics[k] else Empty(), names, o.statics[k])
        else t.statics[k],
      MergeChild(t.variable, names, o.variable),
      MergeChild(t.wildcard, names, o.wildcard))
  }

  /** Merging an optional child: created empty first when only `o` has one. */
  function MergeChild<T>(c: Option<Tree<T>>, names: seq<string>, o: Option<Tree<T>>): Option<Tree<T>>
    decreases o
  {
    if o.Some? then Some(Merge(c.GetOr(Empty()), names, o.value)) else c
  }

  /** `insert_router_vec`: descend along the prefix as insertion does, then merge `o` there. */
  function InsertRouterVec<T>(t: Tree<T>, path: seq<string>, names: seq<string>, o: Tree<T>): Tree<T>
    decreases |path|
  {
    if |path| == 0 then Merge(t, names, o)
    else SetChild(t, path[0], InsertRouterVec(Child(t, path[0]), path[1..], PushName(names, path[0]), o))
  }

  /** `insert_router`: the prefix is trimmed and segmented first. */
  function InsertRouter<T>(t: Tree<T>, prefix: string, o: Tree<T>): Tree<T> {
    InsertRouterVec(t, PathToVec(Trim(prefix)), [], o)
  }

  // ---------------------------------------------------------------------------------------------
  // Addressing nodes, to state what insertion and merging do

  /** Which child an edge of the tree leads to. */
  datatype Step = Literal(text: string) | Var | Wild

  /** The edge a pattern segment is inserted along. */
  function StepOf(piece: string): Step {
    if piece == "*" then Wild else if IsVariable(piece) then Var else Literal(piece)
  }

  function StepsOf(path: seq<string>): (steps: seq<Step>)
    ensures |steps| == |path|
    ensures forall i :: 0 <= i < |path| ==> steps[i] == StepOf(path[i])
  {
    if |path| == 0 then [] else [StepOf(path[0])] + StepsOf(path[1..])
  }

  /** The child an edge leads to, if the node has it. */
  function Edge<T>(t: Tree<T>, step: Step): Option<Tree<T>> {
    match step
    case Literal(s) => if s in t.statics then Some(t.statics[s]) else None
    case Var => t.variable
    case Wild => t.wildcard
  }

  /** The node reached from `t` along `steps`, if every edge exists. */
  function Descend<T>(t: Tree<T>, steps: seq<Step>): Option<Tree<T>>
    decreases |steps|
  {
    if |steps| == 0 then Some(t)
    else match Edge(t, steps[0])
      case None => None
      case Some(c) => Descend(c, steps[1..])
  }

  /** The entry stored for method `m` at the node reached along `steps`. */
  function EntryAt<T>(t: Tree<T>, steps: seq<Step>, m: string): Option<Entry<T>> {
    match Descend(t, steps)
    case None => None
    case Some(n) => if m in n.items then Some(n.items[m]) else None
  }

  /** `Child` is the child along the segment's edge, or an empty node where there is none. */
  lemma ChildEdge<T>(t: Tree<T>, piece: string)
    ensures Child(t, piece) == Edge(t, StepOf(piece)).GetOr(Empty())
  {
  }

  /** What an edge other than `piece`'s leads to is not changed by replacing `piece`'s child. */
  lemma DescendSetChild<T>(t: Tree<T>, piece: string, c: Tree<T>, steps: seq<Step>)
    requires |steps| > 0
    ensures steps[0] == StepOf(piece) ==> Descend(SetChild(t, piece, c), steps) == Descend(c, steps[1..])
    ensures steps[0] != StepOf(piece) ==> Descend(SetChild(t, piece, c), steps) == Descend(t, steps)
  {
  }

  /** An empty node has no entries anywhere below it. */
  lemma EntryAtEmpty<T>(steps: seq<Step>, m: string)
    ensures EntryAt(Empty<T>(), steps, m) == None
  {
  }

  /** The entry along a non-empty path is the entry below the first edge. */
  lemma EntryAtStep<T>(t: Tree<T>, steps: seq<Step>, m: string)
    requires |steps| > 0
    ensures EntryAt(t, steps, m) == match Edge(t, steps[0])
      case None => None
      case Some(c) => EntryAt(c, steps[1..], m)
  {
  }

  /** Below the edge of `piece`, the tree with that child replaced has the new child's entries;
      below every other edge, the old tree's. */
  lemma EntryAtSetChild<T>(t: Tree<T>, piece: string, c: Tree<T>, steps: seq<Step>, m: string)
    requires |steps| > 0
    ensures steps[0] == StepOf(piece) ==> EntryAt(SetChild(t, piece, c), steps, m) == EntryAt(c, steps[1..], m)
    ensures steps[0] != StepOf(piece) ==> EntryAt(SetChild(t, piece, c), steps, m) == EntryAt(t, steps, m)
  {
    EntryAtStep(SetChild(t, piece, c), steps, m);
    EntryAtStep(t, steps, m);
  }

  /** Below the edge of `piece`, `Child` has the entries the tree has there. */
  lemma EntryAtChild<T>(t: Tree<T>, piece: string, steps: seq<Step>, m: string)
    requires |steps| > 0 && steps[0] == StepOf(piece)
    ensures EntryAt(t, steps, m) == EntryAt(Child(t, piece), steps[1..], m)
  {
    EntryAtStep(t, steps, m);
    if Edge(t, StepOf(piece)).None? {
      EntryAtEmpty<T>(steps[1..], m);
    }
  }

  /** A path's edges start with its first segment's. */
  lemma StepsOfCons(path: seq<string>, steps: seq<Step>)
    requires |path| > 0 && |steps| > 0
    ensures steps == StepsOf(path) <==> steps[0] == StepOf(path[0]) && steps[1..] == StepsOf(path[1..])
  {
    var s := StepsOf(path);
    assert s == [StepOf(path[0])] + StepsOf(path[1..]);
    assert s[1..] == StepsOf(path[1..]);
    if steps[0] == StepOf(path[0]) && steps[1..] == StepsOf(path[1..]) {
      assert steps == [steps[0]] + steps[1..];
    }
  }

  /** The names a pattern declares are those of its first segment, then of the rest. */
  lemma VarNamesCons(names: seq<string>, path: seq<string>)
    requires |path| > 0
    ensures PushName(names, path[0]) + VarNames(path[1..]) == names + VarNames(path)
  {
    var first, rest := PushName([], path[0]), VarNames(path[1..]);
    calc {
      names + VarNames(path);
      names + (first + rest);
      { ConcatAssoc(names, first, rest); }
      (names + first) + rest;
      { PushNameAppend(names, path[0]); }
      PushName(names, path[0]) + rest;
    }
  }

  /** The name a segment declares, pushed onto `names`, is `names` followed by that name. */
  lemma PushNameAppend(names: seq<string>, piece: string)
    ensures names + PushName([], piece) == PushName(names, piece)
  {
    if IsVariable(piece) {
      assert [] + [piece[1..]] == [piece[1..]];
    } else {
      assert names + [] == names;
    }
  }

  /** Concatenation is associative. */
  lemma ConcatAssoc<X>(a: seq<X>, b: seq<X>, c: seq<X>)
    ensures (a + b) + c == a + (b + c)
  {
  }

  /** Storing at the root changes the root's entry for that method and nothing else. */
  lemma EntryAtStore<T>(t: Tree<T>, m: string, e: Entry<T>, steps: seq<Step>, m': string)
    ensures EntryAt(t.(items := t.items[m := e]), steps, m') ==
      if |steps| == 0 && m' == m then Some(e) else EntryAt(t, steps, m')
  {
    if |steps| > 0 {
      EntryAtStep(t.(items := t.items[m := e]), steps, m');
      EntryAtStep(t, steps, m');
    }
  }

  /** Insertion is a point update: the item is stored, with the variable names declared along the
      pattern appended to `names`, at exactly the node the pattern leads to and for exactly the
      given method; every other node and method keeps its entry. */
  lemma {:induction false} InsertVecEntryAt<T>(t: Tree<T>, m: string, path: seq<string>, names: seq<string>, item: T,
                                               steps: seq<Step>, m': string)
    ensures EntryAt(InsertVec(t, m, path, names, item), steps, m') ==
      if steps == StepsOf(path) && m' == m then Some(Entry(item, names + VarNames(path)))
      else EntryAt(t, steps, m')
    decreases |path|
  {
    if |path| == 0 {
      EntryAtStore(t, m, Entry(item, names), steps, m');
      assert names + VarNames(path) == names;
    } else if |steps| == 0 {
      assert InsertVec(t, m, path, names, item).items == t.items;
    } else {
      if steps[0] == StepOf(path[0]) {
        InsertVecEntryAt(Child(t, path[0]), m, path[1..], PushName(names, path[0]), item, steps[1..], m');
      }
      InsertVecEntryAtStep(t, m, path, names, item, steps, m');
    }
  }

  /** The step of `InsertVecEntryAt` below the root, given what insertion does in the child. */
  lemma InsertVecEntryAtStep<T>(t: Tree<T>, m: string, path: seq<string>, names: seq<string>, item: T,
                                steps: seq<Step>, m': string)
    requires |path| > 0 && |steps| > 0
    requires steps[0] == StepOf(path[0]) ==>
      EntryAt(InsertVec(Child(t, path[0]), m, path[1..], PushName(names, path[0]), item), steps[1..], m') ==
        if steps[1..] == StepsOf(path[1..]) && m' == m then Some(Entry(item, PushName(names, path[0]) + VarNames(path[1..])))
        else EntryAt(Child(t, path[0]), steps[1..], m')
    ensures EntryAt(InsertVec(t, m, path, names, item), steps, m') ==
      if steps == StepsOf(path) && m' == m then Some(Entry(item, names + VarNames(path)))
      else EntryAt(t, steps, m')
  {
    var piece := path[0];
    var c' := InsertVec(Child(t, piece), m, path[1..], PushName(names, piece), item);
    assert InsertVec(t, m, path, names, item) == SetChild(t, piece, c');
    EntryAtSetChild(t, piece, c', steps, m');
    StepsOfCons(path, steps);
    if steps[0] == StepOf(piece) {
      EntryAtChild(t, piece, steps, m');
      VarNamesCons(names, path);
    }
  }

  /** A second insertion of the same method at the same pattern replaces the first. */
  lemma {:induction false} InsertVecOverwrite<T>(t: Tree<T>, m: string, path: seq<string>, names: seq<string>, x: T, y: T)
    ensures InsertVec(InsertVec(t, m, path, names, x), m, path, names, y) == InsertVec(t, m, path, names, y)
    decreases |path|
  {
    if |path| == 0 {
      assert t.items[m := Entry(x, names)][m := Entry(y, names)] == t.items[m := Entry(y, names)];
    } else {
      var piece := path[0];
      var names' := PushName(names, piece);
      var c1 := InsertVec(Child(t, piece), m, path[1..], names', x);
      var t1 := SetChild(t, piece, c1);
      assert InsertVec(t, m, path, names, x) == t1;
      assert Child(t1, piece) == c1;
      InsertVecOverwrite(Child(t, piece), m, path[1..], names', x, y);
      var c2 := InsertVec(Child(t, piece), m, path[1..], names', y);
      assert InsertVec(t1, m, path, names, y) == SetChild(t1, piece, c2);
      if piece != "*" && !IsVariable(piece) {
        assert t.statics[piece := c1][piece := c2] == t.statics[piece := c2];
      }
    }
  }

  /** An entry of a merged-in tree, with the prefix's variable names in front of its own. */
  function Prefixed<T>(names: seq<string>, e: Entry<T>): Entry<T> {
    Entry(e.item, names + e.names)
  }

  /** Merging keeps every entry of `o`, with `names` prepended to its variable names, and every entry
      of `t` at the places `o` has no entry for that method. */
  lemma {:induction false} MergeEntryAt<T>(t: Tree<T>, names: seq<string>, o: Tree<T>, steps: seq<Step>, m: string)
    ensures EntryAt(Merge(t, names, o), steps, m) ==
      match EntryAt(o, steps, m)
      case Some(e) => Some(Prefixed(names, e))
      case None => EntryAt(t, steps, m)
    decreases |steps|
  {
    var r := Merge(t, names, o);
    if |steps| == 0 {
      return;
    }
    EntryAtStep(r, steps, m);
    EntryAtStep(t, steps, m);
    EntryAtStep(o, steps, m);
    var rest := steps[1..];
    match steps[0]
    case Literal(k) =>
      if k in o.statics {
        var c := if k in t.statics then t.statics[k] else Empty();
        assert Edge(r, steps[0]) == Some(Merge(c, names, o.statics[k]));
        MergeEntryAt(c, names, o.statics[k], rest, m);
        if k !in t.statics {
          EntryAtEmpty<T>(rest, m);
        }
      }
    case Var =>
      if o.variable.Some? {
        MergeEntryAt(t.variable.GetOr(Empty()), names, o.variable.value, rest, m);
        if t.variable.None? {
          EntryAtEmpty<T>(rest, m);
        }
      }
    case Wild =>
      if o.wildcard.Some? {
        MergeEntryAt(t.wildcard.GetOr(Empty()), names, o.wildcard.value, rest, m);
        if t.wildcard.None? {
          EntryAtEmpty<T>(rest, m);
        }
      }
  }

  /** Merging removes nothing and adds exactly the structure of `o`: a node exists in the merged
      tree if and only if it exists in one of the two. */
  lemma {:induction false} MergeShape<T>(t: Tree<T>, names: seq<string>, o: Tree<T>, steps: seq<Step>)
    ensures Descend(Merge(t, names, o), steps).Some? <==> Descend(t, steps).Some? || Descend(o, steps).Some?
    decreases |steps|
  {
    if |steps| == 0 {
      return;
    }
    var r := Merge(t, names, o);
    var rest := steps[1..];
    match steps[0]
    case Literal(k) =>
      if k in o.statics {
        var c := if k in t.statics then t.statics[k] else Empty();
        MergeShape(c, names, o.statics[k], rest);
        if k !in t.statics {
          DescendEmpty<T>(rest);
        }
      }
    case Var =>
      if o.variable.Some? {
        MergeShape(t.variable.GetOr(Empty()), names, o.variable.value, rest);
        if t.variable.None? {
          DescendEmpty<T>(rest);
        }
      }
    case Wild =>
      if o.wildcard.Some? {
        MergeShape(t.wildcard.GetOr(Empty()), names, o.wildcard.value, rest);
        if t.wildcard.None? {
          DescendEmpty<T>(rest);
        }
      }
  }

  /** An empty node has nothing below it. */
  lemma DescendEmpty<T>(steps: seq<Step>)
    ensures Descend(Empty<T>(), steps).Some? <==> |steps| == 0
  {
  }

  /** Inserting a tree under a prefix: below the node the prefix leads to, every entry of `o` is
      there with the variable names of `names` and of the prefix in front of its own; everything
      else keeps its entry. */
  lemma {:induction false} InsertRouterVecEntryAt<T>(t: Tree<T>, path: seq<string>, names: seq<string>, o: Tree<T>,
                                                     steps: seq<Step>, m: string)
    ensures EntryAt(InsertRouterVec(t, path, names, o), steps, m) == UnderPrefix(t, path, names, o, steps, m)
    decreases |path|
  {
    if |path| == 0 {
      MergeEntryAt(t, names, o, steps, m);
      assert names + VarNames(path) == names;
      assert steps[|path|..] == steps;
    } else if |steps| == 0 {
      assert InsertRouterVec(t, path, names, o).items == t.items;
    } else {
      if steps[0] == StepOf(path[0]) {
        InsertRouterVecEntryAt(Child(t, path[0]), path[1..], PushName(names, path[0]), o, steps[1..], m);
      }
      InsertRouterVecEntryAtStep(t, path, names, o, steps, m);
    }
  }

  /** The entry at `steps` once `o` is inserted under `path`: `o`'s own, prefixed, where `steps`
      goes through the prefix and `o` has one; otherwise `t`'s. */
  function UnderPrefix<T>(t: Tree<T>, path: seq<string>, names: seq<string>, o: Tree<T>,
                          steps: seq<Step>, m: string): Option<Entry<T>>
  {
    if |path| <= |steps| && steps[..|path|] == StepsOf(path) then
      match EntryAt(o, steps[|path|..], m)
      case Some(e) => Some(Prefixed(names + VarNames(path), e))
      case None => EntryAt(t, steps, m)
    else EntryAt(t, steps, m)
  }

  /** The step of `InsertRouterVecEntryAt` below the root, given what insertion does in the child. */
  lemma InsertRouterVecEntryAtStep<T>(t: Tree<T>, path: seq<string>, names: seq<string>, o: Tree<T>,
                                      steps: seq<Step>, m: string)
    requires |path| > 0 && |steps| > 0
    requires steps[0] == StepOf(path[0]) ==>
      EntryAt(InsertRouterVec(Child(t, path[0]), path[1..], PushName(names, path[0]), o), steps[1..], m) ==
        UnderPrefix(Child(t, path[0]), path[1..], PushName(names, path[0]), o, steps[1..], m)
    ensures EntryAt(InsertRouterVec(t, path, names, o), steps, m) == UnderPrefix(t, path, names, o, steps, m)
  {
    var piece := path[0];
    var c' := InsertRouterVec(Child(t, piece), path[1..], PushName(names, piece), o);
    assert InsertRouterVec(t, path, names, o) == SetChild(t, piece, c');
    EntryAtSetChild(t, piece, c', steps, m);
    StepsPrefixCons(path, steps);
    if steps[0] == StepOf(piece) {
      EntryAtChild(t, piece, steps, m);
      VarNamesCons(names, path);
    }
  }

  /** A path's edges begin `steps` exactly when its first segment's edge begins it and the rest's
      edges begin the rest of `steps`. */
  lemma StepsPrefixCons(path: seq<string>, steps: seq<Step>)
    requires |path| > 0 && |steps| > 0
    ensures (|path| <= |steps| && steps[..|path|] == StepsOf(path)) <==>
      (steps[0] == StepOf(path[0]) && |path| - 1 <= |steps| - 1 && steps[1..][..|path| - 1] == StepsOf(path[1..]))
    ensures |path| <= |steps| ==> steps[|path|..] == steps[1..][|path| - 1..]
  {
    if |path| <= |steps| {
      StepsOfCons(path, steps[..|path|]);
      assert steps[..|path|][1..] == steps[1..][..|path| - 1];
    }
  }

  /** The entry the routes of a `from_routes` table give a node and a method: that of the last route
      with this method whose pattern leads to the node, with the pattern's variable names. */
  function LastRoute<T>(routes: seq<Route<T>>, steps: seq<Step>, m: string): Option<Entry<T>>
  {
    if |routes| == 0 then None
    else
      var r := routes[|routes| - 1];
      var segs := PathToVec(Trim(r.pattern));
      if r.m == m && StepsOf(segs) == steps then Some(Entry(r.item, VarNames(segs)))
      else LastRoute(routes[..|routes| - 1], steps, m)
  }

  /** `from_routes` stores, at every node and for every method, the last route registered there. */
  lemma {:induction false} FromRoutesEntryAt<T>(routes: seq<Route<T>>, steps: seq<Step>, m: string)
    ensures EntryAt(FromRoutes(routes), steps, m) == LastRoute(routes, steps, m)
  {
    if |routes| == 0 {
      EntryAtEmpty<T>(steps, m);
    } else {
      var r := routes[|routes| - 1];
      FromRoutesEntryAt(routes[..|routes| - 1], steps, m);
      InsertVecEntryAt(FromRoutes(routes[..|routes| - 1]), r.m, PathToVec(Trim(r.pattern)), [], r.item, steps, m);
      assert [] + VarNames(PathToVec(Trim(r.pattern))) == VarNames(PathToVec(Trim(r.pattern)));
    }
  }

  /** `insert_router` grafts `o` below the node its trimmed prefix leads to: there, every entry of
      `o` is found with the prefix's variable names in front of its own; everywhere else the entries
      of `t` stay. */
  lemma InsertRouterEntryAt<T>(t: Tree<T>, prefix: string, o: Tree<T>, steps: seq<Step>, m: string)
    ensures var segs := PathToVec(Trim(prefix));
      EntryAt(InsertRouter(t, prefix, o), steps, m) ==
        if |segs| <= |steps| && steps[..|segs|] == StepsOf(segs) && EntryAt(o, steps[|segs|..], m).Some? then
          Some(Prefixed(VarNames(segs), EntryAt(o, steps[|segs|..], m).value))
        else EntryAt(t, steps, m)
  {
    var segs := PathToVec(Trim(prefix));
    InsertRouterVecEntryAt(t, segs, [], o, steps, m);
    assert [] + VarNames(segs) == VarNames(segs);
  }
}
