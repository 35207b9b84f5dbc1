/** The lookup of `src/router.rs` (`find`, `search`, `match_static`, `match_variable`,
    `match_wildcard`, `get`) as functions on the tree's value, and what is proved about it. */
module RouteSearch {
  import opened Wrappers
  import opened Text
  import opened RouteTree

  /** A successful lookup: the item and the path variables bound by name. */
  datatype Found<T> = Found(item: T, variables: map<string, string>)

  function Min(a: nat, b: nat): nat {
    if a <= b then a else b
  }

  /** The map `get` has built after inserting its first `k` (name, value) pairs, in order. */
  function ZipInsert(names: seq<string>, values: seq<string>, k: nat): map<string, string>
    requires k <= |names| && k <= |values|
  {
    if k == 0 then map[] else ZipInsert(names, values, k - 1)[names[k - 1] := values[k - 1]]
  }

  /** `get`'s bindings: names and captured values zipped, the shorter list deciding the length. */
  function Bindings(names: seq<string>, values: seq<string>): map<string, string> {
    ZipInsert(names, values, Min(|names|, |values|))
  }

  /** The bound names are exactly the first `k` names. */
  lemma {:induction false} ZipInsertKeys(names: seq<string>, values: seq<string>, k: nat)
    requires k <= |names| && k <= |values|
    ensures ZipInsert(names, values, k).Keys == set i | 0 <= i < k :: names[i]
  {
    if k > 0 {
      ZipInsertKeys(names, values, k - 1);
      assert (set i | 0 <= i < k :: names[i]) == (set i | 0 <= i < k - 1 :: names[i]) + {names[k - 1]};
    }
  }

  /** A name is bound to the value at its last position among the first `k`. */
  lemma {:induction false} ZipInsertAt(names: seq<string>, values: seq<string>, k: nat, i: nat)
    requires k <= |names| && k <= |values| && i < k
    requires forall j :: i < j < k ==> names[j] != names[i]
    ensures names[i] in ZipInsert(names, values, k) && ZipInsert(names, values, k)[names[i]] == values[i]
  {
    if i < k - 1 {
      ZipInsertAt(names, values, k - 1, i);
    }
  }

  /** The bindings pair names with values position by position, truncated to the shorter list;
      a repeated name keeps its last value. */
  lemma BindingsSpec(names: seq<string>, values: seq<string>, i: nat)
    ensures Bindings(names, values).Keys == set j | 0 <= j < Min(|names|, |values|) :: names[j]
    ensures i < Min(|names|, |values|) && (forall j :: i < j < Min(|names|, |values|) ==> names[j] != names[i]) ==>
      Bindings(names, values)[names[i]] == values[i]
  {
    var k := Min(|names|, |values|);
    ZipInsertKeys(names, values, k);
    if i < k && (forall j :: i < j < k ==> names[j] != names[i]) {
      ZipInsertAt(names, values, k, i);
    }
  }

  // ---------------------------------------------------------------------------------------------
  // The search

  /** `get`: the entry for the method at this node, with its names bound to the captured values. */
  function Get<T>(t: Tree<T>, m: string, vars: seq<string>): Option<Found<T>> {
    if m in t.items then Some(Found(t.items[m].item, Bindings(t.items[m].names, vars))) else None
  }

  /** `search`: at the end of the path, `get`; otherwise try the first segment against the static,
      then the variable, then the wildcard child. */
  function Search<T>(t: Tree<T>, m: string, path: seq<string>, vars: seq<string>): Option<Found<T>>
    decreases t, 3
  {
    if |path| == 0 then Get(t, m, vars) else MatchStatic(t, m, path[0], path[1..], vars)
  }

  /** `match_static`: the static child for `key`, backtracking to the variable child on failure. */
  function MatchStatic<T>(t: Tree<T>, m: string, key: string, rest: seq<string>, vars: seq<string>): Option<Found<T>>
    decreases t, 2
  {
    if key in t.statics then
      match Search(t.statics[key], m, rest, vars)
      case Some(f) => Some(f)
      case None => MatchVariable(t, m, key, rest, vars)
    else MatchVariable(t, m, key, rest, vars)
  }

  /** `match_variable`: the variable child, capturing `key`, backtracking to the wildcard child. */
  function MatchVariable<T>(t: Tree<T>, m: string, key: string, rest: seq<string>, vars: seq<string>): Option<Found<T>>
    decreases t, 1
  {
    if t.variable.Some? then
      match Search(t.variable.value, m, rest, vars + [key])
      case Some(f) => Some(f)
      case None => MatchWildcard(t, m, rest, vars)
    else MatchWildcard(t, m, rest, vars)
  }

  /** `match_wildcard`: the wildcard has consumed the current segment; it then consumes 0, 1, 2, ...
      further segments, shortest first, until the rest of the path matches below it. */
  function MatchWildcard<T>(t: Tree<T>, m: string, rest: seq<string>, vars: seq<string>): Option<Found<T>>
    decreases t, 0
  {
    if t.wildcard.Some? then WildcardFrom(t.wildcard.value, m, rest, vars, 0) else None
  }

  /** The wildcard loop from the point where `i` further segments have been consumed. */
  function WildcardFrom<T>(w: Tree<T>, m: string, rest: seq<string>, vars: seq<string>, i: nat): Option<Found<T>>
    requires i <= |rest|
    decreases w, 4, |rest| - i
  {
    match Search(w, m, rest[i..], vars)
    case Some(f) => Some(f)
    case None => if i < |rest| then WildcardFrom(w, m, rest, vars, i + 1) else None
  }

  /** `find`: the query path is segmented but, unlike a pattern, not trimmed. */
  function Find<T>(t: Tree<T>, m: string, path: string): Option<Found<T>> {
    Search(t, m, PathToVec(path), [])
  }

  // ---------------------------------------------------------------------------------------------
  // Static routes take precedence

  /** The edges a path of literal segments follows. */
  function Literals(path: seq<string>): (steps: seq<Step>)
    ensures |steps| == |path|
    ensures forall i :: 0 <= i < |path| ==> steps[i] == Literal(path[i])
  {
    if |path| == 0 then [] else [Literal(path[0])] + Literals(path[1..])
  }

  /** If the static children spell out the whole path down to a node with an entry for the method,
      the search returns that entry, whatever variable and wildcard routes also match. */
  lemma {:induction false} StaticRouteFound<T>(t: Tree<T>, m: string, path: seq<string>, vars: seq<string>, e: Entry<T>)
    requires EntryAt(t, Literals(path), m) == Some(e)
    ensures Search(t, m, path, vars) == Some(Found(e.item, Bindings(e.names, vars)))
    decreases |path|
  {
    if |path| > 0 {
      EntryAtStep(t, Literals(path), m);
      assert Literals(path)[1..] == Literals(path[1..]);
      StaticRouteFound(t.statics[path[0]], m, path[1..], vars, e);
    }
  }

  /** A pattern with no variable and no wildcard segment. */
  predicate IsStaticPattern(segs: seq<string>) {
    forall i :: 0 <= i < |segs| ==> segs[i] != "*" && !IsVariable(segs[i])
  }

  /** Insert-then-find for a static pattern: any query with the same segments finds the item,
      with no variables, in any tree. */
  lemma InsertThenFindStatic<T>(t: Tree<T>, m: string, pattern: string, item: T, query: string)
    requires IsStaticPattern(PathToVec(Trim(pattern)))
    requires PathToVec(query) == PathToVec(Trim(pattern))
    ensures Find(InsertItem(t, m, pattern, item), m, query) == Some(Found(item, map[]))
  {
    var segs := PathToVec(Trim(pattern));
    assert StepsOf(segs) == Literals(segs);
    InsertVecEntryAt(t, m, segs, [], item, StepsOf(segs), m);
    assert [] + VarNames(segs) == VarNames(segs);
    VarNamesStatic(segs);
    StaticRouteFound(InsertItem(t, m, pattern, item), m, segs, [], Entry(item, VarNames(segs)));
  }

  lemma {:induction false} VarNamesStatic(segs: seq<string>)
    requires IsStaticPattern(segs)
    ensures VarNames(segs) == []
  {
    if |segs| > 0 {
      VarNamesStatic(segs[1..]);
    }
  }

  // ---------------------------------------------------------------------------------------------
  // Soundness: what is found was registered

  /** Some node of `t` holds `x` for method `m`. */
  ghost predicate Holds<T>(t: Tree<T>, m: string, x: T)
    decreases t
  {
    || (m in t.items && t.items[m].item == x)
    || (exists k :: k in t.statics && Holds(t.statics[k], m, x))
    || (t.variable.Some? && Holds(t.variable.value, m, x))
    || (t.wildcard.Some? && Holds(t.wildcard.value, m, x))
  }

  /** Every item the search returns is registered in the tree under the method searched for; in
      particular a method with no route anywhere finds nothing. */
  lemma {:induction false} SearchSound<T>(t: Tree<T>, m: string, path: seq<string>, vars: seq<string>)
    ensures Search(t, m, path, vars).Some? ==> Holds(t, m, Search(t, m, path, vars).value.item)
    decreases t, 3
  {
    if |path| > 0 {
      MatchStaticSound(t, m, path[0], path[1..], vars);
    }
  }

  lemma {:induction false} MatchStaticSound<T>(t: Tree<T>, m: string, key: string, rest: seq<string>, vars: seq<string>)
    ensures MatchStatic(t, m, key, rest, vars).Some? ==> Holds(t, m, MatchStatic(t, m, key, rest, vars).value.item)
    decreases t, 2
  {
    if key in t.statics {
      SearchSound(t.statics[key], m, rest, vars);
    }
    MatchVariableSound(t, m, key, rest, vars);
  }

  lemma {:induction false} MatchVariableSound<T>(t: Tree<T>, m: string, key: string, rest: seq<string>, vars: seq<string>)
    ensures MatchVariable(t, m, key, rest, vars).Some? ==> Holds(t, m, MatchVariable(t, m, key, rest, vars).value.item)
    decreases t, 1
  {
    if t.variable.Some? {
      SearchSound(t.variable.value, m, rest, vars + [key]);
    }
    MatchWildcardSound(t, m, rest, vars);
  }

  lemma {:induction false} MatchWildcardSound<T>(t: Tree<T>, m: string, rest: seq<string>, vars: seq<string>)
    ensures MatchWildcard(t, m, rest, vars).Some? ==> Holds(t, m, MatchWildcard(t, m, rest, vars).value.item)
    decreases t, 0
  {
    if t.wildcard.Some? {
      WildcardFromSound(t.wildcard.value, m, rest, vars, 0);
    }
  }

  lemma {:induction false} WildcardFromSound<T>(w: Tree<T>, m: string, rest: seq<string>, vars: seq<string>, i: nat)
    requires i <= |rest|
    ensures WildcardFrom(w, m, rest, vars, i).Some? ==> Holds(w, m, WildcardFrom(w, m, rest, vars, i).value.item)
    decreases w, 4, |rest| - i
  {
    SearchSound(w, m, rest[i..], vars);
    if i < |rest| {
      WildcardFromSound(w, m, rest, vars, i + 1);
    }
  }

  /** The methods some node of `t` has an entry for. */
  function Methods<T>(t: Tree<T>): set<string>
    decreases t
  {
    t.items.Keys
    + (set k, x | k in t.statics && x in Methods(t.statics[k]) :: x)
    + (if t.variable.Some? then Methods(t.variable.value) else {})
    + (if t.wildcard.Some? then Methods(t.wildcard.value) else {})
  }

  lemma {:induction false} HoldsMethods<T>(t: Tree<T>, m: string, x: T)
    requires Holds(t, m, x)
    ensures m in Methods(t)
    decreases t
  {
    if m in t.items && t.items[m].item == x {
    } else if exists k :: k in t.statics && Holds(t.statics[k], m, x) {
      var k :| k in t.statics && Holds(t.statics[k], m, x);
      HoldsMethods(t.statics[k], m, x);
    } else if t.variable.Some? && Holds(t.variable.value, m, x) {
      HoldsMethods(t.variable.value, m, x);
    } else {
      HoldsMethods(t.wildcard.value, m, x);
    }
  }

  /** A method no route is registered for is never found, on any path. */
  lemma UnregisteredMethod<T>(t: Tree<T>, m: string, path: string)
    requires m !in Methods(t)
    ensures Find(t, m, path) == None
  {
    SearchSound(t, m, PathToVec(path), []);
    if Find(t, m, path).Some? {
      HoldsMethods(t, m, Find(t, m, path).value.item);
    }
  }

  // ---------------------------------------------------------------------------------------------
  // Backtracking is exhaustive

  /** Some route of `t` for method `m` matches `path`: a segment goes down the static child of the
      same text, or the variable child, or the wildcard child, which takes it and any number of
      the segments after it. */
  ghost predicate Accepts<T>(t: Tree<T>, m: string, path: seq<string>)
    decreases t, 1
  {
    if |path| == 0 then m in t.items
    else
      || (path[0] in t.statics && Accepts(t.statics[path[0]], m, path[1..]))
      || (t.variable.Some? && Accepts(t.variable.value, m, path[1..]))
      || AcceptsWild(t, m, path[1..])
  }

  /** Below the wildcard child of `t`, some route matches what is left of `rest` once a prefix of
      it has been taken. */
  ghost predicate AcceptsWild<T>(t: Tree<T>, m: string, rest: seq<string>)
    decreases t, 0
  {
    t.wildcard.Some? && exists j :: 0 <= j <= |rest| && Accepts(t.wildcard.value, m, rest[j..])
  }

  /** The search finds an item exactly when some route matches: a failed static or variable branch
      never hides a match further on. */
  lemma {:induction false} SearchAccepts<T>(t: Tree<T>, m: string, path: seq<string>, vars: seq<string>)
    ensures Search(t, m, path, vars).Some? <==> Accepts(t, m, path)
    decreases t, 3
  {
    if |path| > 0 {
      MatchStaticAccepts(t, m, path[0], path[1..], vars);
    }
  }

  lemma {:induction false} MatchStaticAccepts<T>(t: Tree<T>, m: string, key: string, rest: seq<string>, vars: seq<string>)
    ensures MatchStatic(t, m, key, rest, vars).Some? <==>
      || (key in t.statics && Accepts(t.statics[key], m, rest))
      || (t.variable.Some? && Accepts(t.variable.value, m, rest))
      || AcceptsWild(t, m, rest)
    decreases t, 2
  {
    if key in t.statics {
      SearchAccepts(t.statics[key], m, rest, vars);
    }
    MatchVariableAccepts(t, m, key, rest, vars);
  }

  lemma {:induction false} MatchVariableAccepts<T>(t: Tree<T>, m: string, key: string, rest: seq<string>, vars: seq<string>)
    ensures MatchVariable(t, m, key, rest, vars).Some? <==>
      (t.variable.Some? && Accepts(t.variable.value, m, rest)) || AcceptsWild(t, m, rest)
    decreases t, 1
  {
    if t.variable.Some? {
      SearchAccepts(t.variable.value, m, rest, vars + [key]);
    }
    MatchWildcardAccepts(t, m, rest, vars);
  }

  lemma {:induction false} MatchWildcardAccepts<T>(t: Tree<T>, m: string, rest: seq<string>, vars: seq<string>)
    ensures MatchWildcard(t, m, rest, vars).Some? <==> AcceptsWild(t, m, rest)
    decreases t, 0
  {
    if t.wildcard.Some? {
      WildcardFromAccepts(t.wildcard.value, m, rest, vars, 0);
    }
  }

  lemma {:induction false} WildcardFromAccepts<T>(w: Tree<T>, m: string, rest: seq<string>, vars: seq<string>, i: nat)
    requires i <= |rest|
    ensures WildcardFrom(w, m, rest, vars, i).Some? <==> exists j :: i <= j <= |rest| && Accepts(w, m, rest[j..])
    decreases w, 4, |rest| - i
  {
    SearchAccepts(w, m, rest[i..], vars);
    if i < |rest| {
      WildcardFromAccepts(w, m, rest, vars, i + 1);
    }
    AcceptsFrom(w, m, rest, i);
  }

  /** Some split at or after `i` matches exactly when the split at `i` does or one after it does. */
  lemma AcceptsFrom<T>(w: Tree<T>, m: string, rest: seq<string>, i: nat)
    requires i <= |rest|
    ensures (exists j :: i <= j <= |rest| && Accepts(w, m, rest[j..])) <==>
      Accepts(w, m, rest[i..]) || (i < |rest| && exists j :: i + 1 <= j <= |rest| && Accepts(w, m, rest[j..]))
  {
  }

  /** A static child that matches the rest of the path wins over the variable and wildcard
      children, whatever they hold. */
  lemma StaticWins<T>(t: Tree<T>, m: string, path: seq<string>, vars: seq<string>)
    requires |path| > 0 && path[0] in t.statics && Accepts(t.statics[path[0]], m, path[1..])
    ensures Search(t, m, path, vars) == Search(t.statics[path[0]], m, path[1..], vars)
  {
    SearchAccepts(t.statics[path[0]], m, path[1..], vars);
  }

  /** When the static child has no match, the search backtracks to the variable child, which
      captures the segment. */
  lemma StaticBacktracks<T>(t: Tree<T>, m: string, path: seq<string>, vars: seq<string>)
    requires |path| > 0 && !(path[0] in t.statics && Accepts(t.statics[path[0]], m, path[1..]))
    requires t.variable.Some? && Accepts(t.variable.value, m, path[1..])
    ensures Search(t, m, path, vars) == Search(t.variable.value, m, path[1..], vars + [path[0]])
  {
    var key, rest := path[0], path[1..];
    if key in t.statics {
      SearchAccepts(t.statics[key], m, rest, vars);
    }
    SearchAccepts(t.variable.value, m, rest, vars + [key]);
    assert MatchStatic(t, m, key, rest, vars) == MatchVariable(t, m, key, rest, vars);
  }

  /** When neither the static nor the variable child has a match, the search falls back to the
      wildcard child with the rest of the path. */
  lemma WildcardFallback<T>(t: Tree<T>, m: string, path: seq<string>, vars: seq<string>)
    requires |path| > 0 && !(path[0] in t.statics && Accepts(t.statics[path[0]], m, path[1..]))
    requires !(t.variable.Some? && Accepts(t.variable.value, m, path[1..]))
    ensures Search(t, m, path, vars) == MatchWildcard(t, m, path[1..], vars)
  {
    var key, rest := path[0], path[1..];
    if key in t.statics {
      SearchAccepts(t.statics[key], m, rest, vars);
    }
    if t.variable.Some? {
      SearchAccepts(t.variable.value, m, rest, vars + [key]);
    }
    assert MatchVariable(t, m, key, rest, vars) == MatchWildcard(t, m, rest, vars);
    assert MatchStatic(t, m, key, rest, vars) == MatchVariable(t, m, key, rest, vars);
  }

  /** The wildcard takes as few segments as it can, in any tree: the loop from `i` returns what
      the search finds after the first split `j` whose rest some route below the wildcard
      matches. */
  lemma {:induction false} WildcardFromFirst<T>(w: Tree<T>, m: string, rest: seq<string>, vars: seq<string>, i: nat, j: nat)
    requires i <= j <= |rest| && Accepts(w, m, rest[j..])
    requires forall k :: i <= k < j ==> !Accepts(w, m, rest[k..])
    ensures WildcardFrom(w, m, rest, vars, i) == Search(w, m, rest[j..], vars)
    decreases j - i
  {
    SearchAccepts(w, m, rest[i..], vars);
    if i < j {
      WildcardFromFirst(w, m, rest, vars, i + 1, j);
    }
  }

  // ---------------------------------------------------------------------------------------------
  // A tree holding a single route: what the search finds there

  /** When a single pattern matches a path: a literal segment must be equal, a ':name' segment
      matches any segment (the empty one included), and '*' matches one or more segments. */
  ghost predicate Matches(pat: seq<string>, path: seq<string>)
    decreases |pat|
  {
    if |pat| == 0 then |path| == 0
    else if pat[0] == "*" then exists k :: 1 <= k <= |path| && Matches(pat[1..], path[k..])
    else |path| > 0 && (IsVariable(pat[0]) || pat[0] == path[0]) && Matches(pat[1..], path[1..])
  }

  /** The segments the search captures for the variables of a single pattern, the wildcard
      taking as few segments as it can; None when the pattern does not match. */
  function Capture(pat: seq<string>, path: seq<string>): Option<seq<string>>
    decreases |pat|, 0
  {
    if |pat| == 0 then (if |path| == 0 then Some([]) else None)
    else if |path| == 0 then None
    else if pat[0] == "*" then CaptureStar(pat[1..], path[1..], 0)
    else if IsVariable(pat[0]) then
      match Capture(pat[1..], path[1..])
      case Some(vs) => Some([path[0]] + vs)
      case None => None
    else if pat[0] == path[0] then Capture(pat[1..], path[1..])
    else None
  }

  /** The captures once a wildcard has taken `i` segments beyond its first. */
  function CaptureStar(pat: seq<string>, rest: seq<string>, i: nat): Option<seq<string>>
    requires i <= |rest|
    decreases |pat|, 1, |rest| - i
  {
    match Capture(pat, rest[i..])
    case Some(vs) => Some(vs)
    case None => if i < |rest| then CaptureStar(pat, rest, i + 1) else None
  }

  /** What the search finds in the tree built by inserting one pattern into an empty router. */
  function ChainResult<T>(m: string, pat: seq<string>, names: seq<string>, x: T, m': string,
                          vars: seq<string>, cap: Option<seq<string>>): Option<Found<T>>
  {
    if m' == m && cap.Some? then Some(Found(x, Bindings(names + VarNames(pat), vars + cap.value))) else None
  }

  /** Searching the single-route tree finds the item exactly when the method is the route's and
      the pattern matches, binding the route's names to the captured segments. */
  lemma {:induction false} SearchChain<T>(m: string, pat: seq<string>, names: seq<string>, x: T,
                                          m': string, path: seq<string>, vars: seq<string>)
    ensures Search(InsertVec(Empty(), m, pat, names, x), m', path, vars)
         == ChainResult(m, pat, names, x, m', vars, Capture(pat, path))
    decreases |pat|, 0
  {
    if |pat| == 0 {
      ChainEnd(m, names, x, m', path, vars);
    } else if |path| == 0 {
      ChainNoPath(m, pat, names, x, m', vars);
    } else if pat[0] == "*" {
      WildcardChain(m, pat[1..], names, x, m', path[1..], vars, 0);
      ChainWild(m, pat, names, x, m', path, vars);
    } else if IsVariable(pat[0]) {
      SearchChain(m, pat[1..], PushName(names, pat[0]), x, m', path[1..], vars + [path[0]]);
      ChainVar(m, pat, names, x, m', path, vars);
    } else {
      if pat[0] == path[0] {
        SearchChain(m, pat[1..], names, x, m', path[1..], vars);
      }
      ChainLiteral(m, pat, names, x, m', path, vars);
    }
  }

  /** `SearchChain` for the empty pattern: only the empty path finds the item. */
  lemma ChainEnd<T>(m: string, names: seq<string>, x: T, m': string, path: seq<string>, vars: seq<string>)
    ensures Search(InsertVec(Empty(), m, [], names, x), m', path, vars)
         == ChainResult(m, [], names, x, m', vars, Capture([], path))
  {
    var t := InsertVec(Empty(), m, [], names, x);
    assert names + VarNames([]) == names;
    assert vars + [] == vars;
    if |path| > 0 {
      assert MatchVariable(t, m', path[0], path[1..], vars) == None;
    }
  }

  /** The tree of a non-empty pattern has a single child, along the first segment's edge. */
  lemma ChainRoot<T>(m: string, pat: seq<string>, names: seq<string>, x: T)
    requires |pat| > 0
    ensures var t := InsertVec(Empty(), m, pat, names, x);
      var c := InsertVec(Empty(), m, pat[1..], PushName(names, pat[0]), x);
      && t.items == map[]
      && t.statics == (if pat[0] == "*" || IsVariable(pat[0]) then map[] else map[pat[0] := c])
      && t.variable == (if IsVariable(pat[0]) && pat[0] != "*" then Some(c) else None)
      && t.wildcard == (if pat[0] == "*" then Some(c) else None)
    ensures PushName(names, pat[0]) + VarNames(pat[1..]) == names + VarNames(pat)
  {
    VarNamesCons(names, pat);
  }

  /** `SearchChain` for a non-empty pattern and the empty path: nothing is found. */
  lemma ChainNoPath<T>(m: string, pat: seq<string>, names: seq<string>, x: T, m': string, vars: seq<string>)
    requires |pat| > 0
    ensures Search(InsertVec(Empty(), m, pat, names, x), m', [], vars) == None
    ensures Capture(pat, []) == None
  {
    ChainRoot(m, pat, names, x);
  }

  /** `SearchChain` for a pattern starting with '*', given the wildcard loop below it. */
  lemma ChainWild<T>(m: string, pat: seq<string>, names: seq<string>, x: T, m': string, path: seq<string>, vars: seq<string>)
    requires |pat| > 0 && |path| > 0 && pat[0] == "*"
    requires WildcardFrom(InsertVec(Empty(), m, pat[1..], names, x), m', path[1..], vars, 0)
          == ChainResult(m, pat[1..], names, x, m', vars, CaptureStar(pat[1..], path[1..], 0))
    ensures Search(InsertVec(Empty(), m, pat, names, x), m', path, vars)
         == ChainResult(m, pat, names, x, m', vars, Capture(pat, path))
  {
    var t := InsertVec(Empty(), m, pat, names, x);
    ChainRoot(m, pat, names, x);
    assert MatchStatic(t, m', path[0], path[1..], vars) == MatchVariable(t, m', path[0], path[1..], vars);
    assert MatchVariable(t, m', path[0], path[1..], vars) == MatchWildcard(t, m', path[1..], vars);
  }

  /** `SearchChain` for a pattern starting with a variable, given the search below it. */
  lemma ChainVar<T>(m: string, pat: seq<string>, names: seq<string>, x: T, m': string, path: seq<string>, vars: seq<string>)
    requires |pat| > 0 && |path| > 0 && IsVariable(pat[0]) && pat[0] != "*"
    requires Search(InsertVec(Empty(), m, pat[1..], PushName(names, pat[0]), x), m', path[1..], vars + [path[0]])
          == ChainResult(m, pat[1..], PushName(names, pat[0]), x, m', vars + [path[0]], Capture(pat[1..], path[1..]))
    ensures Search(InsertVec(Empty(), m, pat, names, x), m', path, vars)
         == ChainResult(m, pat, names, x, m', vars, Capture(pat, path))
  {
    var t := InsertVec(Empty(), m, pat, names, x);
    ChainRoot(m, pat, names, x);
    assert Search(t, m', path, vars) == MatchVariable(t, m', path[0], path[1..], vars);
    assert MatchWildcard(t, m', path[1..], vars) == None;
    match Capture(pat[1..], path[1..])
    case Some(vs) =>
      assert Capture(pat, path) == Some([path[0]] + vs);
      assert (vars + [path[0]]) + vs == vars + ([path[0]] + vs);
    case None =>
  }

  /** `SearchChain` for a pattern starting with a literal, given the search below it. */
  lemma ChainLiteral<T>(m: string, pat: seq<string>, names: seq<string>, x: T, m': string, path: seq<string>, vars: seq<string>)
    requires |pat| > 0 && |path| > 0 && pat[0] != "*" && !IsVariable(pat[0])
    requires pat[0] == path[0] ==>
      Search(InsertVec(Empty(), m, pat[1..], names, x), m', path[1..], vars)
        == ChainResult(m, pat[1..], names, x, m', vars, Capture(pat[1..], path[1..]))
    ensures Search(InsertVec(Empty(), m, pat, names, x), m', path, vars)
         == ChainResult(m, pat, names, x, m', vars, Capture(pat, path))
  {
    var t := InsertVec(Empty(), m, pat, names, x);
    ChainRoot(m, pat, names, x);
    assert MatchVariable(t, m', path[0], path[1..], vars) == None;
  }

  /** The wildcard loop in the single-route tree follows `CaptureStar`. */
  lemma {:induction false} WildcardChain<T>(m: string, pat: seq<string>, names: seq<string>, x: T,
                                            m': string, rest: seq<string>, vars: seq<string>, i: nat)
    requires i <= |rest|
    ensures WildcardFrom(InsertVec(Empty(), m, pat, names, x), m', rest, vars, i)
         == ChainResult(m, pat, names, x, m', vars, CaptureStar(pat, rest, i))
    decreases |pat|, 1, |rest| - i
  {
    SearchChain(m, pat, names, x, m', rest[i..], vars);
    if i < |rest| {
      WildcardChain(m, pat, names, x, m', rest, vars, i + 1);
    }
  }

  /** The search's captures succeed exactly when the pattern matches. */
  lemma {:induction false} CaptureMatches(pat: seq<string>, path: seq<string>)
    ensures Capture(pat, path).Some? <==> Matches(pat, path)
    decreases |pat|, 0
  {
    if |pat| > 0 && |path| > 0 {
      if pat[0] == "*" {
        CaptureStarMatches(pat[1..], path[1..], 0);
        if Matches(pat, path) {
          var k :| 1 <= k <= |path| && Matches(pat[1..], path[k..]);
          assert path[1..][k - 1..] == path[k..];
        }
        if Capture(pat, path).Some? {
          var k :| 0 <= k <= |path| - 1 && Matches(pat[1..], path[1..][k..]);
          assert path[1..][k..] == path[k + 1..];
        }
      } else {
        CaptureMatches(pat[1..], path[1..]);
      }
    }
  }

  /** The wildcard takes as few segments as it can: the captures are those of the first split
      after which the rest of the pattern matches. */
  lemma {:induction false} CaptureStarShortest(pat: seq<string>, rest: seq<string>, i: nat, k: nat)
    requires i <= k <= |rest| && Matches(pat, rest[k..])
    requires forall j :: i <= j < k ==> !Matches(pat, rest[j..])
    ensures CaptureStar(pat, rest, i) == Capture(pat, rest[k..])
    decreases k - i
  {
    CaptureMatches(pat, rest[i..]);
    if i < k {
      CaptureStarShortest(pat, rest, i + 1, k);
    }
  }

  /** A wildcard that has taken `i` extra segments finds a match exactly when some split at or
      after `i` leaves a matching rest. */
  lemma {:induction false} CaptureStarMatches(pat: seq<string>, rest: seq<string>, i: nat)
    requires i <= |rest|
    ensures CaptureStar(pat, rest, i).Some? <==> exists k :: i <= k <= |rest| && Matches(pat, rest[k..])
    decreases |pat|, 1, |rest| - i
  {
    CaptureMatches(pat, rest[i..]);
    if i < |rest| {
      CaptureStarMatches(pat, rest, i + 1);
      if exists k :: i <= k <= |rest| && Matches(pat, rest[k..]) {
        var k :| i <= k <= |rest| && Matches(pat, rest[k..]);
        if k > i {
          assert exists k' :: i + 1 <= k' <= |rest| && Matches(pat, rest[k'..]);
        }
      }
    }
  }

  /** One captured segment per variable of the pattern. */
  lemma {:induction false} CaptureLength(pat: seq<string>, path: seq<string>)
    ensures Capture(pat, path).Some? ==> |Capture(pat, path).value| == |VarNames(pat)|
    decreases |pat|, 0
  {
    if |pat| > 0 && |path| > 0 {
      if pat[0] == "*" {
        CaptureStarLength(pat[1..], path[1..], 0);
      } else {
        CaptureLength(pat[1..], path[1..]);
      }
    }
  }

  lemma {:induction false} CaptureStarLength(pat: seq<string>, rest: seq<string>, i: nat)
    requires i <= |rest|
    ensures CaptureStar(pat, rest, i).Some? ==> |CaptureStar(pat, rest, i).value| == |VarNames(pat)|
    decreases |pat|, 1, |rest| - i
  {
    CaptureLength(pat, rest[i..]);
    if i < |rest| {
      CaptureStarLength(pat, rest, i + 1);
    }
  }

  /** A pattern only matches paths with at least as many segments (a wildcard takes at least
      one), and exactly as many when it has no wildcard. */
  lemma {:induction false} MatchesLength(pat: seq<string>, path: seq<string>)
    requires Matches(pat, path)
    ensures |path| >= |pat|
    ensures "*" !in pat ==> |path| == |pat|
    decreases |pat|
  {
    if |pat| > 0 {
      if pat[0] == "*" {
        var k :| 1 <= k <= |path| && Matches(pat[1..], path[k..]);
        MatchesLength(pat[1..], path[k..]);
      } else {
        MatchesLength(pat[1..], path[1..]);
        assert "*" !in pat ==> "*" !in pat[1..];
      }
    }
  }

  /** Insert-then-find for any one route in an empty router: the query finds the item exactly
      when the method is the route's and the pattern matches, and then every variable the
      pattern declares is bound. */
  lemma SingleRouteFind<T>(m: string, pattern: string, x: T, m': string, query: string)
    ensures Find(InsertItem(Empty(), m, pattern, x), m', query).Some?
        <==> m' == m && Matches(PathToVec(Trim(pattern)), PathToVec(query))
    ensures Find(InsertItem(Empty(), m, pattern, x), m', query).Some? ==>
      var names := VarNames(PathToVec(Trim(pattern)));
      && Find(InsertItem(Empty(), m, pattern, x), m', query).value.item == x
      && Find(InsertItem(Empty(), m, pattern, x), m', query).value.variables.Keys
         == set j | 0 <= j < |names| :: names[j]
  {
    var pat := PathToVec(Trim(pattern));
    var path := PathToVec(query);
    SearchChain(m, pat, [], x, m', path, []);
    CaptureMatches(pat, path);
    CaptureLength(pat, path);
    assert [] + VarNames(pat) == VarNames(pat);
    if Capture(pat, path).Some? {
      assert [] + Capture(pat, path).value == Capture(pat, path).value;
      BindingsSpec(VarNames(pat), Capture(pat, path).value, 0);
    }
  }

  /** With a single route, a query with fewer segments than the pattern is never found; in
      particular a wildcard never matches nothing. */
  lemma ShortQueryNotFound<T>(m: string, pattern: string, x: T, m': string, query: string)
    requires |PathToVec(query)| < |PathToVec(Trim(pattern))|
    ensures Find(InsertItem(Empty(), m, pattern, x), m', query) == None
  {
    SingleRouteFind(m, pattern, x, m', query);
    if Matches(PathToVec(Trim(pattern)), PathToVec(query)) {
      MatchesLength(PathToVec(Trim(pattern)), PathToVec(query));
    }
  }
}
