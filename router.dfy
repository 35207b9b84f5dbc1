/** The loops of `src/router.rs`: `from_routes`, `merge_router`, `match_wildcard` and `get`, as
    methods that step through their input the way the source does. Each is proved to compute the
    function of `RouteTree` or `RouteSearch` that describes it, whose properties are proved there.
    A router is the value of its tree: the source's nodes own their children outright, so an update
    in place through `&mut self` is the replacement of the node by its updated value. */
module Routing {
  import opened Wrappers
  import opened Text
  import opened RouteTree
  import RouteSearch

  /** `Router::from_routes`: a fresh router, and each route of the table inserted in order. */
  method FromRoutes<T>(routes: seq<Route<T>>) returns (root: Tree<T>)
    ensures root == RouteTree.FromRoutes(routes)
  {
    root := Empty();
    for i := 0 to |routes|
      invariant root == RouteTree.FromRoutes(routes[..i])
    {
      assert routes[..i + 1][..i] == routes[..i];
      root := InsertItem(root, routes[i].m, routes[i].pattern, routes[i].item);
    }
    assert routes[..|routes|] == routes;
  }

  /** The items of `t` once the items of `o` whose methods are not in `pending` are stored over
      them with `names` prepended to their own names. */
  ghost function ItemsMerged<T>(t: Tree<T>, names: seq<string>, o: Tree<T>, pending: set<string>): map<string, Entry<T>>
  {
    t.items + map m | m in o.items && m !in pending :: Prefixed(names, o.items[m])
  }

  /** The static children of `t` once those of `o` whose keys are not in `pending` are merged in. */
  ghost function StaticsMerged<T>(t: Tree<T>, names: seq<string>, o: Tree<T>, pending: set<string>): map<string, Tree<T>>
  {
    map k | k in t.statics.Keys + (o.statics.Keys - pending) ::
      if k in o.statics && k !in pending then
        Merge(if k in t.statics then t.statics[k] else Empty(), names, o.statics[k])
      else t.statics[k]
  }

  /** Before the first loop of `merge_router` the items are this node's, after it the merged ones. */
  lemma ItemsMergedEnds<T>(t: Tree<T>, names: seq<string>, o: Tree<T>)
    ensures ItemsMerged(t, names, o, o.items.Keys) == t.items
    ensures ItemsMerged(t, names, o, {}) == Merge(t, names, o).items
  {
  }

  /** One turn of the first loop stores one more item of `o`. */
  lemma ItemsMergedStep<T>(t: Tree<T>, names: seq<string>, o: Tree<T>, pending: set<string>, m: string)
    requires m in pending && m in o.items
    ensures ItemsMerged(t, names, o, pending - {m}) == ItemsMerged(t, names, o, pending)[m := Prefixed(names, o.items[m])]
  {
  }

  /** Before the second loop the static children are this node's, after it the merged ones. */
  lemma StaticsMergedEnds<T>(t: Tree<T>, names: seq<string>, o: Tree<T>)
    ensures StaticsMerged(t, names, o, o.statics.Keys) == t.statics
    ensures StaticsMerged(t, names, o, {}) == Merge(t, names, o).statics
  {
  }

  /** One turn of the second loop merges one more static child of `o`. */
  lemma StaticsMergedStep<T>(t: Tree<T>, names: seq<string>, o: Tree<T>, pending: set<string>, k: string)
    requires k in pending && k in o.statics
    ensures StaticsMerged(t, names, o, pending - {k}) == StaticsMerged(t, names, o, pending)[k :=
      Merge(if k in t.statics then t.statics[k] else Empty(), names, o.statics[k])]
  {
  }

  /** `merge_router`: the items of `o` are copied over with `names` in front of their names, then
      each static child of `o` is merged into this node's child for the same key (created empty
      when missing), and the variable and wildcard children likewise. */
  method MergeRouter<T>(t: Tree<T>, names: seq<string>, o: Tree<T>) returns (r: Tree<T>)
    ensures r == Merge(t, names, o)
    decreases o, 1
  {
    var items := MergeItems(t, names, o);
    var statics := MergeStatics(t, names, o);
    var variable := MergeOptional(t.variable, names, o.variable);
    var wildcard := MergeOptional(t.wildcard, names, o.wildcard);
    r := Tree(items, statics, variable, wildcard);
  }

  /** The first loop of `merge_router`, over the items of `o`. */
  method MergeItems<T>(t: Tree<T>, names: seq<string>, o: Tree<T>) returns (items: map<string, Entry<T>>)
    ensures items == Merge(t, names, o).items
  {
    ItemsMergedEnds(t, names, o);
    items := t.items;
    var pending := o.items.Keys;
    while pending != {}
      invariant pending <= o.items.Keys
      invariant items == ItemsMerged(t, names, o, pending)
      decreases pending
    {
      var m :| m in pending;
      ItemsMergedStep(t, names, o, pending, m);
      items := items[m := Prefixed(names, o.items[m])];
      pending := pending - {m};
    }
  }

  /** The second loop of `merge_router`, over the static children of `o`. */
  method MergeStatics<T>(t: Tree<T>, names: seq<string>, o: Tree<T>) returns (statics: map<string, Tree<T>>)
    ensures statics == Merge(t, names, o).statics
    decreases o, 0
  {
    StaticsMergedEnds(t, names, o);
    statics := t.statics;
    var pending := o.statics.Keys;
    while pending != {}
      invariant pending <= o.statics.Keys
      invariant statics == StaticsMerged(t, names, o, pending)
      decreases pending
    {
      var k :| k in pending;
      var next := if k in statics then statics[k] else Empty();
      StaticsMergedStep(t, names, o, pending, k);
      next := MergeRouter(next, names, o.statics[k]);
      statics := statics[k := next];
      pending := pending - {k};
    }
  }

  /** The variable or the wildcard step of `merge_router`: this node's child, created empty when
      only `o` has one, with `o`'s merged into it. */
  method MergeOptional<T>(c: Option<Tree<T>>, names: seq<string>, o: Option<Tree<T>>) returns (r: Option<Tree<T>>)
    ensures r == MergeChild(c, names, o)
    decreases o, 0
  {
    r := c;
    if o.Some? {
      var next := MergeRouter(c.GetOr(Empty()), names, o.value);
      r := Some(next);
    }
  }

  /** `match_wildcard`: below the wildcard child, the rest of the path is tried whole, then without
      its first segment, and so on down to the empty rest; the first match is returned. */
  method MatchWildcard<T>(t: Tree<T>, m: string, rest: seq<string>, vars: seq<string>)
    returns (r: Option<RouteSearch.Found<T>>)
    ensures r == RouteSearch.MatchWildcard(t, m, rest, vars)
  {
    if t.wildcard.None? {
      return None;
    }
    var next := t.wildcard.value;
    var path := rest;
    ghost var i := 0;
    while |path| > 0
      invariant i <= |rest| && path == rest[i..]
      invariant RouteSearch.WildcardFrom(next, m, rest, vars, 0) == RouteSearch.WildcardFrom(next, m, rest, vars, i)
      decreases |path|
    {
      var result := RouteSearch.Search(next, m, path, vars);
      if result.Some? {
        return result;
      }
      path := path[1..];
      i := i + 1;
    }
    r := RouteSearch.Search(next, m, path, vars);
  }

  /** `get`: the item this node has for the method, and a map filled by walking the item's
      variable names and the captured values side by side until either runs out. */
  method Get<T>(t: Tree<T>, m: string, vars: seq<string>) returns (r: Option<RouteSearch.Found<T>>)
    ensures r == RouteSearch.Get(t, m, vars)
  {
    if m !in t.items {
      return None;
    }
    var entry := t.items[m];
    var variables := map[];
    var i := 0;
    while i < |entry.names| && i < |vars|
      invariant i <= |entry.names| && i <= |vars|
      invariant variables == RouteSearch.ZipInsert(entry.names, vars, i)
    {
      variables := variables[entry.names[i] := vars[i]];
      i := i + 1;
    }
    r := Some(RouteSearch.Found(entry.item, variables));
  }
}
