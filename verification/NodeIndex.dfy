/** The route table of a schema tree: one chain of child positions per path. */
module NodeIndex {
  import opened Wire
  import opened Schema

  type Route = seq<nat>

  function Walk(n: SchemaNode, route: Route): Option<SchemaNode>
    decreases |route|
  {
    if route == [] then Some(n)
    else if route[0] >= |Children(n)| then None
    else Walk(Children(n)[route[0]], route[1..])
  }

  /** The route to the first node below `n`, itself included, that carries `path`. */
  ghost function FirstRoute(n: SchemaNode, path: string): Option<Route>
    decreases n, 0
  {
    if n.path == path then Some([]) else FirstRouteFrom(n, 0, path)
  }

  ghost function FirstRouteFrom(n: SchemaNode, i: nat, path: string): Option<Route>
    decreases n, 0, |Children(n)| - i
  {
    if i >= |Children(n)| then None
    else
      var here := FirstRoute(Children(n)[i], path);
      if here.Some? then Some([i] + here.value) else FirstRouteFrom(n, i + 1, path)
  }

  ghost function Entered(routes: map<string, Route>, path: string, route: Route): map<string, Route> {
    if path in routes then routes else routes[path := route]
  }

  ghost function Collected(n: SchemaNode, route: Route, routes: map<string, Route>): map<string, Route>
    decreases n, 0
  {
    CollectedFrom(n, 0, route, Entered(routes, n.path, route))
  }

  ghost function CollectedFrom(n: SchemaNode, i: nat, route: Route, routes: map<string, Route>): map<string, Route>
    decreases n, 0, |Children(n)| - i
  {
    if i >= |Children(n)| then routes
    else CollectedFrom(n, i + 1, route, Collected(Children(n)[i], route + [i], routes))
  }

  /** The shared route and table that the collection pass updates in place. */
  class Collector {
    var route: Route
    var routes: map<string, Route>

    constructor ()
      ensures route == [] && routes == map[]
    {
      route := [];
      routes := map[];
    }

    /** Enters the route of every node below, keeping the first one per path. */
    method Collect(node: SchemaNode)
      modifies this
      ensures route == old(route)
      ensures routes == Collected(node, old(route), old(routes))
      decreases node
    {
      hide Children;
      ghost var start := route;
      ghost var whole := Collected(node, route, routes);
      if node.path !in routes {
        routes := routes[node.path := route];
      }
      var children := Children(node);
      for index := 0 to |children|
        invariant route == start
        invariant CollectedFrom(node, index, start, routes) == whole
      {
        route := route + [index];
        assert children[index] in children;
        Collect(children[index]);
        route := route[..|route| - 1];
      }
    }
  }

  class NodeIndex {
    const routes: map<string, Route>

    constructor (root: SchemaNode)
      ensures routes == Collected(root, [], map[])
    {
      var collector := new Collector();
      collector.Collect(root);
      routes := collector.routes;
    }

    /** Following the stored route yields the first node with the path, duplicates included. */
    method Get(root: SchemaNode, path: string) returns (r: Option<SchemaNode>)
      requires routes == Collected(root, [], map[])
      ensures r == FirstNode(root, path)
    {
      hide Collected, FirstNode, Children;
      IndexFinds(root, path);
      if path !in routes {
        return None;
      }
      var route, node := routes[path], root;
      assert route[0..] == route;
      for i := 0 to |route|
        invariant Walk(node, route[i..]) == Walk(root, route)
      {
        assert route[i..][0] == route[i] && route[i..][1..] == route[i + 1..];
        if route[i] >= |Children(node)| {
          return None;
        }
        node := Children(node)[route[i]];
      }
      return Some(node);
    }
  }

  // --------------------------------------------------------------------------
  // The table agrees with the search
  // --------------------------------------------------------------------------

  /** The table afterwards: the entry it had for `path`, or else the first route found. */
  ghost predicate Gains(before: map<string, Route>, after: map<string, Route>, route: Route, found: Option<Route>, path: string) {
    && (path in after <==> path in before || found.Some?)
    && (path in after ==> after[path] == if path in before then before[path] else route + found.value)
  }

  lemma {:induction false} CollectedEntry(n: SchemaNode, route: Route, routes: map<string, Route>, path: string)
    ensures Gains(routes, Collected(n, route, routes), route, FirstRoute(n, path), path)
    decreases n, 0
  {
    hide Children;
    assert route + [] == route;
    CollectedEntryFrom(n, 0, route, Entered(routes, n.path, route), path);
  }

  lemma {:induction false} CollectedEntryFrom(n: SchemaNode, i: nat, route: Route, routes: map<string, Route>, path: string)
    ensures Gains(routes, CollectedFrom(n, i, route, routes), route, FirstRouteFrom(n, i, path), path)
    decreases n, 0, |Children(n)| - i
  {
    hide Children;
    if i < |Children(n)| {
      var c := Children(n)[i];
      assert c in Children(n);
      var here := FirstRoute(c, path);
      CollectedEntry(c, route + [i], routes, path);
      CollectedEntryFrom(n, i + 1, route, Collected(c, route + [i], routes), path);
      if here.Some? {
        assert route + ([i] + here.value) == route + [i] + here.value;
      }
    }
  }

  /** The first route leads to the first node, and there is one exactly when there is the other. */
  ghost predicate Leads(n: SchemaNode, route: Option<Route>, found: Option<SchemaNode>) {
    (route.Some? <==> found.Some?) && (route.Some? ==> Walk(n, route.value) == found)
  }

  lemma {:induction false} FirstRouteLeads(n: SchemaNode, path: string)
    ensures Leads(n, FirstRoute(n, path), FirstAt(Preorder(n), path))
    decreases n, 0
  {
    hide Children;
    FirstRouteFromLeads(n, 0, path);
    assert ([n] + PreorderFrom(n, 0))[1..] == PreorderFrom(n, 0);
  }

  lemma {:induction false} FirstRouteFromLeads(n: SchemaNode, i: nat, path: string)
    ensures Leads(n, FirstRouteFrom(n, i, path), FirstAt(PreorderFrom(n, i), path))
    decreases n, 0, |Children(n)| - i
  {
    hide Children;
    if i < |Children(n)| {
      var c := Children(n)[i];
      assert c in Children(n);
      var here := FirstRoute(c, path);
      FirstRouteLeads(c, path);
      FirstRouteFromLeads(n, i + 1, path);
      FirstAtConcat(Preorder(c), PreorderFrom(n, i + 1), path);
      if here.Some? {
        assert ([i] + here.value)[1..] == here.value;
      }
    }
  }

  lemma IndexFinds(root: SchemaNode, path: string)
    ensures var routes, found := Collected(root, [], map[]), FirstNode(root, path);
            (path in routes <==> found.Some?) && (path in routes ==> Walk(root, routes[path]) == found)
  {
    hide Collected, FirstRoute, Walk, Preorder;
    CollectedEntry(root, [], map[], path);
    FirstRouteLeads(root, path);
    var found := FirstRoute(root, path);
    if found.Some? {
      assert [] + found.value == found.value;
    }
  }
}
