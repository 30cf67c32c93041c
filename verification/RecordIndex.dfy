/**
 The lazy lookup table of the plugin handle: one route of child positions per
 FormID, which must find the record that the linear scan finds.
 */
module RecordIndex {
  import opened Wire
  import opened Records
  import opened Groups
  import opened Plugins
  import opened Traversal

  type Route = seq<nat>

  // --------------------------------------------------------------------------
  // Routes
  // --------------------------------------------------------------------------

  /** The record at the end of a route of positions; it may not stop at a group or pass through a record. */
  function Resolve(cs: seq<Child>, route: Route): Option<Record>
    decreases |route|
  {
    if route == [] || route[0] >= |cs| then None
    else
      match cs[route[0]]
      case RecordChild(r) => if |route| == 1 then Some(r) else None
      case GroupChild(g) => Resolve(g.children, route[1..])
  }

  /** The route to the first record with FormID `id`, among the children from position `i` on. */
  ghost function FirstRoute(cs: seq<Child>, i: nat, id: FormId): Option<Route>
    requires i <= |cs|
    decreases cs, 1, |cs| - i
  {
    if i == |cs| then None
    else
      var here := RouteInside(cs[i], id);
      if here.Some? then Some([i] + here.value) else FirstRoute(cs, i + 1, id)
  }

  ghost function RouteInside(c: Child, id: FormId): Option<Route>
    decreases c, 0
  {
    match c
    case RecordChild(r) => if r.header.formId == id then Some([]) else None
    case GroupChild(g) => FirstRoute(g.children, 0, id)
  }

  // --------------------------------------------------------------------------
  // Building the table
  // --------------------------------------------------------------------------

  ghost function Collected(cs: seq<Child>, i: nat, route: Route, routes: map<FormId, Route>): map<FormId, Route>
    requires i <= |cs|
    decreases cs, 1, |cs| - i
  {
    if i == |cs| then routes else Collected(cs, i + 1, route, CollectedIn(cs[i], route + [i], routes))
  }

  ghost function CollectedIn(c: Child, route: Route, routes: map<FormId, Route>): map<FormId, Route>
    decreases c, 0
  {
    match c
    case RecordChild(r) => if r.header.formId in routes then routes else routes[r.header.formId := route]
    case GroupChild(g) => Collected(g.children, 0, route, routes)
  }

  /** The shared route and table that the collection pass updates in place. */
  class Collector {
    var route: Route
    var routes: map<FormId, Route>

    constructor ()
      ensures route == [] && routes == map[]
    {
      route := [];
      routes := map[];
    }

    /** Enters the route of every record below, keeping the first one per FormID. */
    method Collect(children: seq<Child>)
      modifies this
      ensures route == old(route)
      ensures routes == Collected(children, 0, old(route), old(routes))
      decreases NodeCount(children)
    {
      ghost var start := route;
      ghost var whole := Collected(children, 0, route, routes);
      for index := 0 to |children|
        invariant route == start
        invariant Collected(children, index, start, routes) == whole
      {
        route := route + [index];
        match children[index] {
          case RecordChild(record) =>
            if record.header.formId !in routes {
              routes := routes[record.header.formId := route];
            }
          case GroupChild(group) =>
            NestedCount(children, index);
            Collect(group.children);
        }
        route := route[..|route| - 1];
      }
    }
  }

  class RecordIndex {
    const routes: map<FormId, Route>

    constructor (groups: seq<Group>)
      ensures routes == Collected(AsChildren(groups), 0, [], map[])
    {
      var collector := new Collector();
      ghost var cs := AsChildren(groups);
      for index := 0 to |groups|
        invariant fresh(collector)
        invariant Collected(cs, index, [], collector.routes) == Collected(cs, 0, [], map[])
      {
        collector.route := [index];
        assert [] + [index] == [index];
        collector.Collect(groups[index].children);
      }
      routes := collector.routes;
    }

    /** Looking a FormID up through the table is the linear scan, duplicates included. */
    method Get(groups: seq<Group>, id: FormId) returns (r: Option<Record>)
      requires routes == Collected(AsChildren(groups), 0, [], map[])
      ensures r == FirstWith(Flatten(AsChildren(groups)), id)
    {
      hide Collected, Flatten, FirstWith, FirstRoute, Resolve;
      IndexFinds(AsChildren(groups), id);
      if id !in routes {
        return None;
      }
      var full := routes[id];
      ResolveTop(groups, full);
      if full == [] || full[0] >= |groups| {
        return None;
      }
      var group := groups[full[0]];
      var route := full[1..];
      assert route[0..] == route;
      for position := 0 to |route|
        invariant Resolve(AsChildren(groups), full) == Resolve(group.children, route[position..])
      {
        var index := route[position];
        ResolveStep(group.children, route, position);
        if index >= |group.children| {
          return None;
        }
        match group.children[index] {
          case RecordChild(record) =>
            return if position + 1 == |route| then Some(record) else None;
          case GroupChild(child) =>
            group := child;
        }
      }
      ResolveEnd(group.children, route);
      return None;
    }
  }

  lemma ResolveTop(groups: seq<Group>, full: Route)
    ensures Resolve(AsChildren(groups), full)
         == if full == [] || full[0] >= |groups| then None else Resolve(groups[full[0]].children, full[1..])
  {
  }

  lemma ResolveStep(cs: seq<Child>, route: Route, i: nat)
    requires i < |route|
    ensures Resolve(cs, route[i..])
         == if route[i] >= |cs| then None
            else match cs[route[i]]
                 case RecordChild(r) => if i + 1 == |route| then Some(r) else None
                 case GroupChild(g) => Resolve(g.children, route[i + 1..])
  {
    assert route[i..][0] == route[i] && route[i..][1..] == route[i + 1..];
  }

  lemma ResolveEnd(cs: seq<Child>, route: Route)
    ensures Resolve(cs, route[|route|..]) == None
  {
  }

  // --------------------------------------------------------------------------
  // The table agrees with the scan
  // --------------------------------------------------------------------------

  /** What the table holds for `id` afterwards: the entry it had, or else the first route found. */
  lemma {:induction false} CollectedEntry(cs: seq<Child>, i: nat, route: Route, routes: map<FormId, Route>, id: FormId)
    requires i <= |cs|
    ensures var after, found := Collected(cs, i, route, routes), FirstRoute(cs, i, id);
            (id in after <==> id in routes || found.Some?)
            && (id in after ==> after[id] == if id in routes then routes[id] else route + found.value)
    decreases cs, 1, |cs| - i
  {
    if i < |cs| {
      var inside := CollectedIn(cs[i], route + [i], routes);
      CollectedEntryIn(cs[i], route + [i], routes, id);
      CollectedEntry(cs, i + 1, route, inside, id);
      var here := RouteInside(cs[i], id);
      if here.Some? {
        assert route + ([i] + here.value) == route + [i] + here.value;
      }
    }
  }

  lemma {:induction false} CollectedEntryIn(c: Child, route: Route, routes: map<FormId, Route>, id: FormId)
    ensures var after, found := CollectedIn(c, route, routes), RouteInside(c, id);
            (id in after <==> id in routes || found.Some?)
            && (id in after ==> after[id] == if id in routes then routes[id] else route + found.value)
    decreases c, 0
  {
    match c {
      case RecordChild(r) => assert route + [] == route;
      case GroupChild(g) => CollectedEntry(g.children, 0, route, routes, id);
    }
  }

  /** The first route leads to the first record. */
  lemma {:induction false} FirstRouteResolves(cs: seq<Child>, i: nat, id: FormId)
    requires i <= |cs|
    ensures FirstRoute(cs, i, id).Some? <==> FirstWith(Flatten(cs[i..]), id).Some?
    ensures FirstRoute(cs, i, id).Some? ==> Resolve(cs, FirstRoute(cs, i, id).value) == FirstWith(Flatten(cs[i..]), id)
    decreases cs, 1, |cs| - i
  {
    hide Flatten, FirstWith;
    if i == |cs| {
      ListDone(cs);
      FirstOfNothing(id);
    } else {
      ListStep(cs, i);
      FirstWithConcat(FlattenChild(cs[i]), Flatten(cs[i + 1..]), id);
      FirstRouteResolves(cs, i + 1, id);
      RouteInsideResolves(cs[i], id);
      var inside := RouteInside(cs[i], id);
      if inside.Some? {
        assert ([i] + inside.value)[1..] == inside.value;
      }
    }
  }

  lemma {:induction false} RouteInsideResolves(c: Child, id: FormId)
    ensures RouteInside(c, id).Some? <==> FirstWith(FlattenChild(c), id).Some?
    ensures RouteInside(c, id).Some? && c.RecordChild? ==>
              FirstWith(FlattenChild(c), id) == Some(c.record) && RouteInside(c, id).value == []
    ensures RouteInside(c, id).Some? && c.GroupChild? ==>
              FirstWith(FlattenChild(c), id) == Resolve(c.group.children, RouteInside(c, id).value)
    decreases c, 0
  {
    match c {
      case RecordChild(r) =>
        FirstOfCons(r, [], id);
        FirstOfNothing(id);
        assert [r] + [] == [r] == FlattenChild(c);
      case GroupChild(g) =>
        FirstRouteResolves(g.children, 0, id);
        assert g.children[0..] == g.children;
    }
  }

  lemma IndexFinds(cs: seq<Child>, id: FormId)
    ensures var routes, found := Collected(cs, 0, [], map[]), FirstWith(Flatten(cs), id);
            (id in routes <==> found.Some?) && (id in routes ==> Resolve(cs, routes[id]) == found)
  {
    hide Collected, FirstRoute, Resolve, Flatten, FirstWith;
    CollectedEntry(cs, 0, [], map[], id);
    FirstRouteResolves(cs, 0, id);
    assert cs[0..] == cs;
    var found := FirstRoute(cs, 0, id);
    if found.Some? {
      assert [] + found.value == found.value;
    }
  }
}
