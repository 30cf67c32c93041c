/**
 A registered record order, end to end: from the accepted permutation to the
 plugin a reader finds in the output.
 */
module OrderOutput {
  import opened Wire
  import opened Records
  import opened Groups
  import opened Games
  import opened Plugins
  import opened Ranges
  import opened Edits
  import opened FastPath
  import opened Marking
  import opened HeaderRewrite
  import opened HeaderReparse
  import opened HeaderTheorem
  import opened RegisteredOrders
  import opened Patcher
  import opened PatchedPlugin
  import opened EditMeaning

  // --------------------------------------------------------------------------
  // Orders alone
  // --------------------------------------------------------------------------

  /** Orders without patches never outgrow the size fields. */
  lemma OrdersFitSizes(env: Env, plugin: Plugin, orders: map<Range, seq<FormId>>)
    requires Parsed(env, plugin) && AllOrdersFit(AsChildren(plugin.groups), orders)
    ensures SizesFit(plugin.groups, Edits(map[], orders))
  {
    hide Parsed, AllStandAt, ChildrenBytes, ChildBytes, ChildOk, OrdersFit, EditedChild, RecordBytes, AllOrdersFit, ChildrenOk;
    var cs := AsChildren(plugin.groups);
    ParsedStands(env, plugin);
    StandingHolds(plugin.source, plugin.headerRange.end, cs);
    EachOk(cs);
    EachFits(cs, orders);
    forall i | 0 <= i < |plugin.groups|
      ensures |ChildBytes(EditedChild(GroupChild(plugin.groups[i]), Edits(map[], orders)))| < 0x1_0000_0000
    {
      assert cs[i] == GroupChild(plugin.groups[i]);
      ReorderingKeepsSizes(cs[i], orders);
      GroupBytesFit(plugin.groups[i]);
    }
  }

  lemma GroupBytesFit(g: Group)
    requires ChildOk(GroupChild(g))
    ensures |ChildBytes(GroupChild(g))| < 0x1_0000_0000
  {
    hide GroupBytes, ChildrenOk;
  }

  lemma {:induction false} EachOk(cs: seq<Child>)
    requires ChildrenOk(cs)
    ensures forall i :: 0 <= i < |cs| ==> ChildOk(cs[i])
    decreases |cs|
  {
    hide ChildOk;
    if cs != [] {
      EachOk(cs[1..]);
      assert cs == [cs[0]] + cs[1..];
    }
  }

  lemma {:induction false} EachFits(cs: seq<Child>, orders: map<Range, seq<FormId>>)
    requires AllOrdersFit(cs, orders)
    ensures forall i :: 0 <= i < |cs| ==> OrdersFit(cs[i], orders)
    decreases |cs|
  {
    hide OrdersFit;
    if cs != [] {
      EachFits(cs[1..], orders);
      assert cs == [cs[0]] + cs[1..];
    }
  }

  /** Fitting orders without patches can be carried out completely exactly when the search reaches them. */
  lemma OrdersWorkable(env: Env, plugin: Plugin, orders: map<Range, seq<FormId>>)
    requires Parsed(env, plugin) && AllOrdersFit(AsChildren(plugin.groups), orders)
    ensures Workable(plugin, Edits(map[], orders)) <==> TopReached(plugin.groups, Edits(map[], orders))
  {
    hide Parsed, AllOrdersFit, SizesFit, TopReached, ExactPatch;
    OrdersFitSizes(env, plugin, orders);
  }

  // --------------------------------------------------------------------------
  // The tree with one group rearranged
  // --------------------------------------------------------------------------

  /** The same tree, except that the group with range `r` has the children `kids`. */
  function Rearranged(c: Child, r: Range, kids: seq<Child>): Child
    decreases c, 0
  {
    match c
    case RecordChild(_) => c
    case GroupChild(g) =>
      GroupChild(g.(children := if g.range == Some(r) then kids else RearrangedIn(g.children, r, kids)))
  }

  function RearrangedIn(cs: seq<Child>, r: Range, kids: seq<Child>): (out: seq<Child>)
    ensures |out| == |cs|
    decreases cs, 0
  {
    if cs == [] then [] else [Rearranged(cs[0], r, kids)] + RearrangedIn(cs[1..], r, kids)
  }

  /** The records of a group in the order `ids`. */
  function InOrder(g: Group, ids: seq<FormId>): seq<Child> {
    AsRecords(PickAll(g.children, ids))
  }

  /** The records are those of the group, each exactly once, and stand in the requested order. */
  ghost predicate Permutes(kids: seq<Child>, g: Group, ids: seq<FormId>) {
    && |kids| == |ids| == |g.children|
    && (forall i :: 0 <= i < |kids| ==> kids[i].RecordChild? && kids[i].record.header.formId == ids[i] && kids[i] in g.children)
    && (forall c :: c in g.children ==> c in kids)
    && Distinct(kids)
  }

  lemma OrderPermutes(g: Group, ids: seq<FormId>)
    requires OrderFits(g.children, ids)
    ensures Permutes(InOrder(g, ids), g, ids)
  {
    hide PickAll, PickRecord;
    var direct, kids := DirectIds(g.children), InOrder(g, ids);
    FitsDirect(g.children, ids);
    OrderFinds(g.children, ids);
    PickedOrder(g.children, ids);
    FitsDistinct(g.children, ids);
    forall i, j | 0 <= i < j < |kids|
      ensures kids[i] != kids[j]
    {
      OrderDistinct(g.children, ids, i, j);
    }
    forall c | c in g.children
      ensures c in kids
    {
      var k :| 0 <= k < |g.children| && g.children[k] == c;
      assert direct[k] in multiset(direct);
      assert direct[k] in multiset(ids);
      var i :| 0 <= i < |ids| && ids[i] == direct[k];
      var j :| 0 <= j < |g.children| && g.children[j] == kids[i];
      assert direct[j] == ids[i];
      assert j == k;
    }
  }

  lemma OrderDistinct(cs: seq<Child>, ids: seq<FormId>, i: nat, j: nat)
    requires OrderFits(cs, ids) && i < j < |ids|
    ensures ids[i] != ids[j]
  {
    if ids[i] == ids[j] {
      TwiceInMultiset(ids, i, j);
      DistinctOnce(DirectIds(cs), ids[i]);
    }
  }

  /** `g` is the only group of the tree with its range. */
  ghost predicate OnlyOne(gs: seq<Group>, g: Group) {
    forall h :: h in gs && h.range == g.range ==> h == g
  }

  lemma {:induction false} EditedIsRearranged(cs: seq<Child>, g: Group, ids: seq<FormId>)
    requires g.range.Some? && ChildrenOk(cs) && AllOrdersFit(cs, map[g.range.value := ids]) && OnlyOne(GroupsIn(cs), g)
    ensures EditedChildren(cs, Edits(map[], map[g.range.value := ids])) == RearrangedIn(cs, g.range.value, InOrder(g, ids))
    decreases cs, 0
  {
    hide ChildOk, OrdersFit, EditedChild, Rearranged, GroupsOf, InOrder;
    if cs != [] {
      EditedChildIsRearranged(cs[0], g, ids);
      EditedIsRearranged(cs[1..], g, ids);
    }
  }

  lemma {:induction false} EditedChildIsRearranged(c: Child, g: Group, ids: seq<FormId>)
    requires g.range.Some? && ChildOk(c) && OrdersFit(c, map[g.range.value := ids]) && OnlyOne(GroupsOf(c), g)
    ensures EditedChild(c, Edits(map[], map[g.range.value := ids])) == Rearranged(c, g.range.value, InOrder(g, ids))
    decreases c, 0
  {
    hide RecordOk, GroupHeaderBytes, ChildrenBytes, PickAll, OrderFits, GroupsIn, EditedChildren, RearrangedIn, EditedRecords;
    if c.GroupChild? {
      var h, orders := c.group, map[g.range.value := ids];
      ReorderingKeepsSizes(c, orders);
      assert GroupOk(h);
      if h.range == g.range {
        assert h in GroupsOf(c);
        UneditedRecords(PickAll(h.children, ids));
      } else {
        EditedIsRearranged(h.children, g, ids);
      }
    }
  }

  // --------------------------------------------------------------------------
  // Main result
  // --------------------------------------------------------------------------

  /** A registered order marks the top-level group around it. */
  lemma {:induction false} OrderIsMarked(s: Bytes, p: nat, gs: seq<Group>, e: Edits)
    requires AllStandAt(s, p, AsChildren(gs)) && AnyOrder(AsChildren(gs), e.orders)
    ensures AllMarks(gs, e) != {}
    decreases |gs|
  {
    hide StandsAt, AllStandAt, HasOrder, PatchMarks, OrderMarksIn, ChildBytes;
    var cs := AsChildren(gs);
    StandingList(s, p, cs);
    assert cs[1..] == AsChildren(gs[1..]);
    if HasOrder(cs[0], e.orders) {
      StandingGroup(s, p, gs[0]);
      assert gs[0].range.value in OrderMarks(cs[0], e.orders, false);
    } else {
      OrderIsMarked(s, p + |ChildBytes(cs[0])|, gs[1..], e);
    }
  }

  /** One group of a parsed plugin and an order its records were accepted in. */
  ghost predicate AcceptedOrder(plugin: Plugin, g: Group, ids: seq<FormId>) {
    g in GroupsIn(AsChildren(plugin.groups)) && g.range.Some? && OrderFits(g.children, ids)
  }

  lemma OneOrderFits(env: Env, plugin: Plugin, g: Group, ids: seq<FormId>)
    requires Parsed(env, plugin) && AcceptedOrder(plugin, g, ids)
    ensures var e := Edits(map[], map[g.range.value := ids]);
            AllOrdersFit(AsChildren(plugin.groups), e.orders) && Workable(plugin, e) && AllMarks(plugin.groups, e) != {}
            && OnlyOne(GroupsIn(AsChildren(plugin.groups)), g)
  {
    hide Parsed, AllOrdersFit, GroupsIn, Tiles, SizesFit, TopReached, AllStandAt, AllMarks, RangesIn, RecordBytes, ChildrenBytes,
         OrderFits;
    var cs, end, e := AsChildren(plugin.groups), |plugin.source|, Edits(map[], map[g.range.value := ids]);
    PluginRanges(env, plugin);
    NoOrdersFit(cs);
    OrdersStayFit(cs, plugin.headerRange.end, end, map[], g, ids);
    assert map[][g.range.value := ids] == e.orders;
    assert e.orders.Keys == {g.range.value};
    AtMostOneOrderReached(env, plugin, e);
    OrdersWorkable(env, plugin, e.orders);
    ParsedStands(env, plugin);
    GroupsHaveRanges(cs, plugin.headerRange.end, end, g);
    OrderInList(cs, e.orders);
    OrderIsMarked(plugin.source, plugin.headerRange.end, plugin.groups, e);
    forall h | h in GroupsIn(cs) && h.range == g.range
      ensures h == g
    {
      RangeIdentifiesGroup(cs, plugin.headerRange.end, end, g, h);
    }
  }

  /**
   With one accepted order and no patches, the output parses as the old plugin
   in which that group, and no other, has its records in the requested order:
   the same records byte for byte, and every group header as it was. Only the
   counters of the plugin header and the captured ranges differ.
   */
  lemma OneOrderOutput(env: Env, plugin: Plugin, g: Group, ids: seq<FormId>)
    requires Parsed(env, plugin) && AcceptedOrder(plugin, g, ids)
    requires UpdatedHeaderOf(env, plugin, NO_PATCH).Ok?
    ensures var cs, e := AsChildren(plugin.groups), Edits(map[], map[g.range.value := ids]);
            var header, out := UpdatedHeaderOf(env, plugin, NO_PATCH).value, WholeOut(env, plugin, e, None);
            var tree := RearrangedIn(cs, g.range.value, InOrder(g, ids));
            && Permutes(InOrder(g, ids), g, ids)
            && out == Ok(header + ChildrenBytes(tree)) && |ChildrenBytes(tree)| == |ChildrenBytes(cs)|
            && PluginOf(env, plugin.game, out.value).Ok?
            && AsChildren(PluginOf(env, plugin.game, out.value).value.groups) == LocateChildren(tree, |header|)
  {
    hide Parsed, AllOrdersFit, GroupsIn, SizesFit, TopReached, AllStandAt, AllMarks, ChildrenOut, ChildrenBytes, ChildrenOk,
         EditedChildren, LocateChildren, RearrangedIn, InOrder, UpdatedHeaderOf, UpdatedRecord, UpdatedHeader, PluginOf, TopGroupsAt,
         OrderFits, ExactPatches, Workable, RecordBytes, Permutes;
    var cs, e := AsChildren(plugin.groups), Edits(map[], map[g.range.value := ids]);
    var header := UpdatedHeaderOf(env, plugin, NO_PATCH).value;
    OneOrderFits(env, plugin, g, ids);
    OrderPermutes(g, ids);
    ParsedStands(env, plugin);
    StandingHolds(plugin.source, plugin.headerRange.end, cs);
    EditedIsRearranged(cs, g, ids);
    ReorderingKeepsAllSizes(cs, e.orders);
    GroupsReparse(env, plugin, e, header);
    OutputReparses(env, plugin, e, None);
    EditedGroupsStayGroups(plugin.groups, e, |header|);
  }
}
