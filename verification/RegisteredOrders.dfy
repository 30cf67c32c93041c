/**
 The byte ranges of a parsed plugin as keys: a range identifies one group, so
 registering an order for one group leaves every other group's order alone.
 */
module RegisteredOrders {
  import opened Wire
  import opened Records
  import opened Groups
  import opened Games
  import opened Plugins
  import opened Ranges
  import opened Edits
  import opened HeaderTheorem

  /** The top-level groups tile the file behind the header; no two groups of the plugin share a range. */
  lemma PluginRanges(env: Env, plugin: Plugin)
    requires Parsed(env, plugin)
    ensures var cs := AsChildren(plugin.groups);
            Tiles(cs, plugin.headerRange.end, |plugin.source|)
            && forall i, j :: 0 <= i < j < |GroupsIn(cs)| ==>
                 Apart(GroupsIn(cs)[i], GroupsIn(cs)[j]) && GroupsIn(cs)[i].range != GroupsIn(cs)[j].range
  {
    hide Parsed, AllStandAt, ChildrenBytes, Tiles, GroupsIn, RecordBytes;
    var cs, p := AsChildren(plugin.groups), plugin.headerRange.end;
    ParsedHeaderRecord(env, plugin);
    ParsedStands(env, plugin);
    StandingTiles(plugin.source, p, cs);
    TilesWithin(cs, p, p + |ChildrenBytes(cs)|);
  }

  /** Every group of a tiling tree has a range, and that range is among the ranges of the tree. */
  lemma {:induction false} GroupsHaveRanges(cs: seq<Child>, start: nat, end: nat, g: Group)
    requires Tiles(cs, start, end) && g in GroupsIn(cs)
    ensures g.range.Some? && g.range.value in RangesIn(cs)
    decreases cs, 0
  {
    hide GroupsOf, RangesOf, TilesInside;
    var c, r := cs[0], RangeOf(cs[0]).value;
    if g in GroupsOf(c) {
      ChildHasRange(c, r, g);
    } else {
      GroupsHaveRanges(cs[1..], r.end, end, g);
    }
  }

  lemma {:induction false} ChildHasRange(c: Child, r: Range, g: Group)
    requires RangeOf(c) == Some(r) && TilesInside(c, r) && g in GroupsOf(c)
    ensures g.range.Some? && g.range.value in RangesOf(c)
    decreases c, 0
  {
    if g != c.group {
      GroupsHaveRanges(c.group.children, r.start + 24, r.end, g);
    }
  }

  /** Two groups of a tiling tree with one range are one group. */
  lemma RangeIdentifiesGroup(cs: seq<Child>, start: nat, end: nat, g: Group, h: Group)
    requires Tiles(cs, start, end) && g in GroupsIn(cs) && h in GroupsIn(cs) && g.range == h.range
    ensures g == h
  {
    hide Tiles, GroupsIn;
    TilesWithin(cs, start, end);
    var i :| 0 <= i < |GroupsIn(cs)| && GroupsIn(cs)[i] == g;
    var j :| 0 <= j < |GroupsIn(cs)| && GroupsIn(cs)[j] == h;
  }

  // --------------------------------------------------------------------------
  // Registering one more order
  // --------------------------------------------------------------------------

  lemma {:induction false} NoOrdersFit(cs: seq<Child>)
    ensures AllOrdersFit(cs, map[])
    decreases cs, 0
  {
    if cs != [] {
      NoOrdersFitChild(cs[0]);
      NoOrdersFit(cs[1..]);
    }
  }

  lemma {:induction false} NoOrdersFitChild(c: Child)
    ensures OrdersFit(c, map[])
    decreases c, 0
  {
    if c.GroupChild? {
      NoOrdersFit(c.group.children);
    }
  }

  /** An order for a range that a subtree does not have changes nothing about the subtree. */
  lemma {:induction false} OrderElsewhere(cs: seq<Child>, orders: map<Range, seq<FormId>>, r: Range, ids: seq<FormId>)
    requires r !in RangesIn(cs)
    ensures AllOrdersFit(cs, orders[r := ids]) <==> AllOrdersFit(cs, orders)
    decreases cs, 0
  {
    hide OrdersFit, RangesOf;
    if cs != [] {
      OrderElsewhereIn(cs[0], orders, r, ids);
      OrderElsewhere(cs[1..], orders, r, ids);
    }
  }

  lemma {:induction false} OrderElsewhereIn(c: Child, orders: map<Range, seq<FormId>>, r: Range, ids: seq<FormId>)
    requires r !in RangesOf(c)
    ensures OrdersFit(c, orders[r := ids]) <==> OrdersFit(c, orders)
    decreases c, 0
  {
    hide OrderFits;
    if c.GroupChild? {
      OrderElsewhere(c.group.children, orders, r, ids);
    }
  }

  /** A fitting order for a group of the tree joins the fitting orders there are. */
  lemma {:induction false} OrdersStayFit(cs: seq<Child>, start: nat, end: nat, orders: map<Range, seq<FormId>>,
                                         g: Group, ids: seq<FormId>)
    requires Tiles(cs, start, end) && g in GroupsIn(cs) && g.range.Some?
    requires AllOrdersFit(cs, orders) && OrderFits(g.children, ids)
    ensures AllOrdersFit(cs, orders[g.range.value := ids])
    decreases cs, 0
  {
    hide GroupsOf, RangesOf, TilesInside, OrdersFit, OrderFits;
    var c, rest, r := cs[0], cs[1..], RangeOf(cs[0]).value;
    ChildRangesInside(c, r);
    RangesInside(rest, r.end, end);
    if g in GroupsOf(c) {
      ChildHasRange(c, r, g);
      OrdersStayFitIn(c, r, orders, g, ids);
      OrderElsewhere(rest, orders, g.range.value, ids);
    } else {
      GroupsHaveRanges(rest, r.end, end, g);
      OrderElsewhereIn(c, orders, g.range.value, ids);
      OrdersStayFit(rest, r.end, end, orders, g, ids);
    }
  }

  lemma {:induction false} OrdersStayFitIn(c: Child, r: Range, orders: map<Range, seq<FormId>>, g: Group, ids: seq<FormId>)
    requires RangeOf(c) == Some(r) && r.start + 24 <= r.end && TilesInside(c, r) && g in GroupsOf(c) && g.range.Some?
    requires OrdersFit(c, orders) && OrderFits(g.children, ids)
    ensures OrdersFit(c, orders[g.range.value := ids])
    decreases c, 0
  {
    hide OrderFits, RangesIn;
    var cs := c.group.children;
    RangesInside(cs, r.start + 24, r.end);
    if g == c.group {
      OrderElsewhere(cs, orders, r, ids);
    } else {
      GroupsHaveRanges(cs, r.start + 24, r.end, g);
      OrdersStayFit(cs, r.start + 24, r.end, orders, g, ids);
    }
  }
}
