/** The byte ranges a parse captures: tiling, nesting and distinctness. */
module Ranges {
  import opened Wire
  import opened Groups

  function RangeOf(c: Child): Option<Range> {
    match c
    case RecordChild(r) => r.range
    case GroupChild(g) => g.range
  }

  /** Children lie end to end from `start` to `end`, inside groups too. */
  ghost predicate Tiles(cs: seq<Child>, start: nat, end: nat)
    decreases cs, 0
  {
    if cs == [] then start == end
    else
      && RangeOf(cs[0]).Some?
      && var r := RangeOf(cs[0]).value;
      && r.start == start && start + 24 <= r.end
      && TilesInside(cs[0], r)
      && Tiles(cs[1..], r.end, end)
  }

  ghost predicate TilesInside(c: Child, r: Range)
    decreases c, 0
  {
    c.GroupChild? ==> c.group.header.groupSize == r.end - r.start && Tiles(c.group.children, r.start + 24, r.end)
  }

  /** All groups of a list, every group before the groups inside it. */
  ghost function GroupsIn(cs: seq<Child>): seq<Group>
    decreases cs, 0
  {
    if cs == [] then [] else GroupsOf(cs[0]) + GroupsIn(cs[1..])
  }

  ghost function GroupsOf(c: Child): seq<Group>
    decreases c, 0
  {
    match c
    case RecordChild(_) => []
    case GroupChild(g) => [g] + GroupsIn(g.children)
  }

  /** A standing tree tiles the bytes it occupies. */
  lemma {:induction false} StandingTiles(s: Bytes, p: nat, cs: seq<Child>)
    requires AllStandAt(s, p, cs)
    ensures Tiles(cs, p, p + |ChildrenBytes(cs)|)
    decreases cs
  {
    hide ChildBytes, StandsAt, AllStandAt;
    if cs != [] {
      StandingList(s, p, cs);
      StandingInside(s, p, cs[0]);
      StandingTiles(s, p + |ChildBytes(cs[0])|, cs[1..]);
    } else {
      NothingStands([], 0);
    }
  }

  lemma {:induction false} StandingInside(s: Bytes, p: nat, c: Child)
    requires StandsAt(s, p, c)
    ensures RangeOf(c) == Some(Range(p, p + |ChildBytes(c)|))
    ensures TilesInside(c, Range(p, p + |ChildBytes(c)|))
    decreases c
  {
    if c.GroupChild? {
      StandingGroup(s, p, c.group);
      StandingTiles(s, p + 24, c.group.children);
    }
  }

  /** Groups that start at `start` or later, before `end`, at least a header long. */
  ghost predicate Within(g: Group, start: nat, end: nat) {
    g.range.Some? && start <= g.range.value.start && g.range.value.start + 24 <= g.range.value.end <= end
  }

  /** Of two groups in document order, the later lies inside the earlier or behind it. */
  ghost predicate Apart(earlier: Group, later: Group) {
    && earlier.range.Some? && later.range.Some?
    && var a, b := earlier.range.value, later.range.value;
       (a.start + 24 <= b.start && b.end <= a.end) || a.end <= b.start
  }

  lemma {:induction false} TilesWithin(cs: seq<Child>, start: nat, end: nat)
    requires Tiles(cs, start, end)
    ensures start <= end
    ensures forall i :: 0 <= i < |GroupsIn(cs)| ==> Within(GroupsIn(cs)[i], start, end)
    ensures forall i, j :: 0 <= i < j < |GroupsIn(cs)| ==> Apart(GroupsIn(cs)[i], GroupsIn(cs)[j])
    decreases cs, 0
  {
    if cs != [] {
      var r := RangeOf(cs[0]).value;
      TilesWithin(cs[1..], r.end, end);
      ChildWithin(cs[0], r);
      var a, b := GroupsOf(cs[0]), GroupsIn(cs[1..]);
      assert GroupsIn(cs) == a + b;
    }
  }

  lemma {:induction false} ChildWithin(c: Child, r: Range)
    requires RangeOf(c) == Some(r) && r.start + 24 <= r.end && TilesInside(c, r)
    ensures forall i :: 0 <= i < |GroupsOf(c)| ==> Within(GroupsOf(c)[i], r.start, r.end)
    ensures forall i, j :: 0 <= i < j < |GroupsOf(c)| ==> Apart(GroupsOf(c)[i], GroupsOf(c)[j])
    decreases c, 0
  {
    if c.GroupChild? {
      TilesWithin(c.group.children, r.start + 24, r.end);
    }
  }

  /**
   What a successful group parse yields: it consumes exactly its declared size,
   its children tile the bytes behind the header, and the ranges of any two
   groups are nested or disjoint and never equal.
   */
  lemma ParsedRanges(s: Bytes, p: nat, end: nat, cs: seq<Child>)
    requires p <= |s| && ChildrenAt(s, p, end) == Ok((cs, end))
    ensures Tiles(cs, p, end)
    ensures forall i, j :: 0 <= i < j < |GroupsIn(cs)| ==>
              Apart(GroupsIn(cs)[i], GroupsIn(cs)[j]) && GroupsIn(cs)[i].range != GroupsIn(cs)[j].range
  {
    hide AllStandAt, ChildrenAt, Tiles, GroupsIn;
    ChildrenInverse(s, p, cs, end);
    StandingTiles(s, p, cs);
    TilesWithin(cs, p, end);
  }

  // --------------------------------------------------------------------------
  // Ranges as a set
  // --------------------------------------------------------------------------

  ghost function RangesOf(c: Child): set<Range>
    decreases c, 0
  {
    match c
    case RecordChild(_) => {}
    case GroupChild(g) => (if g.range.Some? then {g.range.value} else {}) + RangesIn(g.children)
  }

  ghost function RangesIn(cs: seq<Child>): set<Range>
    decreases cs, 0
  {
    if cs == [] then {} else RangesOf(cs[0]) + RangesIn(cs[1..])
  }

  ghost predicate Inside(r: Range, start: nat, end: nat) {
    start <= r.start && r.start + 24 <= r.end <= end
  }

  lemma {:induction false} RangesInside(cs: seq<Child>, start: nat, end: nat)
    requires Tiles(cs, start, end)
    ensures start <= end && forall r :: r in RangesIn(cs) ==> Inside(r, start, end)
    decreases cs, 0
  {
    if cs != [] {
      var r := RangeOf(cs[0]).value;
      RangesInside(cs[1..], r.end, end);
      ChildRangesInside(cs[0], r);
    }
  }

  lemma {:induction false} ChildRangesInside(c: Child, r: Range)
    requires RangeOf(c) == Some(r) && r.start + 24 <= r.end && TilesInside(c, r)
    ensures forall q :: q in RangesOf(c) ==> Inside(q, r.start, r.end)
    decreases c, 0
  {
    if c.GroupChild? {
      RangesInside(c.group.children, r.start + 24, r.end);
    }
  }
}
