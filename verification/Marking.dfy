/**
 Which groups the patcher marks before writing, and when the marks reach every
 registered order. The search for reordered groups stops at the first reordered
 sibling, so later siblings stay unmarked.
 */
module Marking {
  import opened Wire
  import opened Records
  import opened Groups
  import opened Ranges
  import opened Edits
  import opened FastPath

  ghost function OwnRange(g: Group): set<Range> {
    if g.range.Some? then {g.range.value} else {}
  }

  /** The ranges of all groups with a patched record inside. */
  ghost function PatchMarks(c: Child, patches: map<FormId, Bytes>): set<Range>
    decreases c, 0
  {
    match c
    case RecordChild(_) => {}
    case GroupChild(g) => (if HasPatched(c, patches) then OwnRange(g) else {}) + PatchMarksIn(g.children, patches)
  }

  ghost function PatchMarksIn(cs: seq<Child>, patches: map<FormId, Bytes>): set<Range>
    decreases cs, 0
  {
    if cs == [] then {} else PatchMarks(cs[0], patches) + PatchMarksIn(cs[1..], patches)
  }

  /**
   The ranges the search for reordered groups inserts. `skipped` says that the
   search has already stopped at an earlier sibling, here or further up.
   */
  ghost function OrderMarks(c: Child, orders: map<Range, seq<FormId>>, skipped: bool): set<Range>
    decreases c, 0
  {
    match c
    case RecordChild(_) => {}
    case GroupChild(g) =>
      (if HasOrder(c, orders) && !skipped then OwnRange(g) else {}) + OrderMarksIn(g.children, orders, skipped)
  }

  ghost function OrderMarksIn(cs: seq<Child>, orders: map<Range, seq<FormId>>, skipped: bool): set<Range>
    decreases cs, 0
  {
    if cs == [] then {}
    else OrderMarks(cs[0], orders, skipped) + OrderMarksIn(cs[1..], orders, skipped || HasOrder(cs[0], orders))
  }

  /**
   Every order that changes something is registered for a group the search
   reaches, or for one that also holds a patched record.
   */
  ghost predicate Reached(c: Child, e: Edits, skipped: bool)
    decreases c, 0
  {
    match c
    case RecordChild(_) => true
    case GroupChild(g) =>
      (Changes(g, e.orders) && skipped ==> AnyPatched(g.children, e.patches)) && AllReached(g.children, e, skipped)
  }

  ghost predicate AllReached(cs: seq<Child>, e: Edits, skipped: bool)
    decreases cs, 0
  {
    cs == [] || (Reached(cs[0], e, skipped) && AllReached(cs[1..], e, skipped || HasOrder(cs[0], e.orders)))
  }

  // --------------------------------------------------------------------------
  // Marks are ranges of the tree
  // --------------------------------------------------------------------------

  lemma MarksInTree(c: Child, e: Edits, skipped: bool)
    ensures PatchMarks(c, e.patches) <= RangesOf(c) && OrderMarks(c, e.orders, skipped) <= RangesOf(c)
    decreases c, 0
  {
    if c.GroupChild? {
      MarksInList(c.group.children, e, skipped);
    }
  }

  lemma MarksInList(cs: seq<Child>, e: Edits, skipped: bool)
    ensures PatchMarksIn(cs, e.patches) <= RangesIn(cs) && OrderMarksIn(cs, e.orders, skipped) <= RangesIn(cs)
    decreases cs, 0
  {
    if cs != [] {
      MarksInTree(cs[0], e, skipped);
      MarksInList(cs[1..], e, skipped || HasOrder(cs[0], e.orders));
    }
  }

  // --------------------------------------------------------------------------
  // Marks cover patches
  // --------------------------------------------------------------------------

  /** Any superset of the patch marks covers all patches. */
  lemma {:induction false} PatchMarksCover(p: nat, cs: seq<Child>, s: Bytes, patches: map<FormId, Bytes>, touched: set<Range>)
    requires AllStandAt(s, p, cs) && PatchMarksIn(cs, patches) <= touched
    ensures AllCovered(cs, Edits(patches, map[]), touched)
    decreases cs
  {
    hide ChildBytes, StandsAt, AllStandAt, PatchMarks, Covered;
    if cs != [] {
      StandingList(s, p, cs);
      PatchMarksCoverChild(p, cs[0], s, patches, touched);
      PatchMarksCover(p + |ChildBytes(cs[0])|, cs[1..], s, patches, touched);
    }
  }

  lemma {:induction false} PatchMarksCoverChild(p: nat, c: Child, s: Bytes, patches: map<FormId, Bytes>, touched: set<Range>)
    requires StandsAt(s, p, c) && PatchMarks(c, patches) <= touched
    ensures Covered(c, Edits(patches, map[]), touched)
    decreases c
  {
    hide StandsAt;
    if c.GroupChild? {
      StandingGroup(s, p, c.group);
      NoOrdersNoChange(c);
      PatchMarksCover(p + 24, c.group.children, s, patches, touched);
    }
  }

  lemma NoOrdersNoChange(c: Child)
    ensures !HasChange(c, map[])
    decreases c, 0
  {
    if c.GroupChild? {
      NoOrdersNoChangeIn(c.group.children);
    }
  }

  lemma NoOrdersNoChangeIn(cs: seq<Child>)
    ensures !AnyChange(cs, map[])
    decreases cs, 0
  {
    if cs != [] {
      NoOrdersNoChange(cs[0]);
      NoOrdersNoChangeIn(cs[1..]);
    }
  }

  // --------------------------------------------------------------------------
  // Marks cover exactly the reached orders
  // --------------------------------------------------------------------------

  lemma ChangeIsOrder(c: Child, orders: map<Range, seq<FormId>>)
    requires HasChange(c, orders)
    ensures HasOrder(c, orders)
    decreases c, 0
  {
    if !Changes(c.group, orders) {
      ChangeIsOrderIn(c.group.children, orders);
    }
  }

  lemma ChangeIsOrderIn(cs: seq<Child>, orders: map<Range, seq<FormId>>)
    requires AnyChange(cs, orders)
    ensures AnyOrder(cs, orders)
    decreases cs, 0
  {
    if HasChange(cs[0], orders) {
      ChangeIsOrder(cs[0], orders);
    } else {
      ChangeIsOrderIn(cs[1..], orders);
    }
  }

  /** Behind the point where the search stopped, only patches get a change marked. */
  lemma SkippedChange(c: Child, e: Edits)
    requires Reached(c, e, true) && HasChange(c, e.orders)
    ensures HasPatched(c, e.patches)
    decreases c, 0
  {
    if !Changes(c.group, e.orders) {
      SkippedChangeIn(c.group.children, e);
    }
  }

  lemma SkippedChangeIn(cs: seq<Child>, e: Edits)
    requires AllReached(cs, e, true) && AnyChange(cs, e.orders)
    ensures AnyPatched(cs, e.patches)
    decreases cs, 0
  {
    if HasChange(cs[0], e.orders) {
      SkippedChange(cs[0], e);
    } else {
      SkippedChangeIn(cs[1..], e);
    }
  }

  ghost predicate SameWithin(touched: set<Range>, marks: set<Range>, within: set<Range>) {
    touched * within == marks * within
  }

  /** The marks cover every change exactly when the search reaches every order. */
  lemma {:induction false} CoveredIffReached(cs: seq<Child>, start: nat, end: nat, e: Edits, touched: set<Range>, skipped: bool)
    requires Tiles(cs, start, end)
    requires SameWithin(touched, PatchMarksIn(cs, e.patches) + OrderMarksIn(cs, e.orders, skipped), RangesIn(cs))
    ensures AllCovered(cs, e, touched) <==> AllReached(cs, e, skipped)
    decreases cs, 0
  {
    hide HasOrder, HasPatched, PatchMarks, OrderMarks, RangesOf, TilesInside, Covered, Reached;
    if cs != [] {
      var c, rest, r := cs[0], cs[1..], RangeOf(cs[0]).value;
      var later := skipped || HasOrder(c, e.orders);
      MarksInTree(c, e, skipped);
      MarksInList(rest, e, later);
      ChildRangesInside(c, r);
      RangesInside(rest, r.end, end);
      assert RangesOf(c) !! RangesIn(rest);
      SplitMarks(touched, PatchMarks(c, e.patches) + OrderMarks(c, e.orders, skipped), RangesOf(c),
                 PatchMarksIn(rest, e.patches) + OrderMarksIn(rest, e.orders, later), RangesIn(rest));
      assert PatchMarksIn(cs, e.patches) + OrderMarksIn(cs, e.orders, skipped)
          == PatchMarks(c, e.patches) + OrderMarks(c, e.orders, skipped)
             + (PatchMarksIn(rest, e.patches) + OrderMarksIn(rest, e.orders, later));
      CoveredIffReachedChild(c, r, e, touched, skipped);
      CoveredIffReached(rest, r.end, end, e, touched, later);
    }
  }

  lemma SplitMarks(touched: set<Range>, a: set<Range>, inA: set<Range>, b: set<Range>, inB: set<Range>)
    requires a <= inA && b <= inB && inA !! inB
    ensures SameWithin(touched, a + b, inA + inB) ==> SameWithin(touched, a, inA) && SameWithin(touched, b, inB)
  {
    if SameWithin(touched, a + b, inA + inB) {
      forall x | x in inA
        ensures x in touched <==> x in a
      {
        assert x in touched * (inA + inB) <==> x in (a + b) * (inA + inB);
      }
      forall x | x in inB
        ensures x in touched <==> x in b
      {
        assert x in touched * (inA + inB) <==> x in (a + b) * (inA + inB);
      }
    }
  }

  lemma {:induction false} CoveredIffReachedChild(c: Child, r: Range, e: Edits, touched: set<Range>, skipped: bool)
    requires RangeOf(c) == Some(r) && r.start + 24 <= r.end && TilesInside(c, r)
    requires SameWithin(touched, PatchMarks(c, e.patches) + OrderMarks(c, e.orders, skipped), RangesOf(c))
    ensures Covered(c, e, touched) <==> Reached(c, e, skipped)
    decreases c, 0
  {
    if c.GroupChild? {
      hide HasPatched, HasOrder, HasChange, PatchMarksIn, OrderMarksIn, RangesIn, AllCovered, AllReached, Changes;
      var g := c.group;
      var ownMarks := (if HasPatched(c, e.patches) || (HasOrder(c, e.orders) && !skipped) then {r} else {});
      MarksInList(g.children, e, skipped);
      RangesInside(g.children, r.start + 24, r.end);
      assert {r} !! RangesIn(g.children);
      var below := PatchMarksIn(g.children, e.patches) + OrderMarksIn(g.children, e.orders, skipped);
      assert PatchMarks(c, e.patches) + OrderMarks(c, e.orders, skipped) == ownMarks + below;
      assert RangesOf(c) == {r} + RangesIn(g.children);
      SplitMarks(touched, ownMarks, {r}, below, RangesIn(g.children));
      assert r in touched <==> r in touched * {r};
      assert r in touched <==> HasPatched(c, e.patches) || (HasOrder(c, e.orders) && !skipped);
      CoveredIffReached(g.children, r.start + 24, r.end, e, touched, skipped);
      if HasChange(c, e.orders) {
        ChangeIsOrder(c, e.orders);
        if skipped && Reached(c, e, skipped) {
          SkippedChange(c, e);
        }
      }
      ChangesHere(c, e);
    }
  }

  lemma ChangesHere(c: Child, e: Edits)
    requires c.GroupChild?
    ensures Changes(c.group, e.orders) ==> HasChange(c, e.orders)
    ensures HasPatched(c, e.patches) <==> AnyPatched(c.group.children, e.patches)
  {
  }

  // --------------------------------------------------------------------------
  // A single order is always reached
  // --------------------------------------------------------------------------

  lemma OrderInTree(c: Child, orders: map<Range, seq<FormId>>)
    ensures HasOrder(c, orders) <==> exists r :: r in RangesOf(c) && r in orders
    decreases c, 0
  {
    if c.GroupChild? {
      OrderInList(c.group.children, orders);
      if IsOrdered(c.group, orders) {
        assert c.group.range.value in RangesOf(c);
      }
    }
  }

  lemma OrderInList(cs: seq<Child>, orders: map<Range, seq<FormId>>)
    ensures AnyOrder(cs, orders) <==> exists r :: r in RangesIn(cs) && r in orders
    decreases cs, 0
  {
    if cs != [] {
      OrderInTree(cs[0], orders);
      OrderInList(cs[1..], orders);
      assert RangesIn(cs) == RangesOf(cs[0]) + RangesIn(cs[1..]);
    }
  }

  /** Whatever lies behind the stopping point holds no order at all. */
  lemma {:induction false} SingleOrderReached(cs: seq<Child>, start: nat, end: nat, e: Edits, skipped: bool)
    requires Tiles(cs, start, end) && |e.orders.Keys| == 1
    requires skipped ==> !AnyOrder(cs, e.orders)
    ensures AllReached(cs, e, skipped)
    decreases cs, 0
  {
    hide RangesOf, TilesInside, HasOrder, Reached;
    if cs != [] {
      var c, r := cs[0], RangeOf(cs[0]).value;
      SingleOrderReachedChild(c, r, e, skipped);
      if HasOrder(c, e.orders) {
        OrderInTree(c, e.orders);
        OrderInList(cs[1..], e.orders);
        ChildRangesInside(c, r);
        RangesInside(cs[1..], r.end, end);
        SingleKey(e.orders.Keys);
      }
      SingleOrderReached(cs[1..], r.end, end, e, skipped || HasOrder(c, e.orders));
    }
  }

  lemma {:induction false} SingleOrderReachedChild(c: Child, r: Range, e: Edits, skipped: bool)
    requires RangeOf(c) == Some(r) && r.start + 24 <= r.end && TilesInside(c, r)
    requires |e.orders.Keys| == 1 && (skipped ==> !HasOrder(c, e.orders))
    ensures Reached(c, e, skipped)
    decreases c, 0
  {
    if c.GroupChild? {
      SingleOrderReached(c.group.children, r.start + 24, r.end, e, skipped);
    }
  }

  lemma SingleKey(keys: set<Range>)
    requires |keys| == 1
    ensures forall a, b :: a in keys && b in keys ==> a == b
  {
    forall a, b | a in keys && b in keys
      ensures a == b
    {
      if a != b {
        assert {a, b} <= keys;
        SubsetSize({a, b}, keys);
      }
    }
  }

  lemma SubsetSize(a: set<Range>, b: set<Range>)
    requires a <= b
    ensures |a| <= |b|
  {
    assert b == a + (b - a);
  }
}
