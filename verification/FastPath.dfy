/**
 The verbatim fast path: which groups the patcher marks, and exactly when
 copying the unmarked ones emits the same bytes as re-emitting everything.
 */
module FastPath {
  import opened Wire
  import opened Records
  import opened Groups
  import opened Edits

  // --------------------------------------------------------------------------
  // What an edit reaches
  // --------------------------------------------------------------------------

  /** The subtree contains a patched record. */
  predicate HasPatched(c: Child, patches: map<FormId, Bytes>)
    decreases c, 0
  {
    match c
    case RecordChild(r) => r.header.formId in patches
    case GroupChild(g) => AnyPatched(g.children, patches)
  }

  predicate AnyPatched(cs: seq<Child>, patches: map<FormId, Bytes>)
    decreases cs, 0
  {
    cs != [] && (HasPatched(cs[0], patches) || AnyPatched(cs[1..], patches))
  }

  /** The subtree contains a group with a registered order. */
  predicate HasOrder(c: Child, orders: map<Range, seq<FormId>>)
    decreases c, 0
  {
    match c
    case RecordChild(_) => false
    case GroupChild(g) => IsOrdered(g, orders) || AnyOrder(g.children, orders)
  }

  predicate AnyOrder(cs: seq<Child>, orders: map<Range, seq<FormId>>)
    decreases cs, 0
  {
    cs != [] && (HasOrder(cs[0], orders) || AnyOrder(cs[1..], orders))
  }

  /** The group's registered order differs from the order its records have. */
  predicate Changes(g: Group, orders: map<Range, seq<FormId>>) {
    IsOrdered(g, orders) && !(AllRecords(g.children) && orders[g.range.value] == DirectIds(g.children))
  }

  predicate HasChange(c: Child, orders: map<Range, seq<FormId>>)
    decreases c, 0
  {
    match c
    case RecordChild(_) => false
    case GroupChild(g) => Changes(g, orders) || AnyChange(g.children, orders)
  }

  predicate AnyChange(cs: seq<Child>, orders: map<Range, seq<FormId>>)
    decreases cs, 0
  {
    cs != [] && (HasChange(cs[0], orders) || AnyChange(cs[1..], orders))
  }

  /** Every group of the subtree whose bytes an edit changes is in `touched`. */
  ghost predicate Covered(c: Child, e: Edits, touched: set<Range>)
    decreases c, 0
  {
    match c
    case RecordChild(_) => true
    case GroupChild(g) =>
      (HasPatched(c, e.patches) || HasChange(c, e.orders) ==> g.range.Some? && g.range.value in touched)
      && AllCovered(g.children, e, touched)
  }

  ghost predicate AllCovered(cs: seq<Child>, e: Edits, touched: set<Range>)
    decreases cs, 0
  {
    cs == [] || (Covered(cs[0], e, touched) && AllCovered(cs[1..], e, touched))
  }

  // --------------------------------------------------------------------------
  // Reordering permutes
  // --------------------------------------------------------------------------

  lemma {:induction false} ChildrenBytesConcat(a: seq<Child>, b: seq<Child>)
    ensures ChildrenBytes(a + b) == ChildrenBytes(a) + ChildrenBytes(b)
    decreases |a|
  {
    hide ChildBytes;
    if a == [] {
      assert a + b == b;
    } else {
      var all := a + b;
      assert all[0] == a[0] && all[1..] == a[1..] + b;
      ChildrenBytesConcat(a[1..], b);
      Assoc(ChildBytes(a[0]), ChildrenBytes(a[1..]), ChildrenBytes(b));
    }
  }

  lemma ChildrenBytesOne(c: Child)
    ensures ChildrenBytes([c]) == ChildBytes(c)
  {
    assert ChildrenBytes([c]) == ChildBytes(c) + ChildrenBytes([]);
  }

  function AsRecords(rs: seq<Record>): (cs: seq<Child>)
    ensures |cs| == |rs|
    ensures forall i :: 0 <= i < |rs| ==> cs[i] == RecordChild(rs[i])
  {
    seq(|rs|, i requires 0 <= i < |rs| => RecordChild(rs[i]))
  }

  /** The picked records are the direct children, in the requested order. */
  lemma {:induction false} PickedOrder(cs: seq<Child>, ids: seq<FormId>)
    requires AllRecords(cs) && Distinct(DirectIds(cs))
    requires forall i :: 0 <= i < |ids| ==> ids[i] in DirectIds(cs)
    ensures |PickAll(cs, ids)| == |ids|
    ensures forall i :: 0 <= i < |ids| ==>
              PickAll(cs, ids)[i].header.formId == ids[i] && RecordChild(PickAll(cs, ids)[i]) in cs
              && PickRecord(cs, ids[i]) == Some(PickAll(cs, ids)[i])
    decreases |ids|
  {
    hide PickRecord;
    if ids != [] {
      assert ids[0] in DirectIds(cs);
      var k :| 0 <= k < |cs| && DirectIds(cs)[k] == ids[0];
      PickFinds(cs, k);
      forall i | 0 <= i < |ids[1..]|
        ensures ids[1..][i] in DirectIds(cs)
      {
        assert ids[1..][i] == ids[i + 1];
      }
      PickedOrder(cs, ids[1..]);
      assert PickAll(cs, ids) == [cs[k].record] + PickAll(cs, ids[1..]);
    }
  }

  function Without(cs: seq<Child>, k: nat): seq<Child>
    requires k < |cs|
  {
    cs[..k] + cs[k + 1..]
  }

  /** Dropping one record leaves the picks of all other FormIDs alone. */
  lemma {:induction false} PickAllWithout(cs: seq<Child>, k: nat, ids: seq<FormId>)
    requires AllRecords(cs) && Distinct(DirectIds(cs)) && k < |cs|
    requires cs[k].record.header.formId !in ids
    requires forall i :: 0 <= i < |ids| ==> ids[i] in DirectIds(cs)
    ensures PickAll(Without(cs, k), ids) == PickAll(cs, ids)
    decreases |ids|
  {
    hide PickRecord;
    if ids != [] {
      var less := Without(cs, k);
      assert DirectIds(less) == DirectIds(cs)[..k] + DirectIds(cs)[k + 1..];
      assert ids[0] in DirectIds(cs) && ids[0] != cs[k].record.header.formId;
      var m :| 0 <= m < |cs| && DirectIds(cs)[m] == ids[0];
      PickFinds(cs, m);
      var n := if m < k then m else m - 1;
      assert less[n] == cs[m];
      PickFinds(less, n);
      forall i | 0 <= i < |ids[1..]|
        ensures ids[1..][i] in DirectIds(cs)
      {
        assert ids[1..][i] == ids[i + 1];
      }
      PickAllWithout(cs, k, ids[1..]);
    }
  }

  lemma WithoutSize(cs: seq<Child>, k: nat)
    requires k < |cs|
    ensures |ChildrenBytes(cs)| == |ChildBytes(cs[k])| + |ChildrenBytes(Without(cs, k))|
  {
    hide ChildBytes, ChildrenBytes;
    assert cs == cs[..k] + ([cs[k]] + cs[k + 1..]);
    ChildrenBytesConcat(cs[..k], [cs[k]] + cs[k + 1..]);
    ChildrenBytesConcat([cs[k]], cs[k + 1..]);
    ChildrenBytesConcat(cs[..k], cs[k + 1..]);
    ChildrenBytesOne(cs[k]);
  }

  lemma RemoveAt(ids: seq<FormId>, k: nat)
    requires k < |ids|
    ensures multiset(ids[..k] + ids[k + 1..]) == multiset(ids) - multiset{ids[k]}
    ensures Distinct(ids) ==> Distinct(ids[..k] + ids[k + 1..])
  {
    assert ids == ids[..k] + [ids[k]] + ids[k + 1..];
  }

  lemma WithoutFits(cs: seq<Child>, ids: seq<FormId>, k: nat)
    requires OrderFits(cs, ids) && ids != [] && k < |cs| && cs[k].record.header.formId == ids[0]
    ensures OrderFits(Without(cs, k), ids[1..])
  {
    hide Distinct;
    var direct := DirectIds(cs);
    RemoveAt(direct, k);
    RemoveAt(ids, 0);
    assert DirectIds(Without(cs, k)) == direct[..k] + direct[k + 1..];
    assert ids[..0] + ids[0 + 1..] == ids[1..];
  }

  /** Reordering conserves the total size. */
  lemma {:induction false} ReorderedSize(cs: seq<Child>, ids: seq<FormId>)
    requires OrderFits(cs, ids)
    ensures |ChildrenBytes(AsRecords(PickAll(cs, ids)))| == |ChildrenBytes(cs)|
    decreases |ids|
  {
    hide PickRecord, ChildBytes, Without;
    var direct := DirectIds(cs);
    if ids == [] {
      assert |multiset(direct)| == |multiset(ids)| == 0;
      assert |direct| == 0;
    } else {
      assert ids[0] in multiset(ids);
      assert ids[0] in multiset(direct);
      var k :| 0 <= k < |direct| && direct[k] == ids[0];
      PickFinds(cs, k);
      WithoutFits(cs, ids, k);
      RestIds(direct, ids);
      PickAllWithout(cs, k, ids[1..]);
      ReorderedSize(Without(cs, k), ids[1..]);
      WithoutSize(cs, k);
      var picks := AsRecords(PickAll(cs, ids));
      assert picks[0] == cs[k];
      assert picks[1..] == AsRecords(PickAll(cs, ids[1..]));
    }
  }

  lemma RestIds(direct: seq<FormId>, ids: seq<FormId>)
    requires Distinct(direct) && multiset(ids) == multiset(direct) && ids != []
    ensures ids[0] !in ids[1..]
    ensures forall i :: 0 <= i < |ids[1..]| ==> ids[1..][i] in direct
  {
    var rest := ids[1..];
    assert ids == [ids[0]] + rest;
    assert multiset(ids) == multiset{ids[0]} + multiset(rest);
    if ids[0] in rest {
      assert ids[0] in multiset(rest);
      assert multiset(direct)[ids[0]] >= 2;
      DistinctOnce(direct, ids[0]);
    }
    forall i | 0 <= i < |rest|
      ensures rest[i] in direct
    {
      assert rest[i] in multiset(ids);
      assert rest[i] in multiset(direct);
    }
  }

  lemma {:induction false} DistinctOnce(s: seq<FormId>, x: FormId)
    requires Distinct(s)
    ensures multiset(s)[x] <= 1
    decreases |s|
  {
    if s != [] {
      assert s == [s[0]] + s[1..];
      DistinctOnce(s[1..], x);
      if s[0] == x {
        assert x !in s[1..];
        assert x !in multiset(s[1..]);
      }
    }
  }

  lemma {:induction false} AllOk(cs: seq<Child>)
    ensures ChildrenOk(cs) <==> forall i :: 0 <= i < |cs| ==> ChildOk(cs[i])
    decreases |cs|
  {
    hide ChildOk;
    if cs != [] {
      AllOk(cs[1..]);
      assert cs == [cs[0]] + cs[1..];
    }
  }

  lemma {:induction false} LocatedHeaders(cs: seq<Child>, p: nat)
    requires AllRecords(cs)
    ensures |LocateChildren(cs, p)| == |cs|
    ensures forall i :: 0 <= i < |cs| ==>
              LocateChildren(cs, p)[i].RecordChild? && LocateChildren(cs, p)[i].record.header == cs[i].record.header
    decreases |cs|
  {
    hide ChildBytes;
    if cs != [] {
      LocatedHeaders(cs[1..], p + |ChildBytes(cs[0])|);
      forall i | 0 < i < |cs|
        ensures LocateChildren(cs, p)[i].RecordChild? && LocateChildren(cs, p)[i].record.header == cs[i].record.header
      {
        assert cs[1..][i - 1] == cs[i];
      }
    }
  }

  lemma FitsDirect(cs: seq<Child>, ids: seq<FormId>)
    requires OrderFits(cs, ids)
    ensures |ids| == |cs| && forall i :: 0 <= i < |ids| ==> ids[i] in DirectIds(cs)
  {
    assert |ids| == |multiset(ids)| == |multiset(DirectIds(cs))| == |cs|;
    forall i | 0 <= i < |ids|
      ensures ids[i] in DirectIds(cs)
    {
      assert ids[i] in multiset(ids);
      assert ids[i] in multiset(DirectIds(cs));
    }
  }

  /** Picking every record in the order it has gives the children back. */
  lemma PickSelf(cs: seq<Child>)
    requires AllRecords(cs) && Distinct(DirectIds(cs))
    ensures AsRecords(PickAll(cs, DirectIds(cs))) == cs
  {
    hide PickAll, PickRecord;
    PickedOrder(cs, DirectIds(cs));
    var picks := AsRecords(PickAll(cs, DirectIds(cs)));
    forall i | 0 <= i < |cs|
      ensures picks[i] == cs[i]
    {
      PickFinds(cs, i);
    }
  }

  lemma PicksOk(cs: seq<Child>, ids: seq<FormId>)
    requires OrderFits(cs, ids) && ChildrenOk(cs)
    ensures ChildrenOk(AsRecords(PickAll(cs, ids)))
    ensures |PickAll(cs, ids)| == |cs|
    ensures DirectIds(AsRecords(PickAll(cs, ids))) == ids
  {
    hide PickAll, ChildrenOk, ChildOk;
    var picks := AsRecords(PickAll(cs, ids));
    FitsDirect(cs, ids);
    PickedOrder(cs, ids);
    AllOk(cs);
    AllOk(picks);
  }

  /** Lists of records printed alike have the same FormIDs. */
  lemma SameBytesSameIds(a: seq<Child>, b: seq<Child>)
    requires ChildrenOk(a) && ChildrenOk(b) && AllRecords(a) && AllRecords(b)
    requires ChildrenBytes(a) == ChildrenBytes(b)
    ensures DirectIds(a) == DirectIds(b)
  {
    hide ChildrenBytes, ChildrenOk, LocateChildren, ChildrenAt;
    var s := ChildrenBytes(a);
    assert s[0..|s|] == s;
    PrintedChildrenParse(s, 0, a);
    PrintedChildrenParse(s, 0, b);
    LocatedHeaders(a, 0);
    LocatedHeaders(b, 0);
    forall i | 0 <= i < |a|
      ensures DirectIds(a)[i] == DirectIds(b)[i]
    {
      assert LocateChildren(a, 0)[i] == LocateChildren(b, 0)[i];
    }
  }

  /** A reordered group keeps its bytes only when the order is the one it has. */
  lemma ReorderedBytes(cs: seq<Child>, ids: seq<FormId>)
    requires OrderFits(cs, ids) && ChildrenOk(cs)
    ensures ChildrenBytes(AsRecords(PickAll(cs, ids))) == ChildrenBytes(cs) <==> ids == DirectIds(cs)
  {
    hide PickAll, ChildrenBytes, ChildrenOk;
    PickSelf(cs);
    PicksOk(cs, ids);
    if ChildrenBytes(AsRecords(PickAll(cs, ids))) == ChildrenBytes(cs) {
      SameBytesSameIds(AsRecords(PickAll(cs, ids)), cs);
    }
  }

  lemma {:induction false} OrderedOutUnpatched(p: nat, cs: seq<Child>, ids: seq<FormId>, job: Job)
    requires AllStandAt(job.source, p, cs) && !AnyPatched(cs, job.edits.patches)
    requires forall i :: 0 <= i < |ids| ==> PickRecord(cs, ids[i]).Some?
    ensures OrderedOut(cs, ids, job) == Ok(ChildrenBytes(AsRecords(PickAll(cs, ids))))
    decreases |ids|
  {
    hide PickRecord, RecordBytes, AllStandAt, AnyPatched, StandsAt;
    if ids != [] {
      var r := PickRecord(cs, ids[0]).value;
      var at := PickedStands(job.source, p, cs, ids[0]);
      StandingRecord(job.source, at, r);
      PickedUnpatched(cs, ids[0], job.edits.patches);
      forall i | 0 <= i < |ids[1..]|
        ensures PickRecord(cs, ids[1..][i]).Some?
      {
        assert ids[1..][i] == ids[i + 1];
      }
      OrderedOutUnpatched(p, cs, ids[1..], job);
      var rest := PickAll(cs, ids[1..]);
      assert PickAll(cs, ids) == [r] + rest;
      assert AsRecords([r] + rest)[1..] == AsRecords(rest);
    }
  }

  lemma {:induction false} PickedUnpatched(cs: seq<Child>, id: FormId, patches: map<FormId, Bytes>)
    requires !AnyPatched(cs, patches) && PickRecord(cs, id).Some?
    ensures PickRecord(cs, id).value.header.formId !in patches
    decreases cs
  {
    if !(cs[0].RecordChild? && cs[0].record.header.formId == id) {
      PickedUnpatched(cs[1..], id, patches);
    }
  }

  // --------------------------------------------------------------------------
  // Re-emitting what no patch reaches
  // --------------------------------------------------------------------------

  /**
   Re-emitting children without patched records yields as many bytes as they
   have, and the same bytes exactly when no registered order changes anything.
   */
  lemma {:induction false} UnpatchedChildren(p: nat, cs: seq<Child>, job: Job)
    requires AllStandAt(job.source, p, cs) && job.walk.Everything?
    requires !AnyPatched(cs, job.edits.patches) && AllOrdersFit(cs, job.edits.orders)
    ensures var out := ChildrenOut(cs, job);
            out.Ok? && |out.value| == |ChildrenBytes(cs)|
            && (out.value == ChildrenBytes(cs) <==> !AnyChange(cs, job.edits.orders))
    decreases cs
  {
    hide ChildOut, ChildBytes, StandsAt, AllStandAt, HasPatched, HasChange, OrdersFit;
    if cs != [] {
      StandingList(job.source, p, cs);
      UnpatchedChild(p, cs[0], job);
      UnpatchedChildren(p + |ChildBytes(cs[0])|, cs[1..], job);
      ConcatInjective(ChildOut(cs[0], job).value, ChildrenOut(cs[1..], job).value,
                      ChildBytes(cs[0]), ChildrenBytes(cs[1..]));
    }
  }

  lemma {:induction false} UnpatchedChild(p: nat, c: Child, job: Job)
    requires StandsAt(job.source, p, c) && job.walk.Everything?
    requires !HasPatched(c, job.edits.patches) && OrdersFit(c, job.edits.orders)
    ensures var out := ChildOut(c, job);
            out.Ok? && |out.value| == |ChildBytes(c)|
            && (out.value == ChildBytes(c) <==> !HasChange(c, job.edits.orders))
    decreases c
  {
    hide StandsAt, RecordBytes, GroupHeaderBytes, ChildrenOut, ChildrenBytes, OrderedOut, OrderFits, PickAll,
         AllOrdersFit, AnyPatched, AnyChange;
    match c {
      case RecordChild(r) =>
        StandingRecord(job.source, p, r);
      case GroupChild(g) =>
        StandingGroup(job.source, p, g);
        var body := ChildrenOut(g.children, job);
        if IsOrdered(g, job.edits.orders) {
          var ids := job.edits.orders[g.range.value];
          OrderedGroup(p + 24, g.children, ids, job);
          body := OrderedOut(g.children, ids, job);
        } else {
          UnpatchedChildren(p + 24, g.children, job);
        }
        ConcatInjective(GroupHeaderBytes(g.header, g.header.groupSize), body.value,
                        GroupHeaderBytes(g.header, g.header.groupSize), ChildrenBytes(g.children));
    }
  }

  lemma OrderedGroup(p: nat, cs: seq<Child>, ids: seq<FormId>, job: Job)
    requires AllStandAt(job.source, p, cs) && OrderFits(cs, ids) && !AnyPatched(cs, job.edits.patches)
    ensures var out := OrderedOut(cs, ids, job);
            out.Ok? && |out.value| == |ChildrenBytes(cs)|
            && (out.value == ChildrenBytes(cs) <==> ids == DirectIds(cs))
    ensures AllRecords(cs) && !AnyChange(cs, job.edits.orders)
  {
    hide OrderedOut, PickAll, PickRecord, ChildrenBytes, AnyPatched;
    OrderFinds(cs, ids);
    OrderedOutUnpatched(p, cs, ids, job);
    ReorderedSize(cs, ids);
    ReorderedBytes(cs, ids);
    RecordsDoNotChange(cs, job.edits.orders);
  }

  lemma {:induction false} RecordsDoNotChange(cs: seq<Child>, orders: map<Range, seq<FormId>>)
    requires AllRecords(cs)
    ensures !AnyChange(cs, orders) && !AnyOrder(cs, orders)
    decreases |cs|
  {
    if cs != [] {
      RecordsDoNotChange(cs[1..], orders);
    }
  }

  // --------------------------------------------------------------------------
  // The fast path is exact
  // --------------------------------------------------------------------------

  /** `fast` and `full` succeed alike, with equally many bytes, equal when `same`. */
  ghost predicate Matches(fast: Result<Bytes>, full: Result<Bytes>, same: bool) {
    fast.Ok? && full.Ok? && |fast.value| == |full.value| && (fast == full <==> same)
  }

  /**
   With every patched group touched, copying the untouched groups verbatim
   emits the bytes of full re-serialisation exactly when the touched set covers
   every group that an order changes.
   */
  lemma {:induction false} FastPathChildren(p: nat, cs: seq<Child>, job: Job, touched: set<Range>)
    requires AllStandAt(job.source, p, cs) && job.walk.Everything? && AllOrdersFit(cs, job.edits.orders)
    requires AllCovered(cs, Edits(job.edits.patches, map[]), touched)
    ensures Matches(ChildrenOut(cs, job.(walk := Only(touched))), ChildrenOut(cs, job),
                    AllCovered(cs, job.edits, touched))
    decreases cs
  {
    hide ChildOut, ChildBytes, StandsAt, AllStandAt, Covered, OrdersFit;
    if cs != [] {
      var fast := job.(walk := Only(touched));
      StandingList(job.source, p, cs);
      FastPathChild(p, cs[0], job, touched);
      FastPathChildren(p + |ChildBytes(cs[0])|, cs[1..], job, touched);
      ConcatInjective(ChildOut(cs[0], fast).value, ChildrenOut(cs[1..], fast).value,
                      ChildOut(cs[0], job).value, ChildrenOut(cs[1..], job).value);
    }
  }

  lemma {:induction false} FastPathChild(p: nat, c: Child, job: Job, touched: set<Range>)
    requires StandsAt(job.source, p, c) && job.walk.Everything? && OrdersFit(c, job.edits.orders)
    requires Covered(c, Edits(job.edits.patches, map[]), touched)
    ensures Matches(ChildOut(c, job.(walk := Only(touched))), ChildOut(c, job), Covered(c, job.edits, touched))
    decreases c
  {
    hide StandsAt, GroupHeaderBytes, ChildrenOut, OrderedOut, AllCovered, OrderFits, AllOrdersFit, HasPatched, HasChange;
    match c {
      case RecordChild(r) =>
        StandingRecord(job.source, p, r);
      case GroupChild(g) =>
        StandingGroup(job.source, p, g);
        if !Walks(g, Only(touched)) {
          UnpatchedChild(p, c, job);
          if !HasChange(c, job.edits.orders) {
            UnaffectedCovered(c, job.edits, touched);
          }
        } else if IsOrdered(g, job.edits.orders) {
          var ids := job.edits.orders[g.range.value];
          OrderFinds(g.children, ids);
          OrderedOutSame(p + 24, g.children, ids, job, job.(walk := Only(touched)));
          RecordsCovered(g.children, job.edits, touched);
        } else {
          FastPathChildren(p + 24, g.children, job, touched);
          ConcatBodies(g.header, ChildrenOut(g.children, job), ChildrenOut(g.children, job.(walk := Only(touched))));
        }
    }
  }

  /** Bodies of equal length get equal headers. */
  lemma ConcatBodies(h: GroupHeader, a: Result<Bytes>, b: Result<Bytes>)
    requires a.Ok? && b.Ok? && |a.value| == |b.value|
    ensures var header := GroupHeaderBytes(h, AsU32(GROUP_HEADER_SIZE + |a.value|));
            header + a.value == header + b.value <==> a == b
  {
    var header := GroupHeaderBytes(h, AsU32(GROUP_HEADER_SIZE + |a.value|));
    ConcatInjective(header, a.value, header, b.value);
  }

  /** Writing ordered records succeeds and never looks at the walk. */
  lemma {:induction false} OrderedOutSame(p: nat, cs: seq<Child>, ids: seq<FormId>, a: Job, b: Job)
    requires AllStandAt(a.source, p, cs) && a.source == b.source && a.edits == b.edits
    requires forall i :: 0 <= i < |ids| ==> PickRecord(cs, ids[i]).Some?
    ensures OrderedOut(cs, ids, a) == OrderedOut(cs, ids, b) && OrderedOut(cs, ids, a).Ok?
    decreases |ids|
  {
    hide PickRecord, AllStandAt, StandsAt;
    if ids != [] {
      var at := PickedStands(a.source, p, cs, ids[0]);
      StandingRecord(a.source, at, PickRecord(cs, ids[0]).value);
      forall i | 0 <= i < |ids[1..]|
        ensures PickRecord(cs, ids[1..][i]).Some?
      {
        assert ids[1..][i] == ids[i + 1];
      }
      OrderedOutSame(p, cs, ids[1..], a, b);
    }
  }

  lemma {:induction false} RecordsCovered(cs: seq<Child>, e: Edits, touched: set<Range>)
    requires AllRecords(cs)
    ensures AllCovered(cs, e, touched)
    decreases |cs|
  {
    if cs != [] {
      RecordsCovered(cs[1..], e, touched);
    }
  }

  /** Where nothing changes, nothing needs to be touched. */
  lemma UnaffectedCovered(c: Child, e: Edits, touched: set<Range>)
    requires !HasPatched(c, e.patches) && !HasChange(c, e.orders)
    ensures Covered(c, e, touched)
    decreases c, 0
  {
    if c.GroupChild? {
      UnaffectedAllCovered(c.group.children, e, touched);
    }
  }

  lemma UnaffectedAllCovered(cs: seq<Child>, e: Edits, touched: set<Range>)
    requires !AnyPatched(cs, e.patches) && !AnyChange(cs, e.orders)
    ensures AllCovered(cs, e, touched)
    decreases cs, 0
  {
    if cs != [] {
      UnaffectedCovered(cs[0], e, touched);
      UnaffectedAllCovered(cs[1..], e, touched);
    }
  }
}
