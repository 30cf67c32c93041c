/**
 Sparse edits of a parsed tree: what the patcher emits, the tree it should
 stand for, and why the two agree.
 */
module Edits {
  import opened Wire
  import opened Records
  import opened Groups

  /** Replacement bytes per FormID, and requested record orders per group range. */
  datatype Edits = Edits(patches: map<FormId, Bytes>, orders: map<Range, seq<FormId>>)

  /** Whether the writer re-emits every group or only the ones it was told to walk. */
  datatype Walk = Everything | Only(touched: set<Range>)

  datatype Job = Job(source: Bytes, edits: Edits, walk: Walk)

  predicate IsOrdered(g: Group, orders: map<Range, seq<FormId>>) {
    g.range.Some? && g.range.value in orders
  }

  /** The first direct record child with the given FormID. */
  function PickRecord(cs: seq<Child>, id: FormId): Option<Record> {
    if cs == [] then None
    else if cs[0].RecordChild? && cs[0].record.header.formId == id then Some(cs[0].record)
    else PickRecord(cs[1..], id)
  }

  // --------------------------------------------------------------------------
  // What the writer emits
  // --------------------------------------------------------------------------

  function RecordOut(r: Record, job: Job): Result<Bytes> {
    if r.header.formId in job.edits.patches then Ok(job.edits.patches[r.header.formId])
    else SourceSlice(job.source, r.range)
  }

  predicate Walks(g: Group, walk: Walk) {
    walk.Everything? || g.range.None? || g.range.value in walk.touched
  }

  function GroupOut(g: Group, job: Job): Result<Bytes>
    decreases g, 1
  {
    if !Walks(g, job.walk) then SourceSlice(job.source, g.range)
    else
      var body :- if IsOrdered(g, job.edits.orders)
                  then OrderedOut(g.children, job.edits.orders[g.range.value], job)
                  else ChildrenOut(g.children, job);
      Ok(GroupHeaderBytes(g.header, AsU32(GROUP_HEADER_SIZE + |body|)) + body)
  }

  function ChildOut(c: Child, job: Job): Result<Bytes>
    decreases c, 0
  {
    match c
    case RecordChild(r) => RecordOut(r, job)
    case GroupChild(g) => GroupOut(g, job)
  }

  function ChildrenOut(cs: seq<Child>, job: Job): Result<Bytes>
    decreases cs, 0
  {
    if cs == [] then Ok([])
    else
      var first :- ChildOut(cs[0], job);
      var rest :- ChildrenOut(cs[1..], job);
      Ok(first + rest)
  }

  /** The records `ids` of a reordered group, each written in turn. */
  function OrderedOut(cs: seq<Child>, ids: seq<FormId>, job: Job): Result<Bytes>
    decreases |ids|
  {
    if ids == [] then Ok([])
    else
      var record := PickRecord(cs, ids[0]);
      if record.None? then Err(InvalidGroupRecordOrder)
      else
        var first :- RecordOut(record.value, job);
        var rest :- OrderedOut(cs, ids[1..], job);
        Ok(first + rest)
  }

  // --------------------------------------------------------------------------
  // The tree the edits stand for
  // --------------------------------------------------------------------------

  /** The record parser consumes the whole replacement. */
  predicate ExactPatch(b: Bytes) {
    RecordAt(b, 0).Ok? && RecordAt(b, 0).value.1 == |b|
  }

  ghost predicate ExactPatches(patches: map<FormId, Bytes>) {
    forall id :: id in patches ==> ExactPatch(patches[id])
  }

  function EditedRecord(r: Record, patches: map<FormId, Bytes>): Record {
    if r.header.formId in patches && ExactPatch(patches[r.header.formId])
    then RecordAt(patches[r.header.formId], 0).value.0
    else r
  }

  function PickAll(cs: seq<Child>, ids: seq<FormId>): seq<Record>
    decreases |ids|
  {
    if ids == [] then []
    else
      var record := PickRecord(cs, ids[0]);
      (if record.Some? then [record.value] else []) + PickAll(cs, ids[1..])
  }

  function EditedRecords(rs: seq<Record>, patches: map<FormId, Bytes>): (cs: seq<Child>)
    ensures |cs| == |rs|
    decreases |rs|
  {
    if rs == [] then [] else [RecordChild(EditedRecord(rs[0], patches))] + EditedRecords(rs[1..], patches)
  }

  /** Records substituted, ordered groups rearranged, group sizes recomputed. */
  function EditedChild(c: Child, e: Edits): Child
    decreases c, 0
  {
    match c
    case RecordChild(r) => RecordChild(EditedRecord(r, e.patches))
    case GroupChild(g) => GroupChild(EditedGroup(g, e))
  }

  function EditedGroup(g: Group, e: Edits): Group
    decreases g, 1
  {
    var cs := if IsOrdered(g, e.orders)
              then EditedRecords(PickAll(g.children, e.orders[g.range.value]), e.patches)
              else EditedChildren(g.children, e);
    g.(header := g.header.(groupSize := AsU32(GROUP_HEADER_SIZE + |ChildrenBytes(cs)|)), children := cs)
  }

  function EditedChildren(cs: seq<Child>, e: Edits): (r: seq<Child>)
    ensures |r| == |cs|
    decreases cs, 0
  {
    if cs == [] then [] else [EditedChild(cs[0], e)] + EditedChildren(cs[1..], e)
  }

  // --------------------------------------------------------------------------
  // Accepted orders
  // --------------------------------------------------------------------------

  predicate AllRecords(cs: seq<Child>) {
    forall i :: 0 <= i < |cs| ==> cs[i].RecordChild?
  }

  function DirectIds(cs: seq<Child>): (ids: seq<FormId>)
    requires AllRecords(cs)
    ensures |ids| == |cs|
    ensures forall i :: 0 <= i < |cs| ==> ids[i] == cs[i].record.header.formId
  {
    seq(|cs|, i requires 0 <= i < |cs| => cs[i].record.header.formId)
  }

  predicate Distinct<T(==)>(s: seq<T>) {
    forall i, j :: 0 <= i < j < |s| ==> s[i] != s[j]
  }

  /** `ids` permutes the direct records of a group that holds nothing else. */
  ghost predicate OrderFits(cs: seq<Child>, ids: seq<FormId>) {
    AllRecords(cs) && Distinct(DirectIds(cs)) && multiset(ids) == multiset(DirectIds(cs))
  }

  /** Every registered order fits the group of the subtree it is registered for. */
  ghost predicate OrdersFit(c: Child, orders: map<Range, seq<FormId>>)
    decreases c, 0
  {
    match c
    case RecordChild(_) => true
    case GroupChild(g) =>
      (IsOrdered(g, orders) ==> OrderFits(g.children, orders[g.range.value])) && AllOrdersFit(g.children, orders)
  }

  ghost predicate AllOrdersFit(cs: seq<Child>, orders: map<Range, seq<FormId>>)
    decreases cs, 0
  {
    cs == [] || (OrdersFit(cs[0], orders) && AllOrdersFit(cs[1..], orders))
  }

  // --------------------------------------------------------------------------
  // The emitted bytes are the printed edited tree
  // --------------------------------------------------------------------------

  lemma RecordOutEdited(p: nat, r: Record, job: Job)
    requires StandsAt(job.source, p, RecordChild(r)) && ExactPatches(job.edits.patches)
    ensures RecordOut(r, job) == Ok(RecordBytes(EditedRecord(r, job.edits.patches)))
    ensures RecordOk(EditedRecord(r, job.edits.patches))
  {
    hide RecordAt, RecordBytes, RecordOk, StandsAt;
    if r.header.formId in job.edits.patches {
      var b := job.edits.patches[r.header.formId];
      assert ExactPatch(b);
      RecordInverse(b, 0, RecordAt(b, 0).value.0, |b|);
      assert b[0..|b|] == b;
    } else {
      StandingRecord(job.source, p, r);
    }
  }

  lemma {:induction false} ChildrenOutEdited(p: nat, cs: seq<Child>, job: Job)
    requires AllStandAt(job.source, p, cs) && job.walk.Everything?
    requires ExactPatches(job.edits.patches) && AllOrdersFit(cs, job.edits.orders)
    ensures ChildrenOut(cs, job) == Ok(ChildrenBytes(EditedChildren(cs, job.edits)))
    decreases cs
  {
    hide ChildOut, ChildBytes, StandsAt, AllStandAt, OrdersFit, EditedChild, ExactPatches;
    if cs != [] {
      StandingList(job.source, p, cs);
      ChildOutEdited(p, cs[0], job);
      ChildrenOutEdited(p + |ChildBytes(cs[0])|, cs[1..], job);
      var edited := EditedChildren(cs, job.edits);
      assert edited[1..] == EditedChildren(cs[1..], job.edits);
    }
  }

  lemma {:induction false} ChildOutEdited(p: nat, c: Child, job: Job)
    requires StandsAt(job.source, p, c) && job.walk.Everything?
    requires ExactPatches(job.edits.patches) && OrdersFit(c, job.edits.orders)
    ensures ChildOut(c, job) == Ok(ChildBytes(EditedChild(c, job.edits)))
    decreases c
  {
    hide StandsAt, ExactPatches, RecordBytes, GroupHeaderBytes, ChildrenOut, ChildrenBytes, OrderedOut, AllOrdersFit,
         OrderFits, EditedChildren, EditedRecords, PickAll;
    match c {
      case RecordChild(r) =>
        RecordOutEdited(p, r, job);
      case GroupChild(g) =>
        StandingGroup(job.source, p, g);
        if IsOrdered(g, job.edits.orders) {
          OrderFinds(g.children, job.edits.orders[g.range.value]);
          OrderedOutEdited(p + 24, g.children, job.edits.orders[g.range.value], job);
        } else {
          ChildrenOutEdited(p + 24, g.children, job);
        }
        HeaderKeepsBytes(g.header, EditedGroup(g, job.edits).header.groupSize);
    }
  }

  /** The size argument overrides the size field. */
  lemma HeaderKeepsBytes(h: GroupHeader, size: U32)
    ensures GroupHeaderBytes(h.(groupSize := size), size) == GroupHeaderBytes(h, size)
  {
  }

  /** Every picked record is a direct child with the requested FormID. */
  lemma {:induction false} PickedStands(s: Bytes, p: nat, cs: seq<Child>, id: FormId) returns (at: nat)
    requires AllStandAt(s, p, cs) && PickRecord(cs, id).Some?
    ensures StandsAt(s, at, RecordChild(PickRecord(cs, id).value))
    decreases cs
  {
    hide ChildBytes, StandsAt, AllStandAt;
    StandingList(s, p, cs);
    if cs[0].RecordChild? && cs[0].record.header.formId == id {
      at := p;
    } else {
      at := PickedStands(s, p + |ChildBytes(cs[0])|, cs[1..], id);
    }
  }

  lemma {:induction false} PickFinds(cs: seq<Child>, k: nat)
    requires AllRecords(cs) && Distinct(DirectIds(cs)) && k < |cs|
    ensures PickRecord(cs, cs[k].record.header.formId) == Some(cs[k].record)
    decreases cs
  {
    if k > 0 {
      var ids := DirectIds(cs);
      assert ids[0] != ids[k];
      assert DirectIds(cs[1..]) == ids[1..];
      assert cs[1..][k - 1] == cs[k];
      PickFinds(cs[1..], k - 1);
    }
  }

  lemma OrderFinds(cs: seq<Child>, ids: seq<FormId>)
    requires OrderFits(cs, ids)
    ensures AllRecords(cs) && forall i :: 0 <= i < |ids| ==> PickRecord(cs, ids[i]).Some?
  {
    var direct := DirectIds(cs);
    forall i | 0 <= i < |ids|
      ensures PickRecord(cs, ids[i]).Some?
    {
      assert ids[i] in multiset(ids);
      assert ids[i] in multiset(direct);
      var k :| 0 <= k < |direct| && direct[k] == ids[i];
      PickFinds(cs, k);
    }
  }

  lemma {:induction false} OrderedOutEdited(p: nat, cs: seq<Child>, ids: seq<FormId>, job: Job)
    requires AllStandAt(job.source, p, cs) && ExactPatches(job.edits.patches)
    requires forall i :: 0 <= i < |ids| ==> PickRecord(cs, ids[i]).Some?
    ensures OrderedOut(cs, ids, job) == Ok(ChildrenBytes(EditedRecords(PickAll(cs, ids), job.edits.patches)))
    ensures ChildrenOk(EditedRecords(PickAll(cs, ids), job.edits.patches))
    decreases |ids|
  {
    hide PickRecord, RecordOut, RecordBytes, RecordOk, AllStandAt, ExactPatches, EditedRecord;
    if ids != [] {
      var r := PickRecord(cs, ids[0]).value;
      var at := PickedStands(job.source, p, cs, ids[0]);
      RecordOutEdited(at, r, job);
      forall i | 0 <= i < |ids[1..]|
        ensures PickRecord(cs, ids[1..][i]).Some?
      {
        assert ids[1..][i] == ids[i + 1];
      }
      OrderedOutEdited(p, cs, ids[1..], job);
      var rest := PickAll(cs, ids[1..]);
      assert PickAll(cs, ids) == [r] + rest;
      assert ([r] + rest)[1..] == rest;
      var edited := EditedRecords([r] + rest, job.edits.patches);
      assert edited[0] == RecordChild(EditedRecord(r, job.edits.patches));
      assert edited[1..] == EditedRecords(rest, job.edits.patches);
    }
  }

  // --------------------------------------------------------------------------
  // The edited tree is well-formed
  // --------------------------------------------------------------------------

  lemma {:induction false} EditedChildrenOk(p: nat, cs: seq<Child>, job: Job)
    requires AllStandAt(job.source, p, cs)
    requires ExactPatches(job.edits.patches) && AllOrdersFit(cs, job.edits.orders)
    requires forall i :: 0 <= i < |cs| ==> |ChildBytes(EditedChild(cs[i], job.edits))| < 0x1_0000_0000
    ensures ChildrenOk(EditedChildren(cs, job.edits))
    decreases cs
  {
    hide ChildOk, ChildBytes, StandsAt, AllStandAt, OrdersFit, EditedChild, ExactPatches;
    if cs != [] {
      StandingList(job.source, p, cs);
      EditedChildOk(p, cs[0], job);
      forall i | 0 <= i < |cs[1..]|
        ensures |ChildBytes(EditedChild(cs[1..][i], job.edits))| < 0x1_0000_0000
      {
        assert cs[1..][i] == cs[i + 1];
      }
      EditedChildrenOk(p + |ChildBytes(cs[0])|, cs[1..], job);
      var edited := EditedChildren(cs, job.edits);
      assert edited[1..] == EditedChildren(cs[1..], job.edits);
    }
  }

  lemma {:induction false} EditedChildOk(p: nat, c: Child, job: Job)
    requires StandsAt(job.source, p, c)
    requires ExactPatches(job.edits.patches) && OrdersFit(c, job.edits.orders)
    requires |ChildBytes(EditedChild(c, job.edits))| < 0x1_0000_0000
    ensures ChildOk(EditedChild(c, job.edits))
    decreases c
  {
    hide AllStandAt, ExactPatches, RecordBytes, RecordOk, GroupHeaderBytes, ChildrenBytes, ChildrenOk, AllOrdersFit,
         OrderFits, EditedRecord, EditedChildren, EditedRecords, PickAll;
    match c {
      case RecordChild(r) =>
        RecordOutEdited(p, r, job);
      case GroupChild(g) =>
        StandingGroup(job.source, p, g);
        var edited := EditedGroup(g, job.edits);
        assert LabelFits(g.header.groupLabel, g.header.groupType) by {
          assert GroupOk(g);
        }
        if IsOrdered(g, job.edits.orders) {
          var ids := job.edits.orders[g.range.value];
          OrderFinds(g.children, ids);
          OrderedOutEdited(p + 24, g.children, ids, job);
        } else {
          assert edited.children == EditedChildren(g.children, job.edits);
          PartsFit(g.children, job.edits);
          EditedChildrenOk(p + 24, g.children, job);
        }
        assert GroupOk(edited);
    }
  }

  /** No part of a list is longer than the whole. */
  lemma {:induction false} PartsFit(cs: seq<Child>, e: Edits)
    ensures forall i :: 0 <= i < |cs| ==> |ChildBytes(EditedChild(cs[i], e))| <= |ChildrenBytes(EditedChildren(cs, e))|
    decreases cs
  {
    hide ChildBytes, EditedChild;
    if cs != [] {
      PartsFit(cs[1..], e);
      var edited := EditedChildren(cs, e);
      assert edited[1..] == EditedChildren(cs[1..], e);
      forall i | 0 <= i < |cs|
        ensures |ChildBytes(EditedChild(cs[i], e))| <= |ChildrenBytes(edited)|
      {
        if i > 0 {
          assert cs[1..][i - 1] == cs[i];
        }
      }
    }
  }
}
