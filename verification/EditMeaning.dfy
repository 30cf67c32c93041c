/** What the edited tree keeps and what it changes. */
module EditMeaning {
  import opened Wire
  import opened Records
  import opened Groups
  import opened Games
  import opened Plugins
  import opened Traversal
  import opened Edits
  import opened FastPath
  import opened HeaderRewrite
  import opened HeaderReparse
  import opened HeaderTheorem
  import opened PatchedPlugin

  // --------------------------------------------------------------------------
  // Record patches
  // --------------------------------------------------------------------------

  function EditedAll(rs: seq<Record>, patches: map<FormId, Bytes>): (out: seq<Record>)
    ensures |out| == |rs|
    ensures forall i :: 0 <= i < |rs| ==> out[i] == EditedRecord(rs[i], patches)
  {
    seq(|rs|, i requires 0 <= i < |rs| => EditedRecord(rs[i], patches))
  }

  /**
   With record patches alone, the records in document order are the original
   ones, each replaced exactly if its FormID has a patch.
   */
  lemma {:induction false} FlattenEdited(cs: seq<Child>, patches: map<FormId, Bytes>)
    ensures Flatten(EditedChildren(cs, Edits(patches, map[]))) == EditedAll(Flatten(cs), patches)
    decreases cs, 0
  {
    hide EditedRecord;
    if cs != [] {
      var e := Edits(patches, map[]);
      FlattenEditedChild(cs[0], patches);
      FlattenEdited(cs[1..], patches);
      assert EditedChildren(cs, e)[1..] == EditedChildren(cs[1..], e);
    }
  }

  lemma {:induction false} FlattenEditedChild(c: Child, patches: map<FormId, Bytes>)
    ensures FlattenChild(EditedChild(c, Edits(patches, map[]))) == EditedAll(FlattenChild(c), patches)
    decreases c, 0
  {
    hide EditedRecord;
    if c.GroupChild? {
      FlattenEdited(c.group.children, patches);
    }
  }

  /** Locating a tree does not touch any record but for its range. */
  lemma {:induction false} FlattenLocated(cs: seq<Child>, p: nat)
    ensures |Flatten(LocateChildren(cs, p))| == |Flatten(cs)|
    ensures forall i :: 0 <= i < |Flatten(cs)| ==>
              Flatten(LocateChildren(cs, p))[i].header == Flatten(cs)[i].header
              && Flatten(LocateChildren(cs, p))[i].data == Flatten(cs)[i].data
    decreases cs, 0
  {
    hide ChildBytes;
    if cs != [] {
      var n := p + |ChildBytes(cs[0])|;
      FlattenLocatedChild(cs[0], p);
      FlattenLocated(cs[1..], n);
      assert LocateChildren(cs, p)[1..] == LocateChildren(cs[1..], n);
      var a, b := FlattenChild(LocateChild(cs[0], p)), Flatten(LocateChildren(cs[1..], n));
      assert Flatten(LocateChildren(cs, p)) == a + b;
    }
  }

  lemma {:induction false} FlattenLocatedChild(c: Child, p: nat)
    ensures |FlattenChild(LocateChild(c, p))| == |FlattenChild(c)|
    ensures forall i :: 0 <= i < |FlattenChild(c)| ==>
              FlattenChild(LocateChild(c, p))[i].header == FlattenChild(c)[i].header
              && FlattenChild(LocateChild(c, p))[i].data == FlattenChild(c)[i].data
    decreases c, 0
  {
    match c {
      case RecordChild(r) =>
      case GroupChild(g) => FlattenLocated(g.children, p + 24);
    }
  }

  // --------------------------------------------------------------------------
  // Counts
  // --------------------------------------------------------------------------

  lemma {:induction false} LocatedCount(cs: seq<Child>, p: nat)
    ensures NodeCount(LocateChildren(cs, p)) == NodeCount(cs)
    decreases cs, 0
  {
    hide ChildBytes;
    if cs != [] {
      LocatedChildCount(cs[0], p);
      LocatedCount(cs[1..], p + |ChildBytes(cs[0])|);
      assert LocateChildren(cs, p)[1..] == LocateChildren(cs[1..], p + |ChildBytes(cs[0])|);
    }
  }

  lemma {:induction false} LocatedChildCount(c: Child, p: nat)
    ensures ChildCount(LocateChild(c, p)) == ChildCount(c)
    decreases c, 0
  {
    match c {
      case RecordChild(r) =>
      case GroupChild(g) => LocatedCount(g.children, p + 24);
    }
  }

  lemma {:induction false} RecordsCount(cs: seq<Child>)
    requires AllRecords(cs)
    ensures NodeCount(cs) == |cs|
    decreases |cs|
  {
    if cs != [] {
      RecordsCount(cs[1..]);
    }
  }

  /** Replacing records one for one and permuting them keeps every count. */
  lemma {:induction false} EditedCount(cs: seq<Child>, e: Edits)
    requires AllOrdersFit(cs, e.orders)
    ensures NodeCount(EditedChildren(cs, e)) == NodeCount(cs)
    decreases cs, 0
  {
    hide EditedChild, OrdersFit;
    if cs != [] {
      EditedChildCount(cs[0], e);
      EditedCount(cs[1..], e);
      assert EditedChildren(cs, e)[1..] == EditedChildren(cs[1..], e);
    }
  }

  lemma {:induction false} EditedChildCount(c: Child, e: Edits)
    requires OrdersFit(c, e.orders)
    ensures ChildCount(EditedChild(c, e)) == ChildCount(c)
    decreases c, 0
  {
    hide EditedRecord, OrderFits, PickAll, EditedRecords;
    if c.GroupChild? {
      var g := c.group;
      if IsOrdered(g, e.orders) {
        var ids := e.orders[g.range.value];
        FitsDirect(g.children, ids);
        OrderFinds(g.children, ids);
        PickAllLength(g.children, ids);
        EditedRecordsShape(PickAll(g.children, ids), e.patches);
        RecordsCount(EditedRecords(PickAll(g.children, ids), e.patches));
        RecordsCount(g.children);
      } else {
        EditedCount(g.children, e);
      }
    }
  }

  lemma {:induction false} PickAllLength(cs: seq<Child>, ids: seq<FormId>)
    requires forall i :: 0 <= i < |ids| ==> PickRecord(cs, ids[i]).Some?
    ensures |PickAll(cs, ids)| == |ids|
    decreases |ids|
  {
    if ids != [] {
      forall i | 0 <= i < |ids[1..]|
        ensures PickRecord(cs, ids[1..][i]).Some?
      {
        assert ids[1..][i] == ids[i + 1];
      }
      PickAllLength(cs, ids[1..]);
    }
  }

  lemma {:induction false} EditedRecordsShape(rs: seq<Record>, patches: map<FormId, Bytes>)
    ensures AllRecords(EditedRecords(rs, patches))
    ensures forall i :: 0 <= i < |rs| ==> EditedRecords(rs, patches)[i] == RecordChild(EditedRecord(rs[i], patches))
    decreases |rs|
  {
    hide EditedRecord;
    if rs != [] {
      EditedRecordsShape(rs[1..], patches);
      assert EditedRecords(rs, patches)[1..] == EditedRecords(rs[1..], patches);
    }
  }

  lemma PatchedCount(plugin: Plugin, e: Edits, p: nat)
    requires AllOrdersFit(AsChildren(plugin.groups), e.orders)
    ensures NodeCount(AsChildren(PatchedGroups(plugin, e, p))) == NodeCount(AsChildren(plugin.groups))
  {
    hide NodeCount, AllOrdersFit, EditedChildren, LocateChildren;
    var cs := AsChildren(plugin.groups);
    EditedCount(cs, e);
    LocatedCount(EditedChildren(cs, e), p);
    EditedGroupsStayGroups(plugin.groups, e, p);
  }

  /** The record count in the rewritten header is the number of groups and records a reader finds. */
  lemma HeaderCountsOutput(env: Env, plugin: Plugin, e: Edits, patch: HeaderPatch)
    requires Parsed(env, plugin) && Workable(plugin, e)
    requires UpdatedHeaderOf(env, plugin, patch).Ok? && TextsFit(patch.masters, patch.description)
    ensures var p := |UpdatedHeaderOf(env, plugin, patch).value|;
            UpdatedHeader(env, plugin, patch).recordCount == NodeCount(AsChildren(PatchedGroups(plugin, e, p)))
  {
    hide NodeCount, Parsed, UpdatedHeaderOf, UpdatedRecord, ExactPatches, AllOrdersFit, TextsFit, PatchedGroups, HeaderOf;
    HeaderReadsBack(env, plugin, patch);
    PatchedCount(plugin, e, |UpdatedHeaderOf(env, plugin, patch).value|);
  }

  /** Every patch keeps the FormID it is registered for. */
  ghost predicate KeepsIds(patches: map<FormId, Bytes>) {
    forall id :: id in patches && ExactPatch(patches[id]) ==> RecordAt(patches[id], 0).value.0.header.formId == id
  }

  /** `id` is the FormID of one of the records. */
  ghost predicate HasId(rs: seq<Record>, id: FormId) {
    exists r :: r in rs && r.header.formId == id
  }

  ghost predicate IdsAmong(out: seq<Record>, rs: seq<Record>) {
    forall r :: r in out ==> HasId(rs, r.header.formId)
  }

  /** Edits bring no FormID into the tree that was not there, if patches keep theirs. */
  lemma {:induction false} EditedIds(cs: seq<Child>, e: Edits)
    requires AllOrdersFit(cs, e.orders) && KeepsIds(e.patches)
    ensures IdsAmong(Flatten(EditedChildren(cs, e)), Flatten(cs))
    decreases cs, 0
  {
    hide EditedChild, OrdersFit, KeepsIds, FlattenChild;
    if cs != [] {
      EditedChildIds(cs[0], e);
      EditedIds(cs[1..], e);
      assert EditedChildren(cs, e)[1..] == EditedChildren(cs[1..], e);
    }
  }

  lemma {:induction false} EditedChildIds(c: Child, e: Edits)
    requires OrdersFit(c, e.orders) && KeepsIds(e.patches)
    ensures IdsAmong(FlattenChild(EditedChild(c, e)), FlattenChild(c))
    decreases c, 0
  {
    hide EditedRecord, OrderFits, PickAll, EditedRecords, KeepsIds;
    match c {
      case RecordChild(r) =>
        EditedKeepsId(r, e.patches);
        assert r in FlattenChild(c);
      case GroupChild(g) =>
        if IsOrdered(g, e.orders) {
          OrderedIds(g.children, e.orders[g.range.value], e.patches);
        } else {
          EditedIds(g.children, e);
        }
    }
  }

  lemma OrderedIds(cs: seq<Child>, ids: seq<FormId>, patches: map<FormId, Bytes>)
    requires OrderFits(cs, ids) && KeepsIds(patches)
    ensures IdsAmong(Flatten(EditedRecords(PickAll(cs, ids), patches)), Flatten(cs))
  {
    hide EditedRecord, PickAll, PickRecord, KeepsIds, EditedRecords, Flatten;
    var picks := PickAll(cs, ids);
    var kids := EditedRecords(picks, patches);
    FitsDirect(cs, ids);
    FitsDistinct(cs, ids);
    PickedOrder(cs, ids);
    EditedRecordsShape(picks, patches);
    FlattenRecords(cs);
    FlattenRecords(kids);
    forall r | r in Flatten(kids)
      ensures HasId(Flatten(cs), r.header.formId)
    {
      var i :| 0 <= i < |kids| && kids[i].record == r;
      EditedKeepsId(picks[i], patches);
      assert RecordChild(picks[i]) in cs;
      assert picks[i] in Flatten(cs);
    }
  }

  lemma {:induction false} FlattenRecords(cs: seq<Child>)
    requires AllRecords(cs)
    ensures forall r :: r in Flatten(cs) <==> RecordChild(r) in cs
    decreases |cs|
  {
    if cs != [] {
      FlattenRecords(cs[1..]);
      assert cs == [cs[0]] + cs[1..];
      assert Flatten(cs) == [cs[0].record] + Flatten(cs[1..]);
    }
  }

  /**
   If patches keep their FormIDs, the next ID of the rewritten header is at
   least the stored one and above every owned object ID a reader finds, whatever
   records are patched or reordered.
   */
  lemma NextIdAboveOutput(env: Env, plugin: Plugin, e: Edits, patch: HeaderPatch)
    requires Parsed(env, plugin) && Workable(plugin, e) && KeepsIds(e.patches)
    requires UpdatedHeaderOf(env, plugin, patch).Ok? && TextsFit(patch.masters, patch.description)
    ensures UpdatedHeader(env, plugin, patch).nextObjectId >= plugin.header.nextObjectId
    ensures UpdatedHeader(env, plugin, patch).nextObjectId >= MIN_NEXT_ID
    ensures var p := |UpdatedHeaderOf(env, plugin, patch).value|;
            var own := if patch.masters.Some? then |patch.masters.value| else |plugin.header.masters|;
            forall r :: r in Flatten(AsChildren(PatchedGroups(plugin, e, p))) && FileIndex(r.header.formId) == own
              ==> ObjectId(r.header.formId) < UpdatedHeader(env, plugin, patch).nextObjectId
  {
    hide OwnedEnd, Parsed, UpdatedHeaderOf, UpdatedRecord, TextsFit, FileIndex, ObjectId, ExactPatches, AllOrdersFit, SizesFit,
         TopReached, KeepsIds, EditedChildren, LocateChildren, Flatten, HeaderOf;
    var cs, own, p := AsChildren(plugin.groups), OwnIndex(plugin, patch), |UpdatedHeaderOf(env, plugin, patch).value|;
    OwnedEndBound(cs, own);
    OwnedEndIsLeast(cs, own);
    EditedIds(cs, e);
    FlattenLocated(EditedChildren(cs, e), p);
    EditedGroupsStayGroups(plugin.groups, e, p);
    var edited, located := Flatten(EditedChildren(cs, e)), Flatten(LocateChildren(EditedChildren(cs, e), p));
    forall r | r in located && FileIndex(r.header.formId) == own
      ensures ObjectId(r.header.formId) < OwnedEnd(cs, own)
    {
      var i :| 0 <= i < |located| && located[i] == r;
      assert edited[i] in edited;
      var was :| was in Flatten(cs) && was.header.formId == r.header.formId;
    }
  }

  lemma EditedKeepsId(r: Record, patches: map<FormId, Bytes>)
    requires KeepsIds(patches)
    ensures EditedRecord(r, patches).header.formId == r.header.formId
  {
  }

  // --------------------------------------------------------------------------
  // Unaffected parts and pure reordering
  // --------------------------------------------------------------------------

  /** A subtree that no edit reaches is part of the output as it was. */
  lemma {:induction false} UnaffectedKept(c: Child, e: Edits)
    requires ChildOk(c) && !HasPatched(c, e.patches) && !HasOrder(c, e.orders)
    ensures EditedChild(c, e) == c
    decreases c, 0
  {
    hide RecordOk, GroupHeaderBytes;
    if c.GroupChild? {
      UnaffectedAllKept(c.group.children, e);
      assert GroupOk(c.group);
    }
  }

  lemma {:induction false} UnaffectedAllKept(cs: seq<Child>, e: Edits)
    requires ChildrenOk(cs) && !AnyPatched(cs, e.patches) && !AnyOrder(cs, e.orders)
    ensures EditedChildren(cs, e) == cs
    decreases cs, 0
  {
    hide ChildOk, EditedChild;
    if cs != [] {
      UnaffectedKept(cs[0], e);
      UnaffectedAllKept(cs[1..], e);
    }
  }

  /** `c` is the direct record of `g` with FormID `id`, patched if it has a patch. */
  ghost predicate IsEditedDirect(g: Group, id: FormId, patches: map<FormId, Bytes>, c: Child) {
    exists r :: RecordChild(r) in g.children && r.header.formId == id && c == RecordChild(EditedRecord(r, patches))
  }

  /** A reordered group has its records in the requested order. */
  lemma ReorderedGroup(g: Group, e: Edits)
    requires IsOrdered(g, e.orders) && OrderFits(g.children, e.orders[g.range.value])
    ensures var ids, cs := e.orders[g.range.value], EditedGroup(g, e).children;
            |cs| == |ids| == |g.children|
            && forall i :: 0 <= i < |ids| ==> IsEditedDirect(g, ids[i], e.patches, cs[i])
  {
    hide EditedRecord, PickAll, PickRecord, OrderFits, EditedRecords, ChildrenBytes;
    var ids := e.orders[g.range.value];
    FitsDirect(g.children, ids);
    OrderFinds(g.children, ids);
    assert Distinct(DirectIds(g.children)) by {
      FitsDistinct(g.children, ids);
    }
    PickedOrder(g.children, ids);
    var picks := PickAll(g.children, ids);
    EditedRecordsShape(picks, e.patches);
    var cs := EditedGroup(g, e).children;
    assert cs == EditedRecords(picks, e.patches);
    forall i | 0 <= i < |ids|
      ensures IsEditedDirect(g, ids[i], e.patches, cs[i])
    {
      var r := picks[i];
      assert RecordChild(r) in g.children && r.header.formId == ids[i];
      assert cs[i] == RecordChild(EditedRecord(r, e.patches));
    }
  }

  lemma FitsDistinct(cs: seq<Child>, ids: seq<FormId>)
    requires OrderFits(cs, ids)
    ensures Distinct(DirectIds(cs))
  {
  }

  /** Without record patches, reordering keeps every size: the group's own and all around it. */
  lemma {:induction false} ReorderingKeepsSizes(c: Child, orders: map<Range, seq<FormId>>)
    requires ChildOk(c) && OrdersFit(c, orders)
    ensures |ChildBytes(EditedChild(c, Edits(map[], orders)))| == |ChildBytes(c)|
    ensures c.GroupChild? ==> EditedChild(c, Edits(map[], orders)).group.header == c.group.header
    decreases c, 0
  {
    hide RecordOk, GroupHeaderBytes, ChildrenBytes, PickAll, OrderFits;
    if c.GroupChild? {
      var g, e := c.group, Edits(map[], orders);
      assert GroupOk(g);
      if IsOrdered(g, orders) {
        var ids := orders[g.range.value];
        ReorderedSize(g.children, ids);
        UneditedRecords(PickAll(g.children, ids));
      } else {
        ReorderingKeepsAllSizes(g.children, orders);
      }
    }
  }

  lemma {:induction false} ReorderingKeepsAllSizes(cs: seq<Child>, orders: map<Range, seq<FormId>>)
    requires ChildrenOk(cs) && AllOrdersFit(cs, orders)
    ensures |ChildrenBytes(EditedChildren(cs, Edits(map[], orders)))| == |ChildrenBytes(cs)|
    decreases cs, 0
  {
    hide ChildOk, EditedChild, ChildBytes, OrdersFit;
    if cs != [] {
      var e := Edits(map[], orders);
      ReorderingKeepsSizes(cs[0], orders);
      ReorderingKeepsAllSizes(cs[1..], orders);
      assert EditedChildren(cs, e)[1..] == EditedChildren(cs[1..], e);
    }
  }

  lemma {:induction false} UneditedRecords(rs: seq<Record>)
    ensures EditedRecords(rs, map[]) == AsRecords(rs)
    decreases |rs|
  {
    if rs != [] {
      UneditedRecords(rs[1..]);
      assert AsRecords(rs) == [RecordChild(rs[0])] + AsRecords(rs[1..]);
    }
  }
}
