/** The sparse patcher: registers edits and rewrites the plugin around them. */
module Patcher {
  import opened Wire
  import opened Buffer
  import opened Records
  import opened Groups
  import opened Games
  import opened Plugins
  import opened Edits
  import opened FastPath
  import opened Marking
  import opened HeaderRewrite
  import opened HeaderReparse
  import opened HeaderTheorem
  import opened Ranges
  import opened RegisteredOrders

  // --------------------------------------------------------------------------
  // Marking
  // --------------------------------------------------------------------------

  method MarkTouched(group: Group, patches: map<FormId, Bytes>, touched: RangeSet) returns (any: bool)
    modifies touched
    ensures any == HasPatched(GroupChild(group), patches)
    ensures touched.ranges == old(touched.ranges) + PatchMarks(GroupChild(group), patches)
    decreases group
  {
    ghost var before := touched.ranges;
    any := false;
    assert group.children[0..] == group.children;
    for i := 0 to |group.children|
      invariant any || AnyPatched(group.children[i..], patches) <==> AnyPatched(group.children, patches)
      invariant touched.ranges + PatchMarksIn(group.children[i..], patches) == before + PatchMarksIn(group.children, patches)
    {
      assert group.children[i..][0] == group.children[i] && group.children[i..][1..] == group.children[i + 1..];
      match group.children[i] {
        case RecordChild(r) =>
          if r.header.formId in patches {
            any := true;
          }
        case GroupChild(g) =>
          var below := MarkTouched(g, patches, touched);
          if below {
            any := true;
          }
      }
    }
    assert group.children[|group.children|..] == [];
    if any {
      if group.range.Some? {
        touched.Insert(group.range.value);
      }
    }
  }

  /** The search for reordered groups; it stops at the first child that holds one. */
  method MarkReordered(group: Group, orders: map<Range, seq<FormId>>, touched: RangeSet) returns (reordered: bool)
    modifies touched
    ensures reordered == HasOrder(GroupChild(group), orders)
    ensures touched.ranges == old(touched.ranges) + OrderMarks(GroupChild(group), orders, false)
    decreases group
  {
    ghost var before := touched.ranges;
    var own := IsOrdered(group, orders);
    var descendant := false;
    var i := 0;
    assert group.children[0..] == group.children;
    while i < |group.children| && !descendant
      invariant 0 <= i <= |group.children|
      invariant descendant || AnyOrder(group.children[i..], orders) <==> AnyOrder(group.children, orders)
      invariant touched.ranges + OrderMarksIn(group.children[i..], orders, descendant)
             == before + OrderMarksIn(group.children, orders, false)
    {
      assert group.children[i..][0] == group.children[i] && group.children[i..][1..] == group.children[i + 1..];
      match group.children[i] {
        case RecordChild(_) =>
        case GroupChild(g) =>
          descendant := MarkReordered(g, orders, touched);
      }
      i := i + 1;
    }
    if !descendant {
      assert group.children[i..] == [];
    }
    SkippedMarks(group.children[i..], orders);
    reordered := own || descendant;
    if reordered {
      if group.range.Some? {
        touched.Insert(group.range.value);
      }
    }
  }

  lemma SkippedMarks(cs: seq<Child>, orders: map<Range, seq<FormId>>)
    ensures OrderMarksIn(cs, orders, true) == {}
    decreases cs, 0
  {
    if cs != [] {
      SkippedMarksOf(cs[0], orders);
      SkippedMarks(cs[1..], orders);
    }
  }

  lemma SkippedMarksOf(c: Child, orders: map<Range, seq<FormId>>)
    ensures OrderMarks(c, orders, true) == {}
    decreases c, 0
  {
    if c.GroupChild? {
      SkippedMarks(c.group.children, orders);
    }
  }

  /** Everything the patcher marks in a list of top-level groups. */
  ghost function AllMarks(gs: seq<Group>, e: Edits): set<Range> {
    if gs == [] then {}
    else PatchMarks(GroupChild(gs[0]), e.patches) + OrderMarks(GroupChild(gs[0]), e.orders, false) + AllMarks(gs[1..], e)
  }

  // --------------------------------------------------------------------------
  // The patcher
  // --------------------------------------------------------------------------

  /** What `WriteTo` emits, and when it fails. */
  ghost function WholeOut(env: Env, plugin: Plugin, e: Edits, patch: Option<HeaderPatch>): Result<Bytes> {
    var touched := AllMarks(plugin.groups, e);
    var header :- if patch.Some? || touched != {}
                  then UpdatedHeaderOf(env, plugin, patch.GetOr(NO_PATCH))
                  else SourceSlice(plugin.source, Some(plugin.headerRange));
    var groups :- ChildrenOut(AsChildren(plugin.groups), Job(plugin.source, e, Only(touched)));
    Ok(header + groups)
  }

  class PluginPatcher {
    const env: Env
    const plugin: Plugin
    var patches: map<FormId, Bytes>
    var groupOrders: map<Range, seq<FormId>>
    var headerPatch: Option<HeaderPatch>

    /** The plugin is one that was parsed, and every registered order fits the group it is for. */
    ghost predicate Valid()
      reads this
    {
      Parsed(env, plugin) && AllOrdersFit(AsChildren(plugin.groups), groupOrders)
    }

    constructor (env: Env, plugin: Plugin)
      ensures this.env == env && this.plugin == plugin
      ensures patches == map[] && groupOrders == map[] && headerPatch == None
      ensures Parsed(env, plugin) ==> Valid()
    {
      this.env := env;
      this.plugin := plugin;
      patches := map[];
      groupOrders := map[];
      headerPatch := None;
      new;
      NoOrdersFit(AsChildren(plugin.groups));
    }

    function CurrentEdits(): Edits
      reads this
    {
      Edits(patches, groupOrders)
    }

    /** Registers replacement bytes; a later replacement of the same FormID wins. */
    method ReplaceRecord(formId: FormId, bytes: Bytes)
      modifies this`patches
      ensures patches == old(patches)[formId := bytes]
      ensures old(Valid()) ==> Valid()
    {
      patches := patches[formId := bytes];
    }

    method PatchHeader(patch: HeaderPatch)
      modifies this`headerPatch
      ensures headerPatch == Some(patch)
      ensures old(Valid()) ==> Valid()
    {
      headerPatch := Some(patch);
    }

    /**
     Registers an order for the direct records of a group. It is accepted exactly
     when it permutes them; a rejected order changes nothing. Orders for groups
     of the plugin itself keep the patcher valid.
     */
    method ReorderGroupRecords(group: Group, formIds: seq<FormId>) returns (r: Result<()>)
      modifies this`groupOrders
      ensures r.Ok? <==> group.range.Some? && OrderFits(group.children, formIds)
      ensures r.Ok? ==> groupOrders == old(groupOrders)[group.range.value := formIds]
      ensures r.Err? ==> groupOrders == old(groupOrders)
      ensures r.Err? ==> r.error == if group.range.None? then UnexpectedEof else InvalidGroupRecordOrder
      ensures old(Valid()) && (r.Err? || group in GroupsIn(AsChildren(plugin.groups))) ==> Valid()
    {
      hide AllOrdersFit, GroupsIn, Parsed, Tiles;
      if group.range.None? {
        return Err(UnexpectedEof);
      }
      var expected :- DirectIdSet(group.children);
      OrderFitsByElements(group.children, formIds);
      var supplied :- SuppliedIdSet(formIds, expected);
      if |supplied| != |expected| {
        return Err(InvalidGroupRecordOrder);
      }
      if Valid() && group in GroupsIn(AsChildren(plugin.groups)) {
        PluginRanges(env, plugin);
        OrdersStayFit(AsChildren(plugin.groups), plugin.headerRange.end, |plugin.source|, groupOrders, group, formIds);
      }
      groupOrders := groupOrders[group.range.value := formIds];
      return Ok(());
    }

    /** Writes the patched plugin. */
    method WriteTo(writer: ByteBuffer) returns (r: Result<()>)
      modifies writer
      ensures patches == map[] && groupOrders == map[] && headerPatch == None ==>
                r.Ok? && writer.bytes == old(writer.bytes) + plugin.source
      ensures patches != map[] || groupOrders != map[] || headerPatch.Some? ==>
                Emits(old(writer.bytes), writer.bytes, r, WholeOut(env, plugin, CurrentEdits(), headerPatch))
    {
      if patches == map[] && groupOrders == map[] && headerPatch == None {
        writer.Append(plugin.source);
        return Ok(());
      }
      ghost var before := writer.bytes;
      var touched := MarkAll(plugin.groups, CurrentEdits());
      var job := Job(plugin.source, CurrentEdits(), Only(touched));
      if headerPatch.Some? || touched != {} {
        var _ :- WriteUpdated(env, plugin, headerPatch.GetOr(NO_PATCH), writer);
      } else {
        var headerBytes :- SourceSlice(plugin.source, Some(plugin.headerRange));
        writer.Append(headerBytes);
      }
      ghost var header := writer.bytes[|before|..];
      assert writer.bytes == before + header;
      var _ :- WriteGroups(plugin.groups, job, writer);
      Assoc(before, header, ChildrenOut(AsChildren(plugin.groups), job).value);
      return Ok(());
    }
  }

  method MarkAll(groups: seq<Group>, e: Edits) returns (ranges: set<Range>)
    ensures ranges == AllMarks(groups, e)
  {
    hide PatchMarks, OrderMarks;
    var touched := new RangeSet();
    assert groups[0..] == groups;
    for i := 0 to |groups|
      invariant fresh(touched)
      invariant touched.ranges + AllMarks(groups[i..], e) == AllMarks(groups, e)
    {
      assert groups[i..][0] == groups[i] && groups[i..][1..] == groups[i + 1..];
      var _ := MarkTouched(groups[i], e.patches, touched);
      var _ := MarkReordered(groups[i], e.orders, touched);
    }
    assert groups[|groups|..] == [];
    return touched.ranges;
  }

  method WriteGroups(groups: seq<Group>, job: Job, writer: ByteBuffer) returns (r: Result<()>)
    requires job.walk.Only?
    modifies writer
    ensures Emits(old(writer.bytes), writer.bytes, r, ChildrenOut(AsChildren(groups), job))
  {
    hide ChildrenOut, GroupOut;
    ghost var before := writer.bytes;
    ghost var cs := AsChildren(groups);
    ghost var done: Bytes := [];
    assert cs[0..] == cs;
    StartOut(ChildrenOut(cs, job));
    for i := 0 to |groups|
      invariant writer.bytes == before + done
      invariant ChildrenOut(cs, job) == AfterBytes(done, ChildrenOut(cs[i..], job))
    {
      OutStep(cs, i, job);
      AfterTwice(done, ChildOut(cs[i], job), ChildrenOut(cs[i + 1..], job));
      var _ :- WriteGroup(groups[i], job, writer);
      ghost var emitted := ChildOut(cs[i], job).value;
      Assoc(before, done, emitted);
      done := done + emitted;
    }
    assert cs[|groups|..] == [];
    NothingOut(job);
    assert done + [] == done;
    return Ok(());
  }

  lemma NothingOut(job: Job)
    ensures ChildrenOut([], job) == Ok([])
  {
  }

  // --------------------------------------------------------------------------
  // Accepting an order
  // --------------------------------------------------------------------------

  function Elements(ids: seq<FormId>): set<FormId> {
    set x | x in ids
  }

  /** The FormIDs of a list of records without duplicates. */
  method DirectIdSet(cs: seq<Child>) returns (r: Result<set<FormId>>)
    ensures r.Ok? <==> AllRecords(cs) && Distinct(DirectIds(cs))
    ensures r.Ok? ==> r.value == Elements(DirectIds(cs))
    ensures r.Err? ==> r.error == InvalidGroupRecordOrder
  {
    var expected: set<FormId> := {};
    for i := 0 to |cs|
      invariant AllRecords(cs[..i])
      invariant Distinct(DirectIds(cs[..i])) && expected == Elements(DirectIds(cs[..i]))
    {
      if cs[i].GroupChild? {
        return Err(InvalidGroupRecordOrder);
      }
      var id := cs[i].record.header.formId;
      assert DirectIds(cs[..i + 1]) == DirectIds(cs[..i]) + [id];
      if id in expected {
        var j :| 0 <= j < i && DirectIds(cs[..i])[j] == id;
        assert AllRecords(cs) ==> DirectIds(cs)[j] == DirectIds(cs)[i];
        return Err(InvalidGroupRecordOrder);
      }
      expected := expected + {id};
    }
    assert cs[..|cs|] == cs;
    return Ok(expected);
  }

  /** The entries of an order, if they are distinct and all expected. */
  method SuppliedIdSet(ids: seq<FormId>, expected: set<FormId>) returns (r: Result<set<FormId>>)
    ensures r.Ok? <==> Distinct(ids) && Elements(ids) <= expected
    ensures r.Ok? ==> r.value == Elements(ids)
    ensures r.Err? ==> r.error == InvalidGroupRecordOrder
  {
    var supplied: set<FormId> := {};
    for i := 0 to |ids|
      invariant Distinct(ids[..i]) && supplied == Elements(ids[..i]) && supplied <= expected
    {
      assert ids[..i + 1] == ids[..i] + [ids[i]];
      if ids[i] in supplied {
        var j :| 0 <= j < i && ids[..i][j] == ids[i];
        return Err(InvalidGroupRecordOrder);
      }
      if ids[i] !in expected {
        assert ids[i] in Elements(ids);
        return Err(InvalidGroupRecordOrder);
      }
      supplied := supplied + {ids[i]};
    }
    assert ids[..|ids|] == ids;
    return Ok(supplied);
  }

  /** Distinct entries that exhaust the group's FormIDs are a permutation of them, and conversely. */
  lemma OrderFitsByElements(cs: seq<Child>, ids: seq<FormId>)
    requires AllRecords(cs) && Distinct(DirectIds(cs))
    ensures OrderFits(cs, ids) <==>
              Distinct(ids) && Elements(ids) <= Elements(DirectIds(cs)) && |Elements(ids)| == |Elements(DirectIds(cs))|
  {
    var direct: seq<FormId> := DirectIds(cs);
    if Distinct(ids) && Elements(ids) <= Elements(direct) && |Elements(ids)| == |Elements(direct)| {
      EqualBySize(Elements(ids), Elements(direct));
      forall x: FormId
        ensures Count(ids, x) == Count(direct, x)
      {
        CountInDistinct(ids, x);
        CountInDistinct(direct, x);
        assert x in Elements(ids) <==> x in Elements(direct);
      }
      SameCounts(ids, direct);
    }
    if OrderFits(cs, ids) {
      forall i, j | 0 <= i < j < |ids|
        ensures ids[i] != ids[j]
      {
        if ids[i] == ids[j] {
          TwiceInMultiset(ids, i, j);
          DistinctOnce(direct, ids[i]);
        }
      }
      forall x: FormId
        ensures x in Elements(ids) <==> x in Elements(direct)
      {
        assert x in ids <==> x in multiset(ids);
        assert x in direct <==> x in multiset(direct);
      }
      assert Elements(ids) == Elements(direct);
    }
  }

  ghost function Count(s: seq<FormId>, x: FormId): nat {
    multiset(s)[x]
  }

  lemma SameCounts(a: seq<FormId>, b: seq<FormId>)
    requires forall x: FormId :: Count(a, x) == Count(b, x)
    ensures multiset(a) == multiset(b)
  {
    forall x: FormId
      ensures multiset(a)[x] == Count(a, x) && multiset(b)[x] == Count(b, x)
    {
    }
  }

  lemma CountInDistinct(s: seq<FormId>, x: FormId)
    requires Distinct(s)
    ensures Count(s, x) == if x in Elements(s) then 1 else 0
  {
    DistinctOnce(s, x);
    assert x in s <==> x in multiset(s);
  }

  lemma TwiceInMultiset(ids: seq<FormId>, i: nat, j: nat)
    requires i < j < |ids| && ids[i] == ids[j]
    ensures multiset(ids)[ids[i]] >= 2
  {
    assert ids == ids[..i] + [ids[i]] + ids[i + 1..j] + [ids[j]] + ids[j + 1..];
  }

  lemma EqualBySize(a: set<FormId>, b: set<FormId>)
    requires a <= b && |a| == |b|
    ensures a == b
  {
    assert b == a + (b - a);
    assert |b| == |a| + |b - a|;
  }

  // --------------------------------------------------------------------------
  // Writing groups and records
  // --------------------------------------------------------------------------

  /** `emitted` is what was appended to `before`, or the error that stopped it. */
  ghost predicate Emits(before: Bytes, after: Bytes, r: Result<()>, emitted: Result<Bytes>) {
    match r
    case Ok(_) => emitted.Ok? && after == before + emitted.value
    case Err(e) => emitted == Err(e)
  }

  method WriteRecord(record: Record, job: Job, writer: ByteBuffer) returns (r: Result<()>)
    modifies writer
    ensures Emits(old(writer.bytes), writer.bytes, r, RecordOut(record, job))
  {
    if record.header.formId in job.edits.patches {
      writer.Append(job.edits.patches[record.header.formId]);
      return Ok(());
    }
    var bytes :- SourceSlice(job.source, record.range);
    writer.Append(bytes);
    return Ok(());
  }

  method WriteGroupHeader(group: Group, newGroupSize: U32, writer: ByteBuffer)
    modifies writer
    ensures writer.bytes == old(writer.bytes) + GroupHeaderBytes(group.header, newGroupSize)
  {
    hide Le32, LabelBytes;
    ghost var before := writer.bytes;
    var labelBytes := LabelBytes(group.header.groupLabel);
    var typeRaw := TypeToRaw(group.header.groupType);
    writer.Append(GRUP);
    writer.Append(Le32(newGroupSize));
    writer.Append(labelBytes);
    writer.Append(Le32(FromI32(typeRaw)));
    writer.Append(Le32(group.header.versionControl));
    writer.Append(Le32(group.header.unknown));
    assert writer.bytes == before + GroupHeaderBytes(group.header, newGroupSize);
  }

  ghost function AfterBytes(done: Bytes, rest: Result<Bytes>): Result<Bytes> {
    match rest
    case Ok(b) => Ok(done + b)
    case Err(e) => Err(e)
  }

  lemma StartOut(rest: Result<Bytes>)
    ensures AfterBytes([], rest) == rest
  {
    if rest.Ok? {
      assert [] + rest.value == rest.value;
    }
  }

  lemma AfterTwice(done: Bytes, first: Result<Bytes>, rest: Result<Bytes>)
    ensures first.Ok? ==> AfterBytes(done, AfterBytes(first.value, rest)) == AfterBytes(done + first.value, rest)
  {
    if first.Ok? && rest.Ok? {
      Assoc(done, first.value, rest.value);
    }
  }

  lemma OutStep(cs: seq<Child>, i: nat, job: Job)
    requires i < |cs|
    ensures ChildrenOut(cs[i..], job)
         == match ChildOut(cs[i], job)
            case Err(e) => Err(e)
            case Ok(first) => AfterBytes(first, ChildrenOut(cs[i + 1..], job))
  {
    hide ChildOut;
    assert cs[i..][1..] == cs[i + 1..];
  }

  lemma OrderedStep(cs: seq<Child>, ids: seq<FormId>, i: nat, job: Job)
    requires i < |ids|
    ensures OrderedOut(cs, ids[i..], job)
         == match PickRecord(cs, ids[i])
            case None => Err(InvalidGroupRecordOrder)
            case Some(record) =>
              match RecordOut(record, job)
              case Err(e) => Err(e)
              case Ok(first) => AfterBytes(first, OrderedOut(cs, ids[i + 1..], job))
  {
    hide PickRecord, RecordOut;
    assert ids[i..][1..] == ids[i + 1..];
  }

  method WriteOrdered(cs: seq<Child>, order: seq<FormId>, job: Job, writer: ByteBuffer) returns (r: Result<()>)
    modifies writer
    ensures Emits(old(writer.bytes), writer.bytes, r, OrderedOut(cs, order, job))
  {
    hide OrderedOut, RecordOut;
    ghost var before := writer.bytes;
    ghost var done: Bytes := [];
    assert order[0..] == order;
    StartOut(OrderedOut(cs, order, job));
    for i := 0 to |order|
      invariant writer.bytes == before + done
      invariant OrderedOut(cs, order, job) == AfterBytes(done, OrderedOut(cs, order[i..], job))
    {
      OrderedStep(cs, order, i, job);
      var record := PickRecord(cs, order[i]);
      if record.None? {
        return Err(InvalidGroupRecordOrder);
      }
      AfterTwice(done, RecordOut(record.value, job), OrderedOut(cs, order[i + 1..], job));
      var _ :- WriteRecord(record.value, job, writer);
      ghost var emitted := RecordOut(record.value, job).value;
      Assoc(before, done, emitted);
      done := done + emitted;
    }
    assert order[|order|..] == [];
    NothingOrdered(cs, job);
    assert done + [] == done;
    return Ok(());
  }

  lemma NothingOrdered(cs: seq<Child>, job: Job)
    ensures OrderedOut(cs, [], job) == Ok([])
  {
  }

  /** Copies an untouched group verbatim, re-emits a touched one with its new size. */
  method WriteGroup(group: Group, job: Job, writer: ByteBuffer) returns (r: Result<()>)
    requires job.walk.Only?
    modifies writer
    ensures Emits(old(writer.bytes), writer.bytes, r, GroupOut(group, job))
    decreases group
  {
    hide OrderedOut, GroupHeaderBytes, PickRecord;
    ghost var before := writer.bytes;
    if group.range.Some? && group.range.value !in job.walk.touched {
      var bytes :- SourceSlice(job.source, group.range);
      writer.Append(bytes);
      return Ok(());
    }
    var childrenBuf := new ByteBuffer();
    if IsOrdered(group, job.edits.orders) {
      var _ :- WriteOrdered(group.children, job.edits.orders[group.range.value], job, childrenBuf);
    } else {
      ghost var cs := group.children;
      assert cs[0..] == cs;
      StartOut(ChildrenOut(cs, job));
      for i := 0 to |group.children|
        invariant fresh(childrenBuf) && writer.bytes == before
        invariant ChildrenOut(cs, job) == AfterBytes(childrenBuf.bytes, ChildrenOut(cs[i..], job))
      {
        OutStep(cs, i, job);
        AfterTwice(childrenBuf.bytes, ChildOut(cs[i], job), ChildrenOut(cs[i + 1..], job));
        match group.children[i] {
          case RecordChild(record) => var _ :- WriteRecord(record, job, childrenBuf);
          case GroupChild(child) => var _ :- WriteGroup(child, job, childrenBuf);
        }
      }
      assert cs[|cs|..] == [];
      assert childrenBuf.bytes + [] == childrenBuf.bytes;
    }
    var newGroupSize := AsU32(GROUP_HEADER_SIZE + |childrenBuf.bytes|);
    WriteGroupHeader(group, newGroupSize, writer);
    writer.Append(childrenBuf.bytes);
    Assoc(before, GroupHeaderBytes(group.header, newGroupSize), childrenBuf.bytes);
    return Ok(());
  }
}
