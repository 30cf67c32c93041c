/** The rewritten header record of a parsed plugin, read back by the plugin parser. */
module HeaderTheorem {
  import opened Wire
  import opened Records
  import opened Subrecords
  import opened Groups
  import opened Games
  import opened Plugins
  import opened Traversal
  import opened Flags
  import opened HeaderRewrite
  import opened HeaderReparse

  ghost predicate Parsed(env: Env, plugin: Plugin) {
    PluginOf(env, plugin.game, plugin.source) == Ok(plugin)
  }

  /** The HEDR subrecord whose counters the writer can overwrite. */
  ghost predicate UsableHedr(env: Env, plugin: Plugin) {
    && SubrecordsIn(env, plugin.header.record).Ok?
    && var hedr := First(SubrecordsIn(env, plugin.header.record).value, HEDR);
       hedr.Some? && |hedr.value.data| >= 12
  }

  function OwnIndex(plugin: Plugin, patch: HeaderPatch): nat {
    |patch.masters.GetOr(plugin.header.masters)|
  }

  /** The record the writer emits for the plugin header. */
  ghost function UpdatedRecord(env: Env, plugin: Plugin, patch: HeaderPatch): Record
    requires UpdatedHeaderOf(env, plugin, patch).Ok?
  {
    var record := plugin.header.record;
    var payload := UpdatedPayloadOf(env, plugin, patch).value;
    var flags := PatchedFlags(record.header.flags, patch);
    if KeepsCompressed(env, plugin, flags, payload)
    then Record(record.header.(flags := flags), None, record.data)
    else Record(record.header.(dataSize := AsU32(|payload|), flags := ClearCompressed(flags)), None, Raw(payload))
  }

  lemma ParsedHeaderRecord(env: Env, plugin: Plugin)
    requires Parsed(env, plugin)
    ensures var bytes := RecordBytes(plugin.header.record);
            SourceSlice(plugin.source, Some(plugin.headerRange)) == Ok(bytes) && plugin.headerRange == Range(0, |bytes|)
            && Holds(plugin.source, 0, bytes)
    ensures RecordOk(plugin.header.record) && plugin.header.record.range == None
    ensures plugin.header.record.header.signature == HeaderSignature(plugin.game)
    ensures SubrecordsIn(env, plugin.header.record).Ok?
    ensures HeaderOf(env, plugin.game, plugin.header.record) == Ok(plugin.header)
  {
    hide RecordBytes, RecordOk, TopGroupsAt, RecordAt, SubrecordsIn;
    var parsed := RecordAt(plugin.source, 0).value;
    RecordInverse(plugin.source, 0, parsed.0, parsed.1);
  }

  lemma ParsedStands(env: Env, plugin: Plugin)
    requires Parsed(env, plugin)
    ensures AllStandAt(plugin.source, plugin.headerRange.end, AsChildren(plugin.groups))
    ensures plugin.source == RecordBytes(plugin.header.record) + ChildrenBytes(AsChildren(plugin.groups))
  {
    hide RecordBytes, ChildrenBytes, AllStandAt, RecordAt, HeaderOf, TopGroupsAt;
    ParsedHeaderRecord(env, plugin);
    var p := plugin.headerRange.end;
    TopGroupsInverse(plugin.source, p, plugin.groups);
    StandingHolds(plugin.source, p, AsChildren(plugin.groups));
    assert plugin.source == plugin.source[..p] + plugin.source[p..];
  }

  lemma StandingHolds(s: Bytes, p: nat, cs: seq<Child>)
    requires AllStandAt(s, p, cs)
    ensures Holds(s, p, ChildrenBytes(cs)) && ChildrenOk(cs)
  {
  }

  /** Overwriting size and flags of printed header bytes prints the changed header. */
  lemma PatchedHeadBytes(h: RecordHeader, size: U32, flags: U32)
    ensures PatchedHead(HeaderBytes(h), size, flags) == HeaderBytes(h.(dataSize := size, flags := flags))
    ensures U32At(HeaderBytes(h), 8) == h.flags
  {
    hide Le16, Le32, U32At;
    var rest := Le32(h.formId) + (Le32(h.versionControl) + (Le16(h.formVersion) + Le16(h.unknown)));
    var head := HeaderBytes(h);
    assert head == h.signature + (Le32(h.dataSize) + (Le32(h.flags) + rest));
    assert head[..4] == h.signature && head[8..12] == Le32(h.flags) && head[12..] == rest;
    Word32(head, 8, h.flags);
  }

  /** The emitted header is the printed updated record. */
  lemma HeaderIsPrinted(env: Env, plugin: Plugin, patch: HeaderPatch)
    requires Parsed(env, plugin) && UpdatedHeaderOf(env, plugin, patch).Ok?
    ensures var updated := UpdatedRecord(env, plugin, patch);
            UpdatedHeaderOf(env, plugin, patch) == Ok(RecordBytes(updated)) && RecordOk(updated)
  {
    hide UpdatedPayloadOf, PatchedFlags, HasBit, ClearCompressed, HeaderBytes, PatchedHead, U32At, Parsed, HeaderOf, SubrecordsIn;
    ParsedHeaderRecord(env, plugin);
    var record := plugin.header.record;
    var source := RecordBytes(record);
    assert source[..24] == HeaderBytes(record.header) && source[24..] == DataBytes(record.data);
    var updated := UpdatedRecord(env, plugin, patch);
    PatchedHeadBytes(record.header, updated.header.dataSize, updated.header.flags);
    FlagsWord(source);
  }

  /** The emitted header parses, in front of anything, as the updated record. */
  lemma HeaderRecordReparse(env: Env, plugin: Plugin, patch: HeaderPatch, rest: Bytes)
    requires Parsed(env, plugin) && UpdatedHeaderOf(env, plugin, patch).Ok?
    ensures var h := UpdatedHeaderOf(env, plugin, patch).value;
            RecordAt(h + rest, 0) == Ok((UpdatedRecord(env, plugin, patch), |h|))
    ensures RawData(env, UpdatedRecord(env, plugin, patch)) == Ok(UpdatedPayloadOf(env, plugin, patch).value)
  {
    HeaderIsPrinted(env, plugin, patch);
    UpdatedRaw(env, plugin, patch);
    hide UpdatedRecord, UpdatedHeaderOf, RecordOk, RecordBytes, RecordAt, Parsed, RawData, UpdatedPayloadOf;
    var updated := UpdatedRecord(env, plugin, patch);
    var h := RecordBytes(updated);
    assert (h + rest)[0..0 + |h|] == h;
    RecordInverse(h + rest, 0, updated, |h|);
  }

  lemma UpdatedRaw(env: Env, plugin: Plugin, patch: HeaderPatch)
    requires UpdatedHeaderOf(env, plugin, patch).Ok?
    ensures RawData(env, UpdatedRecord(env, plugin, patch)) == Ok(UpdatedPayloadOf(env, plugin, patch).value)
  {
    hide UpdatedPayloadOf, PatchedFlags, HasBit, ClearCompressed, PatchedHead, U32At;
  }

  lemma FlagsWord(source: Bytes)
    requires |source| >= 24
    ensures U32At(source, 8) == U32At(source[..24], 8)
  {
  }

  lemma CountersReadBack(d: Bytes, recordCount: U32, nextId: U32)
    requires |d| >= 12
    ensures var c := WithCounters(d, recordCount, nextId);
            c[..4] == d[..4] && U32At(c, 4) == recordCount && U32At(c, 8) == nextId
  {
    hide Le32, U32At;
    var c := WithCounters(d, recordCount, nextId);
    assert c[4..8] == Le32(recordCount) && c[8..12] == Le32(nextId);
    Word32(c, 4, recordCount);
    Word32(c, 8, nextId);
  }

  /** The header a reader gets: counters and requested fields new, the version kept. */
  ghost function UpdatedHeader(env: Env, plugin: Plugin, patch: HeaderPatch): PluginHeader
    requires UpdatedHeaderOf(env, plugin, patch).Ok?
  {
    var cs := AsChildren(plugin.groups);
    PluginHeader(
      UpdatedRecord(env, plugin, patch),
      plugin.header.hedrVersion,
      AsU32(NodeCount(cs)),
      AsU32(NextId(plugin.header.nextObjectId, cs, OwnIndex(plugin, patch))),
      if patch.masters.Some? then Texts(env, MasterSubs(patch.masters.value), MAST) else plugin.header.masters,
      if patch.description.Some? then DescriptionOf(env, [StringSub(SNAM, patch.description.value)])
      else plugin.header.description)
  }

  /** The counters and texts the writer puts in. */
  ghost function TheEdit(plugin: Plugin, patch: HeaderPatch): FrameEdit {
    var cs := AsChildren(plugin.groups);
    FrameEdit(AsU32(NodeCount(cs)), AsU32(NextId(plugin.header.nextObjectId, cs, OwnIndex(plugin, patch))),
              patch.masters, patch.description)
  }

  lemma PayloadIsEdited(env: Env, plugin: Plugin, patch: HeaderPatch)
    requires UpdatedPayloadOf(env, plugin, patch).Ok?
    ensures var e, original := TheEdit(plugin, patch), RawData(env, plugin.header.record);
            original.Ok? && FramesOf(original.value, [], None).Ok?
            && var fs := FramesOf(original.value, [], None).value;
               EditFrames(fs.frames, e, START).Ok?
               && UpdatedPayloadOf(env, plugin, patch) == Ok(RawBytes(EditFrames(fs.frames, e, START).value) + fs.tail)
    ensures NodeCount(AsChildren(plugin.groups)) <= MAX_COUNT
  {
    hide FramesOf, RawBytes, NodeCount, OwnedEnd, EditFrames, RawData;
    OwnedEndBound(AsChildren(plugin.groups), OwnIndex(plugin, patch));
  }

  lemma UpdatedSubs(env: Env, plugin: Plugin, patch: HeaderPatch)
    requires Parsed(env, plugin) && UpdatedHeaderOf(env, plugin, patch).Ok?
    requires TextsFit(patch.masters, patch.description)
    ensures SubrecordsIn(env, plugin.header.record).Ok?
    ensures var subs := SubrecordsIn(env, plugin.header.record).value;
            SubrecordsIn(env, UpdatedRecord(env, plugin, patch)) == Ok(EditSubs(subs, TheEdit(plugin, patch), START))
            && First(subs, HEDR).Some? && |First(subs, HEDR).value.data| >= 12
  {
    hide FramesOf, RawBytes, EditFrames, TextsFit, Parsed, RawData, UpdatedPayloadOf, EditSubs, First, TheEdit;
    hide PatchedFlags, ClearCompressed, PatchedHead, KeepsCompressed;
    HeaderRecordReparse(env, plugin, patch, []);
    PayloadIsEdited(env, plugin, patch);
    var e, original := TheEdit(plugin, patch), RawData(env, plugin.header.record).value;
    assert e.masters == patch.masters && e.description == patch.description by {
      EditTexts(plugin, patch);
    }
    var fs := FramesOf(original, [], None).value;
    PayloadReparse(original, e);
    EditedFramesSubs(fs.frames, e, START);
    FramesEndWithPayload(original, [], None);
    EditFramesSucceed(fs.frames, e, START);
  }

  lemma EditTexts(plugin: Plugin, patch: HeaderPatch)
    ensures TheEdit(plugin, patch).masters == patch.masters && TheEdit(plugin, patch).description == patch.description
  {
  }

  /** Reading the rewritten header yields the new counters and texts and the old version. */
  lemma HeaderReadsBack(env: Env, plugin: Plugin, patch: HeaderPatch)
    requires Parsed(env, plugin) && UpdatedHeaderOf(env, plugin, patch).Ok?
    requires TextsFit(patch.masters, patch.description)
    ensures HeaderOf(env, plugin.game, UpdatedRecord(env, plugin, patch)) == Ok(UpdatedHeader(env, plugin, patch))
    ensures NodeCount(AsChildren(plugin.groups)) <= MAX_COUNT
  {
    hide NodeCount, NextId, EditSubs, WithCounters, MasterSubs, Texts, First, SubrecordsIn, U32At;
    hide PatchedFlags, ClearCompressed, PatchedHead, KeepsCompressed, UpdatedHeaderOf, UpdatedPayloadOf, Parsed;
    ParsedHeaderRecord(env, plugin);
    UpdatedSubs(env, plugin, patch);
    PayloadIsEdited(env, plugin, patch) by {
      UpdatedPayloadOk(env, plugin, patch);
    }
    var subs, e := SubrecordsIn(env, plugin.header.record).value, TheEdit(plugin, patch);
    EditedHedr(subs, e, START);
    EditedMasters(env, subs, e, START);
    EditedDescription(subs, e, START);
    CountersReadBack(First(subs, HEDR).value.data, e.recordCount, e.nextId);
    FirstOfOne(StringSub(SNAM, patch.description.GetOr([])));
  }

  lemma UpdatedPayloadOk(env: Env, plugin: Plugin, patch: HeaderPatch)
    requires UpdatedHeaderOf(env, plugin, patch).Ok?
    ensures UpdatedPayloadOf(env, plugin, patch).Ok?
  {
  }

  lemma FirstOfOne(sub: SubRecord)
    ensures First([sub], sub.signature) == Some(sub)
  {
  }

  /** For a plugin small enough to count, the header can be rewritten exactly when its HEDR is usable. */
  lemma HeaderWritable(env: Env, plugin: Plugin, patch: HeaderPatch)
    requires Parsed(env, plugin)
    ensures UpdatedPayloadOf(env, plugin, patch).Ok?
            <==> UsableHedr(env, plugin) && NodeCount(AsChildren(plugin.groups)) <= 0xFFFF_FFFF
  {
    hide FramesOf, RawBytes, NodeCount, OwnedEnd, EditFrames, Parsed, First;
    ParsedHeaderRecord(env, plugin);
    var cs := AsChildren(plugin.groups);
    OwnedEndBound(cs, OwnIndex(plugin, patch));
    var original := RawData(env, plugin.header.record).value;
    FramesEndWithPayload(original, [], None);
    if NodeCount(cs) <= MAX_COUNT {
      var e := FrameEdit(NodeCount(cs), NextId(plugin.header.nextObjectId, cs, OwnIndex(plugin, patch)),
                         patch.masters, patch.description);
      EditFramesSucceed(FramesOf(original, [], None).value.frames, e, START);
    }
  }

  // --------------------------------------------------------------------------
  // What the counters mean
  // --------------------------------------------------------------------------

  /** The next ID lies above every owned object ID, and is no larger than it has to be. */
  lemma {:induction false} OwnedEndIsLeast(cs: seq<Child>, own: nat)
    ensures forall r :: r in Flatten(cs) && FileIndex(r.header.formId) == own ==> ObjectId(r.header.formId) < OwnedEnd(cs, own)
    ensures OwnedEnd(cs, own) == 0 || exists r :: r in Flatten(cs) && FileIndex(r.header.formId) == own
                                                   && OwnedEnd(cs, own) == ObjectId(r.header.formId) + 1
    decreases cs, 0
  {
    hide FileIndex, ObjectId;
    if cs != [] {
      ChildOwnedEndIsLeast(cs[0], own);
      OwnedEndIsLeast(cs[1..], own);
    }
  }

  lemma {:induction false} ChildOwnedEndIsLeast(c: Child, own: nat)
    ensures forall r :: r in FlattenChild(c) && FileIndex(r.header.formId) == own ==> ObjectId(r.header.formId) < ChildOwnedEnd(c, own)
    ensures ChildOwnedEnd(c, own) == 0 || exists r :: r in FlattenChild(c) && FileIndex(r.header.formId) == own
                                                       && ChildOwnedEnd(c, own) == ObjectId(r.header.formId) + 1
    decreases c, 0
  {
    match c {
      case RecordChild(r) => assert r in FlattenChild(c);
      case GroupChild(g) => OwnedEndIsLeast(g.children, own);
    }
  }
}
