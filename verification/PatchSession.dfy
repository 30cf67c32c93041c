/**
 The owned patch session of the foreign-function layer: which replacements it
 accepts, and why every session can be written and read back.
 */
module PatchSession {
  import opened Wire
  import opened Buffer
  import opened Records
  import opened Subrecords
  import opened Groups
  import opened Games
  import opened Plugins
  import opened Traversal
  import opened Flags
  import opened Edits
  import opened FastPath
  import opened Marking
  import opened HeaderRewrite
  import opened HeaderReparse
  import opened HeaderTheorem
  import opened RegisteredOrders
  import opened Patcher
  import opened PatchedPlugin
  import opened EditMeaning
  import opened Writable

  datatype Verdict = Accepted | Unsupported | NoSuchRecord | IdentityChanged

  /** Whether a replacement may be registered, in the order of the checks. */
  function Judge(plugin: Plugin, id: FormId, record: WritableRecord): Verdict {
    var source := FirstWith(Flatten(AsChildren(plugin.groups)), id);
    if plugin.game == Morrowind then Unsupported
    else if source.None? then NoSuchRecord
    else if record.formId != id || source.value.header.signature != record.signature then IdentityChanged
    else Accepted
  }

  /** The uncompressed copy that is serialised. */
  function Copied(record: WritableRecord): WritableRecord {
    record.(flags := ClearCompressed(record.flags))
  }

  /** The replacement record: the new contents with the revision metadata of the old header. */
  function Replacement(source: Record, record: WritableRecord): Record {
    Record(WrittenHeader(Copied(record)).(versionControl := source.header.versionControl, unknown := source.header.unknown),
           None, Raw(SubRecordsBytes(record.subrecords)))
  }

  /** The replacement bytes as they are put together: bytes 16..20 and 22..24 come from the source. */
  function Overwritten(bytes: Bytes, original: Bytes): (b: Bytes)
    requires |bytes| >= 24 && |original| >= 24
    ensures |b| == |bytes|
  {
    bytes[..16] + original[16..20] + bytes[20..22] + original[22..24] + bytes[24..]
  }

  // --------------------------------------------------------------------------
  // The session
  // --------------------------------------------------------------------------

  /** Every patch is one whole record with the FormID it is registered for and the kind of the record it replaces. */
  ghost predicate SessionOk(plugin: Plugin, patches: map<FormId, Bytes>) {
    forall id :: id in patches ==> PatchOk(plugin, id, patches[id])
  }

  ghost predicate PatchOk(plugin: Plugin, id: FormId, b: Bytes) {
    && ExactPatch(b)
    && var source := FirstWith(Flatten(AsChildren(plugin.groups)), id);
       var replacement := RecordAt(b, 0).value.0;
       source.Some?
       && replacement.header.formId == id
       && replacement.header.signature == source.value.header.signature
       && replacement.header.versionControl == source.value.header.versionControl
       && replacement.header.unknown == source.value.header.unknown
       && replacement.data.Raw?
  }

  class BethkitPluginPatcher {
    const env: Env
    const plugin: Plugin
    var patches: map<FormId, Bytes>

    ghost predicate Valid()
      reads this
    {
      Parsed(env, plugin)
    }

    constructor (env: Env, plugin: Plugin)
      requires Parsed(env, plugin)
      ensures Valid() && SessionOk(plugin, patches)
      ensures this.env == env && this.plugin == plugin && patches == map[]
    {
      this.env := env;
      this.plugin := plugin;
      patches := map[];
    }

    /**
     Registers a replacement for an existing record, or says why not and changes
     nothing. The session stays sound as long as the payload fits its size field.
     */
    method ReplaceRecord(id: FormId, record: WritableRecord) returns (verdict: Verdict)
      requires Valid()
      modifies this`patches
      ensures Valid()
      ensures old(SessionOk(plugin, patches)) && |SubRecordsBytes(record.subrecords)| < 0x1_0000_0000 ==> SessionOk(plugin, patches)
      ensures verdict == Judge(plugin, id, record)
      ensures verdict.Accepted? ==>
                exists source :: FirstWith(Flatten(AsChildren(plugin.groups)), id) == Some(source)
                                 && patches == old(patches)[id := RecordBytes(Replacement(source, record))]
      ensures !verdict.Accepted? ==> patches == old(patches)
    {
      hide Flatten, FirstWith, RecordBytes, RecordAt, WrittenRecord, Parsed;
      if plugin.game == Morrowind {
        return Unsupported;
      }
      var found := FindRecord(plugin.groups, id);
      if found.None? {
        return NoSuchRecord;
      }
      var source := found.value;
      if record.formId != id || source.header.signature != record.signature {
        return IdentityChanged;
      }
      var copied := Copied(record);
      var buf := new ByteBuffer();
      Writable.WriteRecord(copied, buf);
      var bytes := buf.bytes;
      assert bytes == WrittenRecord(copied);
      var original := SourceSlice(plugin.source, source.range);
      SourceRecord(env, plugin, id);
      ReplacementBytes(source, record);
      if original.Ok? {
        bytes := Overwritten(bytes, original.value);
      }
      assert bytes == RecordBytes(Replacement(source, record));
      patches := patches[id := bytes];
      return Accepted;
    }

    /** Serialises the session: a plain patcher run with these record patches. */
    method ToBytes() returns (r: Result<Bytes>)
      requires Valid()
      ensures patches == map[] ==> r == Ok(plugin.source)
      ensures patches != map[] ==> r == WholeOut(env, plugin, Edits(patches, map[]), None)
    {
      hide WholeOut, SessionOk, Parsed;
      var patcher := new PluginPatcher(env, plugin);
      var ids := patches.Keys;
      while ids != {}
        invariant fresh(patcher) && ids <= patches.Keys && patcher.groupOrders == map[] && patcher.headerPatch == None
        invariant patcher.plugin == plugin && patcher.env == env
        invariant patcher.patches == map id | id in patches && id !in ids :: patches[id]
        decreases |ids|
      {
        var id :| id in ids;
        patcher.ReplaceRecord(id, patches[id]);
        ids := ids - {id};
      }
      assert patcher.patches == patches;
      assert patches == map[] <==> patcher.patches == map[];
      var writer := new ByteBuffer();
      var done := patcher.WriteTo(writer);
      assert [] + plugin.source == plugin.source;
      ghost var out := WholeOut(env, plugin, Edits(patches, map[]), None);
      assert out.Ok? ==> [] + out.value == out.value;
      return match done
        case Ok(_) => Ok(writer.bytes)
        case Err(e) => Err(e);
    }
  }

  // --------------------------------------------------------------------------
  // Why a replacement is sound
  // --------------------------------------------------------------------------

  /** A record found by the scan stands somewhere in the source. */
  lemma {:induction false} FoundStands(s: Bytes, p: nat, cs: seq<Child>, id: FormId) returns (at: nat)
    requires AllStandAt(s, p, cs) && FirstWith(Flatten(cs), id).Some?
    ensures StandsAt(s, at, RecordChild(FirstWith(Flatten(cs), id).value))
    decreases cs, 0
  {
    hide ChildBytes, StandsAt, AllStandAt, FlattenChild, FirstWith;
    if cs == [] {
      FirstOfNothing(id);
      assert false;
    } else {
      StandingList(s, p, cs);
      FirstWithConcat(FlattenChild(cs[0]), Flatten(cs[1..]), id);
      if FirstWith(FlattenChild(cs[0]), id).Some? {
        at := FoundStandsIn(s, p, cs[0], id);
      } else {
        at := FoundStands(s, p + |ChildBytes(cs[0])|, cs[1..], id);
      }
    }
  }

  lemma {:induction false} FoundStandsIn(s: Bytes, p: nat, c: Child, id: FormId) returns (at: nat)
    requires StandsAt(s, p, c) && FirstWith(FlattenChild(c), id).Some?
    ensures StandsAt(s, at, RecordChild(FirstWith(FlattenChild(c), id).value))
    decreases c, 0
  {
    hide StandsAt, AllStandAt;
    match c {
      case RecordChild(r) => at := p;
      case GroupChild(g) =>
        StandingGroup(s, p, g);
        at := FoundStands(s, p + 24, g.children, id);
    }
  }

  lemma SourceRecord(env: Env, plugin: Plugin, id: FormId)
    requires Parsed(env, plugin) && FirstWith(Flatten(AsChildren(plugin.groups)), id).Some?
    ensures var source := FirstWith(Flatten(AsChildren(plugin.groups)), id).value;
            SourceSlice(plugin.source, source.range) == Ok(RecordBytes(source)) && RecordOk(source)
            && source.header.formId == id && |RecordBytes(source)| >= 24
  {
    hide Parsed, AllStandAt, StandsAt, Flatten, FirstWith, RecordBytes, RecordOk;
    ParsedStands(env, plugin);
    var cs := AsChildren(plugin.groups);
    var at := FoundStands(plugin.source, plugin.headerRange.end, cs, id);
    StandingRecord(plugin.source, at, FirstWith(Flatten(cs), id).value);
    FirstWithMeaning(Flatten(cs), id);
    PrintedLength(FirstWith(Flatten(cs), id).value);
  }

  lemma PrintedLength(r: Record)
    ensures |RecordBytes(r)| >= 24
  {
  }

  /** The spliced bytes are the printed replacement, which the parser consumes exactly if its size field can hold its size. */
  lemma ReplacementBytes(source: Record, record: WritableRecord)
    requires source.header.signature == record.signature && RecordOk(source)
    ensures var r := Replacement(source, record);
            Overwritten(WrittenRecord(Copied(record)), RecordBytes(source)) == RecordBytes(r)
            && (|SubRecordsBytes(record.subrecords)| < 0x1_0000_0000 ==> RecordAt(RecordBytes(r), 0) == Ok((r, |RecordBytes(r)|)))
  {
    hide Le16, Le32, SubRecordsBytes, RecordAt, DataBytes, ClearCompressed;
    var r := Replacement(source, record);
    var w := WrittenHeader(Copied(record));
    HeaderSplice(w, source.header);
    var written, original := WrittenRecord(Copied(record)), RecordBytes(source);
    assert written[..24] == HeaderBytes(w) && original[..24] == HeaderBytes(source.header);
    assert Overwritten(written, original) == Overwritten(written[..24], original[..24]) + written[24..];
    assert DataBytes(Raw(SubRecordsBytes(record.subrecords))) == SubRecordsBytes(record.subrecords) by {
      RawBlock(SubRecordsBytes(record.subrecords));
    }
    var b := RecordBytes(r);
    assert b[0..0 + |b|] == b;
    RecordInverse(b, 0, r, |b|);
  }

  lemma RawBlock(b: Bytes)
    ensures DataBytes(Raw(b)) == b
  {
  }

  lemma HeaderSplice(w: RecordHeader, source: RecordHeader)
    ensures Overwritten(HeaderBytes(w), HeaderBytes(source))
         == HeaderBytes(w.(versionControl := source.versionControl, unknown := source.unknown))
  {
    hide Le16, Le32;
    var h := HeaderBytes(w);
    var o := HeaderBytes(source);
    assert h[..16] == w.signature + (Le32(w.dataSize) + (Le32(w.flags) + Le32(w.formId)));
    assert o[16..20] == Le32(source.versionControl) && h[20..22] == Le16(w.formVersion);
    assert o[22..24] == Le16(source.unknown) && h[24..] == [];
  }

  // --------------------------------------------------------------------------
  // What a session writes
  // --------------------------------------------------------------------------

  lemma SessionPatches(plugin: Plugin, patches: map<FormId, Bytes>)
    requires SessionOk(plugin, patches)
    ensures ExactPatches(patches) && KeepsIds(patches)
  {
    hide RecordAt, Flatten, FirstWith;
    forall id | id in patches
      ensures ExactPatch(patches[id]) && RecordAt(patches[id], 0).value.0.header.formId == id
    {
      assert PatchOk(plugin, id, patches[id]);
    }
  }

  /** A patch for a record that exists marks the groups around it. */
  lemma {:induction false} FoundIsPatched(cs: seq<Child>, id: FormId, patches: map<FormId, Bytes>)
    requires id in patches && FirstWith(Flatten(cs), id).Some?
    ensures AnyPatched(cs, patches)
    decreases cs, 0
  {
    hide FirstWith;
    if cs == [] {
      FirstOfNothing(id);
    } else {
      FirstWithConcat(FlattenChild(cs[0]), Flatten(cs[1..]), id);
      if FirstWith(FlattenChild(cs[0]), id).None? {
        FoundIsPatched(cs[1..], id, patches);
      } else {
        FoundChildIsPatched(cs[0], id, patches);
      }
    }
  }

  lemma {:induction false} FoundChildIsPatched(c: Child, id: FormId, patches: map<FormId, Bytes>)
    requires id in patches && FirstWith(FlattenChild(c), id).Some?
    ensures HasPatched(c, patches)
    decreases c, 0
  {
    match c {
      case RecordChild(r) =>
        FirstOfCons(r, [], id);
        FirstOfNothing(id);
        assert [r] + [] == [r];
      case GroupChild(g) => FoundIsPatched(g.children, id, patches);
    }
  }

  lemma {:induction false} PatchedIsMarked(s: Bytes, p: nat, gs: seq<Group>, e: Edits)
    requires AllStandAt(s, p, AsChildren(gs)) && AnyPatched(AsChildren(gs), e.patches)
    ensures AllMarks(gs, e) != {}
    decreases |gs|
  {
    hide StandsAt, AllStandAt, HasPatched, PatchMarksIn, OrderMarks, ChildBytes;
    var cs := AsChildren(gs);
    StandingList(s, p, cs);
    assert cs[1..] == AsChildren(gs[1..]);
    if HasPatched(cs[0], e.patches) {
      StandingGroup(s, p, gs[0]);
      assert gs[0].range.value in PatchMarks(cs[0], e.patches);
    } else {
      PatchedIsMarked(s, p + |ChildBytes(cs[0])|, gs[1..], e);
    }
  }

  /** The record a reader of the output finds under a FormID. */
  ghost predicate SameRecord(a: Record, b: Record) {
    a.header == b.header && a.data == b.data
  }

  lemma {:induction false} FirstWithMapped(rs: seq<Record>, out: seq<Record>, patches: map<FormId, Bytes>, id: FormId)
    requires KeepsIds(patches) && |out| == |rs|
    requires forall i :: 0 <= i < |rs| ==> SameRecord(out[i], EditedRecord(rs[i], patches))
    ensures FirstWith(out, id).Some? <==> FirstWith(rs, id).Some?
    ensures FirstWith(rs, id).Some? ==> SameRecord(FirstWith(out, id).value, EditedRecord(FirstWith(rs, id).value, patches))
    decreases |rs|
  {
    hide EditedRecord;
    if rs != [] {
      assert SameRecord(out[0], EditedRecord(rs[0], patches));
      EditedKeepsId(rs[0], patches);
      forall i | 0 <= i < |rs[1..]|
        ensures SameRecord(out[1..][i], EditedRecord(rs[1..][i], patches))
      {
        assert SameRecord(out[i + 1], EditedRecord(rs[i + 1], patches));
      }
      FirstWithMapped(rs[1..], out[1..], patches, id);
    }
  }

  /**
   A session with a replacement in it always rewrites. What it writes parses as
   the plugin with exactly the replaced records changed: looking a FormID up
   finds the replacement if there is one, else the old record.
   */
  lemma SessionReadsBack(env: Env, plugin: Plugin, patches: map<FormId, Bytes>)
    requires Parsed(env, plugin) && SessionOk(plugin, patches) && patches != map[]
    requires SizesFit(plugin.groups, Edits(patches, map[])) && UpdatedHeaderOf(env, plugin, NO_PATCH).Ok?
    ensures var out := WholeOut(env, plugin, Edits(patches, map[]), None);
            out.Ok? && PluginOf(env, plugin.game, out.value).Ok?
            && var groups := AsChildren(PluginOf(env, plugin.game, out.value).value.groups);
               forall id :: var was, now := FirstWith(Flatten(AsChildren(plugin.groups)), id), FirstWith(Flatten(groups), id);
                 (now.Some? <==> was.Some?)
                 && (now.Some? && id in patches ==> RecordBytes(now.value) == patches[id])
                 && (now.Some? && id !in patches ==> SameRecord(now.value, was.value))
  {
    hide Parsed, AllStandAt, Flatten, FirstWith, ChildrenOut, AllMarks, UpdatedHeaderOf, UpdatedRecord, UpdatedHeader,
         PatchedGroups, HeaderOf, RecordAt, TopGroupsAt, EditedChildren, LocateChildren, PluginOf, WholeOut, SizesFit, TopReached,
         RecordBytes, AllOrdersFit, ExactPatches, KeepsIds;
    var e, cs := Edits(patches, map[]), AsChildren(plugin.groups);
    SessionPatches(plugin, patches);
    NoOrdersFit(cs);
    AtMostOneOrderReached(env, plugin, e);
    var some :| some in patches;
    assert PatchOk(plugin, some, patches[some]);
    FoundIsPatched(cs, some, patches);
    ParsedStands(env, plugin);
    PatchedIsMarked(plugin.source, plugin.headerRange.end, plugin.groups, e);
    OutputReparses(env, plugin, e, None);
    var p := |UpdatedHeaderOf(env, plugin, NO_PATCH).value|;
    SessionRecords(plugin, patches, p);
  }

  lemma SessionRecords(plugin: Plugin, patches: map<FormId, Bytes>, p: nat)
    requires ExactPatches(patches) && KeepsIds(patches)
    ensures var groups := AsChildren(PatchedGroups(plugin, Edits(patches, map[]), p));
            forall id :: var was, now := FirstWith(Flatten(AsChildren(plugin.groups)), id), FirstWith(Flatten(groups), id);
              (now.Some? <==> was.Some?)
              && (now.Some? && id in patches ==> RecordBytes(now.value) == patches[id])
              && (now.Some? && id !in patches ==> SameRecord(now.value, was.value))
  {
    hide Flatten, FirstWith, RecordAt, EditedChildren, LocateChildren, RecordBytes, RecordOk, EditedRecord, KeepsIds;
    var e, cs := Edits(patches, map[]), AsChildren(plugin.groups);
    FlattenEdited(cs, patches);
    FlattenLocated(EditedChildren(cs, e), p);
    EditedGroupsStayGroups(plugin.groups, e, p);
    var rs, out := Flatten(cs), Flatten(LocateChildren(EditedChildren(cs, e), p));
    assert forall i :: 0 <= i < |rs| ==> SameRecord(out[i], EditedRecord(rs[i], patches));
    forall id
      ensures var was, now := FirstWith(rs, id), FirstWith(out, id);
              (now.Some? <==> was.Some?)
              && (now.Some? && id in patches ==> RecordBytes(now.value) == patches[id])
              && (now.Some? && id !in patches ==> SameRecord(now.value, was.value))
    {
      FirstWithMapped(rs, out, patches, id);
      FirstWithMeaning(rs, id);
      if FirstWith(rs, id).Some? {
        PatchBytes(FirstWith(rs, id).value, FirstWith(out, id).value, patches);
      }
    }
  }

  lemma PatchBytes(was: Record, now: Record, patches: map<FormId, Bytes>)
    requires ExactPatches(patches) && SameRecord(now, EditedRecord(was, patches))
    ensures was.header.formId in patches ==> RecordBytes(now) == patches[was.header.formId]
    ensures was.header.formId !in patches ==> SameRecord(now, was)
  {
    hide RecordAt, HeaderBytes;
    if was.header.formId in patches {
      var b := patches[was.header.formId];
      assert ExactPatch(b);
      var r := RecordAt(b, 0).value.0;
      RecordInverse(b, 0, r, |b|);
      assert b[0..0 + |b|] == b;
      assert RecordBytes(now) == RecordBytes(r);
    }
  }

  // --------------------------------------------------------------------------
  // Patches made from writable records
  // --------------------------------------------------------------------------

  /**
   A serialised writable record is a patch that the parser consumes exactly,
   unless it is called GRUP or claims compression over fewer than four bytes.
   */
  lemma WritablePatchExact(r: WritableRecord)
    requires |SubRecordsBytes(r.subrecords)| < 0x1_0000_0000
    ensures ExactPatch(WrittenRecord(r))
            <==> r.signature != GRUP && (HasBit(r.flags, COMPRESSED) ==> |SubRecordsBytes(r.subrecords)| >= 4)
  {
    hide HeaderBytes, SubRecordsBytes, HasBit, U32At, HeaderAt;
    var b, h := WrittenRecord(r), WrittenHeader(r);
    assert b[0..24] == HeaderBytes(h);
    HeaderWords(b, 0, h);
    assert |b[24..]| == |SubRecordsBytes(r.subrecords)|;
  }

  /**
   The bytes a session stores for a replacement: the new contents and the new
   flags without the compression bit, behind the revision metadata of the old header.
   */
  lemma ReplacementLayout(source: Record, record: WritableRecord)
    ensures var b := RecordBytes(Replacement(source, record));
            && |b| == 24 + |SubRecordsBytes(record.subrecords)|
            && b[..4] == record.signature && U32At(b, 12) == record.formId && U16At(b, 20) == record.formVersion
            && U32At(b, 16) == source.header.versionControl && U16At(b, 22) == source.header.unknown
            && U32At(b, 8) == record.flags - (if record.flags / 0x4_0000 % 2 == 1 then 0x4_0000 else 0)
            && b[24..] == SubRecordsBytes(record.subrecords)
  {
    hide U32At, U16At, HeaderBytes, SubRecordsBytes;
    var r := Replacement(source, record);
    var b := RecordBytes(r);
    assert b[0..24] == HeaderBytes(r.header) && b[0..4] == b[..4];
    HeaderWords(b, 0, r.header);
  }

  /** A replacement is refused for Morrowind, for an unknown FormID, and for a changed FormID or type, in that order. */
  lemma Verdicts(plugin: Plugin, id: FormId, record: WritableRecord)
    ensures var source := FirstWith(Flatten(AsChildren(plugin.groups)), id);
            var verdict := Judge(plugin, id, record);
            && (verdict.Accepted? <==> !plugin.game.Morrowind? && source.Some? && record.formId == id
                                       && record.signature == source.value.header.signature)
            && (verdict.Unsupported? <==> plugin.game.Morrowind?)
            && (verdict.NoSuchRecord? <==> !plugin.game.Morrowind? && source.None?)
  {
    hide Flatten, FirstWith;
  }
}
