/** What a reader finds in a plugin written from scratch, before and after light conversion. */
module WrittenPlugin {
  import opened Wire
  import opened Records
  import opened Subrecords
  import opened Groups
  import opened Games
  import opened Plugins
  import opened Traversal
  import opened HeaderRewrite
  import opened HeaderReparse
  import opened PatchedPlugin
  import opened Writable
  import opened Eslify
  import opened Writer

  // --------------------------------------------------------------------------
  // The groups
  // --------------------------------------------------------------------------

  ghost predicate EachFits(cs: seq<WritableChild>) {
    forall i :: 0 <= i < |cs| ==> |WrittenChild(cs[i])| < 0x1_0000_0000
  }

  lemma {:induction false} TopTrees(cs: seq<WritableChild>, p: nat)
    requires AllSerializable(cs) && EachFits(cs)
    ensures ChildrenBytes(TreesOf(cs)) == WrittenChildren(cs) && ChildrenOk(TreesOf(cs))
    ensures AllMirror(LocateChildren(TreesOf(cs), p), cs)
    decreases |cs|
  {
    hide WrittenChild, TreeOf, ChildBytes, ChildOk, Serializable, LocateChild, Mirrors;
    if cs != [] {
      var ts := TreesOf(cs);
      assert ts[0] == TreeOf(cs[0]) && ts[1..] == TreesOf(cs[1..]);
      forall i | 0 <= i < |cs[1..]|
        ensures |WrittenChild(cs[1..][i])| < 0x1_0000_0000
      {
        assert cs[1..][i] == cs[i + 1];
      }
      var next := p + |ChildBytes(ts[0])|;
      WrittenTree(cs[0]);
      TreeMirrors(cs[0], p);
      TopTrees(cs[1..], next);
      assert LocateChildren(ts, p)[1..] == LocateChildren(ts[1..], next);
    }
  }

  lemma {:induction false} TreesStayGroups(gs: seq<WritableGroup>, p: nat)
    requires AllSerializable(AsNested(gs))
    ensures var l := LocateChildren(TreesOf(AsNested(gs)), p);
            |l| == |gs| && forall i :: 0 <= i < |l| ==> l[i].GroupChild?
    decreases |gs|
  {
    hide WrittenChildren, ChildBytes, LabelFromRaw;
    if gs != [] {
      var cs := AsNested(gs);
      var ts := TreesOf(cs);
      assert cs[1..] == AsNested(gs[1..]);
      assert ts[0] == TreeOf(cs[0]) && ts[1..] == TreesOf(cs[1..]);
      TreesStayGroups(gs[1..], p + |ChildBytes(ts[0])|);
      assert LocateChild(ts[0], p) == GroupChild(LocateGroup(ts[0].group, p));
    }
  }

  /** The groups a reader gets, behind a header of `p` bytes. */
  ghost function ReadGroups(gs: seq<WritableGroup>, p: nat): seq<Group>
    requires AllSerializable(AsNested(gs))
  {
    TreesStayGroups(gs, p);
    AsGroups(LocateChildren(TreesOf(AsNested(gs)), p))
  }

  /** A mirroring tree has the same records in the same order. */
  ghost predicate SameIdentity(r: Record, w: WritableRecord) {
    r.header.formId == w.formId && r.header.signature == w.signature && r.header.flags == w.flags
    && ReadsAs(r.data, w.subrecords)
  }

  lemma {:induction false} MirroredRecords(ts: seq<Child>, cs: seq<WritableChild>)
    requires AllMirror(ts, cs)
    ensures |Flatten(ts)| == |RecordsOf(cs)|
    ensures forall i :: 0 <= i < |Flatten(ts)| ==> SameIdentity(Flatten(ts)[i], RecordsOf(cs)[i])
    decreases cs, 0
  {
    hide Mirrors, FlattenChild, RecordsOfChild, SameIdentity;
    if cs != [] {
      MirroredRecord(ts[0], cs[0]);
      MirroredRecords(ts[1..], cs[1..]);
    }
  }

  lemma {:induction false} MirroredRecord(t: Child, c: WritableChild)
    requires Mirrors(t, c)
    ensures |FlattenChild(t)| == |RecordsOfChild(c)|
    ensures forall i :: 0 <= i < |FlattenChild(t)| ==> SameIdentity(FlattenChild(t)[i], RecordsOfChild(c)[i])
    decreases c, 0
  {
    hide ReadsAs, LabelBytes;
    if c.NestedGroup? {
      MirroredRecords(t.group.children, c.group.children);
    }
  }

  // --------------------------------------------------------------------------
  // The header
  // --------------------------------------------------------------------------

  lemma FlagsSmall(game: Game, light: bool, localized: bool)
    ensures !HasBit(HeaderFlags(game, light, localized), COMPRESSED)
  {
  }

  /** A light plugin is recognised as one; without the flag it is an ordinary plugin. */
  lemma LightFlagRead(game: Game, light: bool, localized: bool)
    requires SupportsLight(game)
    ensures KindFromFlags(game, HeaderFlags(game, light, localized)) == if light then LightPlugin else OrdinaryPlugin
  {
  }

  lemma HeaderSubsRead(env: Env, version: FloatBits, count: U32, nextId: U32, masters: seq<Bytes>, description: Option<Bytes>)
    ensures var subs := HeaderSubs(version, count, nextId, masters, description);
            First(subs, HEDR) == Some(SubRecord(HEDR, version + (Le32(count) + Le32(nextId))))
            && Texts(env, subs, MAST) == Texts(env, MasterSubs(masters), MAST)
            && First(subs, SNAM) == if description.Some? then Some(StringSub(SNAM, description.value)) else None
  {
    hide Le32, MasterSubs, TrimNuls, Texts, First;
    var hedr := SubRecord(HEDR, version + (Le32(count) + Le32(nextId)));
    var snam := if description.Some? then [StringSub(SNAM, description.value)] else [];
    var subs := HeaderSubs(version, count, nextId, masters, description);
    assert HEDR[0] != MAST[0] && HEDR[0] != SNAM[0] && SNAM[0] != MAST[0] && SNAM[0] != DATA[0];
    FirstConcat([hedr], MasterSubs(masters) + snam, HEDR);
    FirstConcat([hedr], MasterSubs(masters) + snam, SNAM);
    FirstConcat(MasterSubs(masters), snam, SNAM);
    MasterSubsFind(masters, SNAM);
    TextsConcat(env, [hedr], MasterSubs(masters) + snam, MAST);
    TextsConcat(env, MasterSubs(masters), snam, MAST);
    TextsOfOne(env, hedr);
    FirstSingle(hedr, HEDR);
    FirstSingle(hedr, SNAM);
    NoTexts(env);
    FirstOfNone(SNAM);
    if description.Some? {
      TextsOfOne(env, snam[0]);
      FirstSingle(snam[0], SNAM);
    }
  }

  lemma FirstSingle(sub: SubRecord, signature: Signature)
    ensures First([sub], signature) == if sub.signature == signature then Some(sub) else None
  {
    assert [sub][1..] == [];
  }

  lemma FirstOfNone(signature: Signature)
    ensures First([], signature) == None
  {
  }

  lemma HedrWords(version: FloatBits, count: U32, nextId: U32)
    ensures var d := version + (Le32(count) + Le32(nextId));
            |d| == 12 && d[..4] == version && U32At(d, 4) == count && U32At(d, 8) == nextId
  {
    hide Le32, U32At;
    var d := version + (Le32(count) + Le32(nextId));
    assert d[4..8] == Le32(count) && d[8..12] == Le32(nextId);
    Word32(d, 4, count);
    Word32(d, 8, nextId);
  }

  ghost predicate HeaderFits(h: WritableRecord) {
    |SubRecordsBytes(h.subrecords)| < 0x1_0000_0000
  }

  /** No subrecord of the header is an override. */
  lemma {:induction false} HeaderSignatures(masters: seq<Bytes>)
    ensures forall i :: 0 <= i < |MasterSubs(masters)| ==> MasterSubs(masters)[i].signature != XXXX
    decreases |masters|
  {
    if masters != [] {
      HeaderSignatures(masters[1..]);
      assert MAST[0] != XXXX[0] && DATA[0] != XXXX[0];
    }
  }

  /** The header record a reader gets. */
  ghost function ReadRecord(h: WritableRecord): Record {
    Record(WrittenHeader(h), None, Raw(SubRecordsBytes(h.subrecords)))
  }

  lemma HeaderRecordRead(env: Env, game: Game, version: FloatBits, masters: seq<Bytes>, description: Option<Bytes>,
                         light: bool, localized: bool, rs: seq<WritableRecord>, rest: Bytes)
    requires HeaderFits(HeaderOver(game, version, masters, description, HeaderFlags(game, light, localized), rs))
    ensures var h := HeaderOver(game, version, masters, description, HeaderFlags(game, light, localized), rs);
            RecordAt(WrittenRecord(h) + rest, 0) == Ok((ReadRecord(h), |WrittenRecord(h)|))
            && SubrecordsIn(env, ReadRecord(h)) == Ok(h.subrecords)
  {
    hide HeaderBytes, SubRecordsBytes, RecordAt, FramesOf, MasterSubs, NextObjectId, Le32, HeaderFlags, SubrecordsOf;
    var h := HeaderOver(game, version, masters, description, HeaderFlags(game, light, localized), rs);
    FlagsSmall(game, light, localized);
    HeaderSignatures(masters);
    assert HEDR[0] != XXXX[0] && SNAM[0] != XXXX[0] && TES3[0] != GRUP[0] && TES4[0] != GRUP[0];
    SubRecordsFit(h.subrecords);
    WrittenSubRecordsParse(h.subrecords);
    var t := ReadRecord(h);
    assert WrittenRecord(h) == RecordBytes(t);
    var s := WrittenRecord(h) + rest;
    assert s[0..0 + |RecordBytes(t)|] == RecordBytes(t);
    RecordInverse(s, 0, t, |WrittenRecord(h)|);
  }

  lemma HeaderRead(env: Env, game: Game, version: FloatBits, masters: seq<Bytes>, description: Option<Bytes>,
                   light: bool, localized: bool, rs: seq<WritableRecord>)
    requires HeaderFits(HeaderOver(game, version, masters, description, HeaderFlags(game, light, localized), rs))
    ensures var h := HeaderOver(game, version, masters, description, HeaderFlags(game, light, localized), rs);
            HeaderOf(env, game, ReadRecord(h))
            == Ok(PluginHeader(ReadRecord(h), Some(version), AsU32(|rs|), NextObjectId(rs, |masters| % 0x100),
                               Texts(env, MasterSubs(masters), MAST),
                               if description.Some? then DescriptionOf(env, [StringSub(SNAM, description.value)]) else None))
  {
    hide SubRecordsBytes, RecordAt, MasterSubs, NextObjectId, Le32, HeaderFlags, SubrecordsIn, First, Texts, U32At, HeaderSubs,
         ZString, HeaderFits;
    HeaderRecordRead(env, game, version, masters, description, light, localized, rs, []);
    HeaderSubsRead(env, version, AsU32(|rs|), NextObjectId(rs, |masters| % 0x100), masters, description);
    HedrWords(version, AsU32(|rs|), NextObjectId(rs, |masters| % 0x100));
    if description.Some? {
      FirstSingle(StringSub(SNAM, description.value), SNAM);
    }
  }

  // --------------------------------------------------------------------------
  // The whole file
  // --------------------------------------------------------------------------

  /**
   Main result: parsing what the writer wrote recovers every group, record and
   subrecord list, the masters and the description; the header counts the
   records a reader finds, groups not included.
   */
  lemma WrittenPluginReadsBack(env: Env, game: Game, version: FloatBits, masters: seq<Bytes>, description: Option<Bytes>,
                               light: bool, localized: bool, gs: seq<WritableGroup>)
    requires AllSerializable(AsNested(gs)) && EachFits(AsNested(gs))
    requires HeaderFits(HeaderOver(game, version, masters, description, HeaderFlags(game, light, localized),
                                   RecordsOf(AsNested(gs))))
    ensures var cs := AsNested(gs);
            var h := HeaderOver(game, version, masters, description, HeaderFlags(game, light, localized), RecordsOf(cs));
            var bytes, p := WrittenRecord(h) + WrittenChildren(cs), |WrittenRecord(h)|;
            var groups := ReadGroups(gs, p);
            PluginOf(env, game, bytes)
            == Ok(Plugin(bytes, game,
                         PluginHeader(ReadRecord(h), Some(version), AsU32(|Flatten(AsChildren(groups))|),
                                      NextObjectId(RecordsOf(cs), |masters| % 0x100), Texts(env, MasterSubs(masters), MAST),
                                      if description.Some? then DescriptionOf(env, [StringSub(SNAM, description.value)])
                                      else None),
                         Range(0, p), groups))
            && AllMirror(AsChildren(groups), cs)
  {
    hide SubRecordsBytes, RecordAt, MasterSubs, NextObjectId, HeaderFlags, Texts, HeaderOver, WrittenRecord, WrittenChildren,
         TreesOf, LocateChildren, AllMirror, HeaderOf, TopGroupsAt, AllStandAt, ChildrenBytes, ChildrenOk, Flatten, RecordsOf,
         AllSerializable, HeaderFits, ReadRecord;
    var cs := AsNested(gs);
    var h := HeaderOver(game, version, masters, description, HeaderFlags(game, light, localized), RecordsOf(cs));
    var bytes, p := WrittenRecord(h) + WrittenChildren(cs), |WrittenRecord(h)|;
    HeaderRecordRead(env, game, version, masters, description, light, localized, RecordsOf(cs), WrittenChildren(cs));
    HeaderRead(env, game, version, masters, description, light, localized, RecordsOf(cs));
    TopTrees(cs, p);
    TreesStayGroups(gs, p);
    var ts := TreesOf(cs);
    LocateKeeps(ts, p);
    assert bytes[p..p + |WrittenChildren(cs)|] == WrittenChildren(cs);
    PrintedStands(bytes, p, LocateChildren(ts, p));
    TopGroupsInverse(bytes, p, ReadGroups(gs, p));
    MirroredRecords(LocateChildren(ts, p), cs);
  }

  /** The writer's next object ID lies above every object ID of its own records, and is no larger than needed. */
  lemma NextObjectIdIsLeast(rs: seq<WritableRecord>, masterCount: Byte)
    ensures forall r :: r in rs && FileIndex(r.formId) == masterCount ==> ObjectId(r.formId) < NextObjectId(rs, masterCount)
    ensures (exists r :: r in rs && FileIndex(r.formId) == masterCount)
            ==> exists r :: r in rs && FileIndex(r.formId) == masterCount && ObjectId(r.formId) + 1 == NextObjectId(rs, masterCount)
    ensures !(exists r :: r in rs && FileIndex(r.formId) == masterCount) ==> NextObjectId(rs, masterCount) == FIRST_OBJECT_ID
  {
    hide FileIndex, ObjectId, OwnedIds, MaxObjectId;
    var ids := OwnedIds(rs, masterCount);
    OwnedMeaning(rs, masterCount);
    MaxObjectIdMeaning(ids);
    forall r | r in rs && FileIndex(r.formId) == masterCount
      ensures r.formId in ids
    {
    }
    if ids != [] {
      assert ids[0] in ids;
      var x :| x in ids && ObjectId(x) == MaxObjectId(ids);
      var r :| r in rs && r.formId == x;
    }
  }
}
