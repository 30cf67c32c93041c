/** The plugin writer: header record, groups, light conversion, and what a reader finds. */
module Writer {
  import opened Wire
  import opened Buffer
  import opened Records
  import opened Subrecords
  import opened Games
  import opened Plugins
  import opened HeaderRewrite
  import opened Writable
  import opened Eslify

  /** The four bytes of a 32-bit float. */
  type FloatBits = b: Bytes | |b| == 4 witness [0, 0, 0, 0]

  const FIRST_OBJECT_ID: U32 := 0x800

  function AsNested(gs: seq<WritableGroup>): (cs: seq<WritableChild>)
    ensures |cs| == |gs| && forall i :: 0 <= i < |gs| ==> cs[i] == NestedGroup(gs[i])
  {
    seq(|gs|, i requires 0 <= i < |gs| => NestedGroup(gs[i]))
  }

  /** One past the highest object ID of the plugin's own records, 0x800 if it has none. */
  function NextObjectId(rs: seq<WritableRecord>, masterCount: Byte): U32 {
    var ids := OwnedIds(rs, masterCount);
    if ids == [] then FIRST_OBJECT_ID else MaxObjectId(ids) + 1
  }

  function MaxObjectId(ids: seq<FormId>): (m: U32)
    ensures m < 0x100_0000
  {
    if ids == [] then 0 else Max(ObjectId(ids[0]), MaxObjectId(ids[1..]))
  }

  lemma {:induction false} MaxObjectIdMeaning(ids: seq<FormId>)
    ensures forall x :: x in ids ==> ObjectId(x) <= MaxObjectId(ids)
    ensures ids != [] ==> exists x :: x in ids && ObjectId(x) == MaxObjectId(ids)
    decreases |ids|
  {
    hide ObjectId;
    if ids != [] {
      MaxObjectIdMeaning(ids[1..]);
      assert ids == [ids[0]] + ids[1..];
      if |ids| > 1 && ObjectId(ids[0]) < MaxObjectId(ids[1..]) {
        var x :| x in ids[1..] && ObjectId(x) == MaxObjectId(ids[1..]);
        assert x in ids;
      } else {
        assert ids[0] in ids;
      }
    }
  }

  // --------------------------------------------------------------------------
  // The header record
  // --------------------------------------------------------------------------

  function HeaderFlags(game: Game, light: bool, localized: bool): U32 {
    (if light then LightFlag(game) else 0) + (if localized then LOCALIZED_FLAG else 0)
  }

  function HeaderSubs(version: FloatBits, count: U32, nextId: U32, masters: seq<Bytes>, description: Option<Bytes>): seq<SubRecord> {
    [SubRecord(HEDR, version + (Le32(count) + Le32(nextId)))]
    + (MasterSubs(masters) + if description.Some? then [StringSub(SNAM, description.value)] else [])
  }

  /** The header record is a writable record like any other, with FormID and form version 0. */
  function HeaderFor(game: Game, flags: U32, subs: seq<SubRecord>): WritableRecord {
    WritableRecord(HeaderSignature(game), flags, 0, 0, subs)
  }

  /** Writes the subrecords of the header record one by one. */
  method WriteHeaderSubs(version: FloatBits, count: U32, nextId: U32, masters: seq<Bytes>, description: Option<Bytes>,
                         data: ByteBuffer)
    requires data.bytes == []
    modifies data
    ensures data.bytes == SubRecordsBytes(HeaderSubs(version, count, nextId, masters, description))
  {
    hide Le32, SubRecordBytes, SubRecordsBytes, MasterSubs;
    var hedr := SubRecord(HEDR, version + (Le32(count) + Le32(nextId)));
    WriteSubRecord(hedr, data);
    SubsOne(hedr);
    ghost var done := [hedr];
    assert masters[0..] == masters;
    for i := 0 to |masters|
      invariant data.bytes == SubRecordsBytes(done)
      invariant done + MasterSubs(masters[i..]) == [hedr] + MasterSubs(masters)
    {
      MasterStep(masters, i);
      var mast, zero := StringSub(MAST, masters[i]), SubRecord(DATA, Zeroes(8));
      WriteSubRecord(mast, data);
      WriteSubRecord(zero, data);
      SubsAppend(done, mast);
      SubsAppend(done + [mast], zero);
      Assoc(done, [mast, zero], MasterSubs(masters[i + 1..]));
      assert done + [mast] + [zero] == done + [mast, zero];
      done := done + [mast, zero];
    }
    MastersDone(masters);
    assert done == [hedr] + MasterSubs(masters);
    if description.Some? {
      var snam := StringSub(SNAM, description.value);
      WriteSubRecord(snam, data);
      SubsAppend(done, snam);
      done := done + [snam];
    }
    assert done == HeaderSubs(version, count, nextId, masters, description);
  }

  /** The header record of a plugin with the given fields and records. */
  function HeaderOver(game: Game, version: FloatBits, masters: seq<Bytes>, description: Option<Bytes>, flags: U32,
                      rs: seq<WritableRecord>): WritableRecord {
    HeaderFor(game, flags, HeaderSubs(version, AsU32(|rs|), NextObjectId(rs, |masters| % 0x100), masters, description))
  }

  class PluginWriter {
    const game: Game
    const version: FloatBits
    var masters: seq<Bytes>
    var description: Option<Bytes>
    var groups: seq<WritableGroup>
    var lightFlagSet: bool
    var localized: bool

    constructor (game: Game, version: FloatBits)
      ensures this.game == game && this.version == version
      ensures masters == [] && description == None && groups == [] && !lightFlagSet && !localized
    {
      this.game := game;
      this.version := version;
      masters, description, groups := [], None, [];
      lightFlagSet, localized := false, false;
    }

    method AddMaster(name: Bytes)
      modifies this`masters
      ensures masters == old(masters) + [name]
    {
      masters := masters + [name];
    }

    method AddGroup(group: WritableGroup)
      modifies this`groups
      ensures groups == old(groups) + [group]
    {
      groups := groups + [group];
    }

    function Contents(): seq<WritableRecord>
      reads this
    {
      RecordsOf(AsNested(groups))
    }

    function MasterCount(): Byte
      reads this
    {
      |masters| % 0x100
    }

    function Header(): WritableRecord
      reads this
    {
      HeaderOver(game, version, masters, description, HeaderFlags(game, lightFlagSet, localized), Contents())
    }

    method WriteTes4(buf: ByteBuffer)
      modifies buf
      ensures buf.bytes == old(buf.bytes) + WrittenRecord(Header())
    {
      hide Le16, Le32, HeaderSubs, SubRecordsBytes, NextObjectId, RecordsOf;
      ghost var before := buf.bytes;
      var tes4Data := new ByteBuffer();
      var recordCount := AsU32(|Contents()|);
      var nextId := NextObjectId(Contents(), MasterCount());
      WriteHeaderSubs(version, recordCount, nextId, masters, description, tes4Data);
      assert tes4Data.bytes == SubRecordsBytes(Header().subrecords);
      var flags := HeaderFlags(game, lightFlagSet, localized);
      buf.Append(HeaderSignature(game));
      buf.Append(Le32(AsU32(|tes4Data.bytes|)));
      buf.Append(Le32(flags));
      buf.Append(Le32(0));
      buf.Append(Le32(0));
      buf.Append(Le16(0));
      buf.Append(Le16(0));
      assert buf.bytes == before + HeaderBytes(WrittenHeader(Header()));
      buf.Append(tes4Data.bytes);
      Assoc(before, HeaderBytes(WrittenHeader(Header())), tes4Data.bytes);
    }

    method WriteToVec() returns (bytes: Bytes)
      ensures bytes == WrittenRecord(Header()) + WrittenChildren(AsNested(groups))
    {
      hide WrittenRecord, WrittenChild;
      var buf := new ByteBuffer();
      WriteTes4(buf);
      ghost var cs := AsNested(groups);
      assert cs[0..] == cs;
      for i := 0 to |groups|
        invariant fresh(buf)
        invariant buf.bytes + WrittenChildren(cs[i..]) == WrittenRecord(Header()) + WrittenChildren(cs)
      {
        assert cs[i..][0] == cs[i] && cs[i..][1..] == cs[i + 1..];
        Assoc(buf.bytes, WrittenChild(cs[i]), WrittenChildren(cs[i + 1..]));
        WrittenNested(groups[i]);
        WriteGroup(groups[i], buf);
      }
      assert cs[|groups|..] == [];
      return buf.bytes;
    }

    /**
     Moves the plugin's own FormIDs into the light range. An error is reported
     exactly for games without light plugins and for too many records, and then
     nothing has changed.
     */
    method Eslify() returns (r: Result<()>)
      modifies this`groups, this`lightFlagSet
      ensures r.Ok? <==> SupportsLight(game) && |OwnedIds(old(Contents()), MasterCount())| <= Capacity(game)
      ensures r.Err? ==> groups == old(groups) && lightFlagSet == old(lightFlagSet)
      ensures r.Err? ==> r.error == if !SupportsLight(game) then UnsupportedGame
                                    else EslRecordLimitExceeded(|OwnedIds(old(Contents()), MasterCount())|)
      ensures r.Ok? ==> lightFlagSet
      ensures r.Ok? ==> AsNested(groups) == RenamedChildren(old(AsNested(groups)), LightRemap(game, old(Contents()), MasterCount()))
    {
      hide RenamedGroup, OwnedIds, RecordsOf, RemapOf;
      if !SupportsLight(game) {
        return Err(UnsupportedGame);
      }
      var masterCount := MasterCount();
      var oldIds := OwnedIds(Contents(), masterCount);
      var newCount := |oldIds|;
      if newCount > Capacity(game) {
        return Err(EslRecordLimitExceeded(newCount));
      }
      var remap := BuildRemap(oldIds, LightMinObjectId(game));
      ghost var cs := AsNested(groups);
      var count := |groups|;
      var renamed: seq<WritableGroup> := [];
      assert cs[0..] == cs;
      assert AsNested(renamed) == [];
      for i := 0 to count
        invariant |renamed| == i && groups == old(groups) && lightFlagSet == old(lightFlagSet)
        invariant AsNested(renamed) + RenamedChildren(cs[i..], remap) == RenamedChildren(cs, remap)
      {
        RenamedStep(cs, i, remap);
        var group := ApplyInGroup(groups[i], remap);
        Assoc(AsNested(renamed), [NestedGroup(group)], RenamedChildren(cs[i + 1..], remap));
        assert AsNested(renamed + [group]) == AsNested(renamed) + [NestedGroup(group)];
        renamed := renamed + [group];
      }
      assert RenamedChildren(cs[count..], remap) == [];
      groups := renamed;
      lightFlagSet := true;
      return Ok(());
    }
  }

  function Capacity(game: Game): nat {
    LIGHT_MAX_OBJECT_ID - LightMinObjectId(game) + 1
  }

  /** The renaming that `Eslify` applies. */
  function LightRemap(game: Game, rs: seq<WritableRecord>, masterCount: Byte): Remap
    requires |OwnedIds(rs, masterCount)| <= Capacity(game)
  {
    RemapOf(OwnedIds(rs, masterCount), LightMinObjectId(game))
  }

  lemma WrittenNested(g: WritableGroup)
    ensures WrittenChild(NestedGroup(g)) == WrittenGroup(g)
  {
  }

  lemma SubsOne(sub: SubRecord)
    ensures SubRecordsBytes([sub]) == SubRecordBytes(sub)
  {
    hide SubRecordBytes;
    assert [sub][1..] == [];
    assert SubRecordsBytes([]) == [];
  }

  lemma {:induction false} SubsAppend(subs: seq<SubRecord>, sub: SubRecord)
    ensures SubRecordsBytes(subs + [sub]) == SubRecordsBytes(subs) + SubRecordBytes(sub)
    decreases |subs|
  {
    hide SubRecordBytes;
    if subs == [] {
      assert [] + [sub] == [sub];
      SubsOne(sub);
    } else {
      assert (subs + [sub])[1..] == subs[1..] + [sub];
      SubsAppend(subs[1..], sub);
      Assoc(SubRecordBytes(subs[0]), SubRecordsBytes(subs[1..]), SubRecordBytes(sub));
    }
  }

  lemma MasterStep(masters: seq<Bytes>, i: nat)
    requires i < |masters|
    ensures MasterSubs(masters[i..]) == [StringSub(MAST, masters[i]), SubRecord(DATA, Zeroes(8))] + MasterSubs(masters[i + 1..])
  {
    assert masters[i..][0] == masters[i] && masters[i..][1..] == masters[i + 1..];
  }

  lemma MastersDone(masters: seq<Bytes>)
    ensures MasterSubs(masters[|masters|..]) == []
  {
  }
}
