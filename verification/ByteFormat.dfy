/**
 The plugin file format byte by byte: where the fields of headers stand, in
 literal numbers, and what the marks and limits of the format are.
 */
module ByteFormat {
  import opened Wire
  import opened Records
  import opened Subrecords
  import opened Groups
  import opened Games
  import opened Plugins
  import opened Flags
  import opened HeaderBits
  import opened HeaderRewrite
  import opened Writable
  import opened Writer
  import opened Eslify

  // --------------------------------------------------------------------------
  // Words
  // --------------------------------------------------------------------------

  /** Words are little-endian, written and read. */
  lemma Words(n: U32, h: U16, s: Bytes, p: nat)
    ensures var b := Le32(n); n == b[0] as int + 0x100 * b[1] as int + 0x1_0000 * b[2] as int + 0x100_0000 * b[3] as int
    ensures var b := Le16(h); h == b[0] as int + 0x100 * b[1] as int
    ensures p + 4 <= |s| ==>
              U32At(s, p) == s[p] as int + 0x100 * s[p + 1] as int + 0x1_0000 * s[p + 2] as int + 0x100_0000 * s[p + 3] as int
    ensures p + 2 <= |s| ==> U16At(s, p) == s[p] as int + 0x100 * s[p + 1] as int
  {
  }

  /** Signed words differ from unsigned ones by a whole turn, and only if the top bit is set. */
  lemma SignedWords(n: U32, h: U16)
    ensures ToI32(n) == n - (if n / 0x8000_0000 == 1 then 0x1_0000_0000 else 0)
    ensures ToI16(h) == h - (if h / 0x8000 == 1 then 0x1_0000 else 0)
  {
  }

  // --------------------------------------------------------------------------
  // Records
  // --------------------------------------------------------------------------

  /** "GRUP" stands at offset `p`. */
  predicate IsGroupMark(s: Bytes, p: nat)
    requires p + 4 <= |s|
  {
    s[p] == 71 && s[p + 1] == 82 && s[p + 2] == 85 && s[p + 3] == 80
  }

  lemma MarkIs(s: Bytes, p: nat)
    requires p + 4 <= |s|
    ensures IsGroupMark(s, p) <==> s[p..p + 4] == GRUP
  {
    var w := s[p..p + 4];
    assert w[0] == s[p] && w[1] == s[p + 1] && w[2] == s[p + 2] && w[3] == s[p + 3];
    if IsGroupMark(s, p) {
      assert w == [71, 82, 85, 80];
    }
  }

  /**
   A record is 24 header bytes, with signature, size, flags, FormID, version
   control, form version and one more half-word in this order, and as many bytes
   as the size says. If bit 18 of the flags is set, the first four of them are
   the inflated size. What a parser rejects, and how.
   */
  lemma RecordLayout(s: Bytes, p: nat)
    requires p <= |s|
    ensures var r := RecordAt(s, p);
            && (|s| < p + 24 ==> r == Err(UnexpectedEof))
            && (|s| >= p + 24 && IsGroupMark(s, p) ==> r == Err(InvalidSignature))
            && (|s| >= p + 24 && !IsGroupMark(s, p) ==>
                  var size, packed := U32At(s, p + 4), Bit(U32At(s, p + 8), 18);
                  && (r.Ok? <==> p + 24 + size <= |s| && (packed ==> size >= 4))
                  && (r.Err? ==> r.error == UnexpectedEof)
                  && (r.Ok? ==> r.value.1 == p + 24 + size
                                && r.value.0.data == (if packed then Compressed(s[p + 28..p + 24 + size], U32At(s, p + 24))
                                                      else Raw(s[p + 24..p + 24 + size]))))
    ensures RecordAt(s, p).Ok? ==>
              var h := RecordAt(s, p).value.0.header;
              h.signature == s[p..p + 4] && h.dataSize == U32At(s, p + 4) && h.flags == U32At(s, p + 8)
              && h.formId == U32At(s, p + 12) && h.versionControl == U32At(s, p + 16)
              && h.formVersion == U16At(s, p + 20) && h.unknown == U16At(s, p + 22)
  {
    hide U32At, U16At, Bit, HasBit;
    if p + 24 <= |s| {
      MarkIs(s, p);
      CompressedIsBit18(U32At(s, p + 8));
      if p + 24 + U32At(s, p + 4) <= |s| && U32At(s, p + 4) >= 4 {
        var raw := s[p + 24..p + 24 + U32At(s, p + 4)];
        assert raw[4..] == s[p + 28..p + 24 + U32At(s, p + 4)];
        SliceWord(s, p + 24, p + 24 + U32At(s, p + 4));
      }
    }
  }

  lemma SliceWord(s: Bytes, p: nat, end: nat)
    requires p + 4 <= end <= |s|
    ensures U32At(s[p..end], 0) == U32At(s, p)
  {
  }

  /** The data block of a packed record is what inflation makes of the bytes behind the size. */
  lemma PackedData(env: Env, s: Bytes, p: nat)
    requires RecordAt(s, p).Ok?
    ensures p + 24 + U32At(s, p + 4) <= |s| && (Bit(U32At(s, p + 8), 18) ==> U32At(s, p + 4) >= 4)
    ensures var r, size := RecordAt(s, p).value.0, U32At(s, p + 4);
            RawData(env, r) == if Bit(U32At(s, p + 8), 18) then env.inflate(s[p + 28..p + 24 + size], U32At(s, p + 24))
                               else Ok(s[p + 24..p + 24 + size])
  {
    hide U32At, Bit, RecordAt;
    RecordLayout(s, p);
  }

  // --------------------------------------------------------------------------
  // Subrecords
  // --------------------------------------------------------------------------

  /** "XXXX" at the start. */
  predicate IsOverrideMark(s: Bytes)
    requires |s| >= 4
  {
    s[0] == 88 && s[1] == 88 && s[2] == 88 && s[3] == 88
  }

  /**
   A subrecord is four bytes of signature, two of size, and the payload. An XXXX
   of size 4 announces the size of the next one instead.
   */
  lemma SubrecordLayout(s: Bytes, pending: Option<U32>)
    requires s != []
    ensures var step := StepOf(s, pending);
            && (|s| < 6 ==> step == Bad(UnexpectedEof))
            && (|s| >= 6 && IsOverrideMark(s) ==>
                  step == if U16At(s, 4) != 4 then Bad(InvalidEncoding) else if |s| < 10 then Bad(UnexpectedEof)
                          else Override(U32At(s, 6)))
            && (|s| >= 6 && !IsOverrideMark(s) ==>
                  var size := if pending.Some? then pending.value else U16At(s, 4);
                  step == if |s| < 6 + size then Bad(UnexpectedEof) else Sub(6 + size, SubRecord(s[..4], s[6..6 + size])))
  {
    hide U16At, U32At;
    if |s| >= 4 {
      var w := s[..4];
      assert w[0] == s[0] && w[1] == s[1] && w[2] == s[2] && w[3] == s[3];
      if IsOverrideMark(s) {
        assert w == [88, 88, 88, 88];
      }
    }
  }

  /** Up to 65,535 bytes of payload a subrecord is written with a six-byte header, beyond with a sixteen-byte one. */
  lemma WrittenSubrecord(sub: SubRecord)
    requires |sub.data| < 0x1_0000_0000
    ensures var b, n := SubRecordBytes(sub), |sub.data|;
            if n <= 65535 then b == sub.signature + [n % 256, n / 256] + sub.data
            else b == [88, 88, 88, 88, 4, 0] + Le32(n) + sub.signature + [0, 0] + sub.data
  {
  }

  /** How a master is listed: its name with a NUL, and eight zero bytes of data. */
  lemma WrittenMaster(name: Bytes)
    requires |name| < 65535
    ensures SubRecordsBytes(MasterSubs([name]))
         == [77, 65, 83, 84, (|name| + 1) % 256, (|name| + 1) / 256] + name + [0]
            + [68, 65, 84, 65, 8, 0, 0, 0, 0, 0, 0, 0, 0, 0]
  {
    hide Le16;
    var mast, data := StringSub(MAST, name), SubRecord(DATA, Zeroes(8));
    WrittenSubrecord(mast);
    WrittenSubrecord(data);
    assert Zeroes(8) == [0, 0, 0, 0, 0, 0, 0, 0];
    assert MasterSubs([name][1..]) == [];
    assert MasterSubs([name]) == [mast] + [data];
    hide SubRecordBytes;
    SubsOne(mast);
    SubsAppend([mast], data);
  }

  // --------------------------------------------------------------------------
  // Groups
  // --------------------------------------------------------------------------

  /** The eleven group types by their codes. */
  lemma TypeCodes(raw: I32)
    ensures TypeFromRaw(raw)
         == match raw
            case 0 => Ok(Normal)
            case 1 => Ok(WorldChildren)
            case 2 => Ok(InteriorCellBlock)
            case 3 => Ok(InteriorCellSubBlock)
            case 4 => Ok(ExteriorCellBlock)
            case 5 => Ok(ExteriorCellSubBlock)
            case 6 => Ok(CellChildren)
            case 7 => Ok(TopicChildren)
            case 8 => Ok(CellPersistentChildren)
            case 9 => Ok(CellTemporaryChildren)
            case 10 => Ok(CellVisibleDistantChildren)
            case _ => Err(InvalidGroupType(raw))
  {
  }

  /**
   A group header is 24 bytes: GRUP, the size with the header, four label bytes,
   the type code and two more words. A Y coordinate stands before an X coordinate.
   */
  lemma GroupLayout(s: Bytes, p: nat)
    requires p <= |s|
    ensures var r := GroupAt(s, p);
            && (|s| < p + 4 ==> r == Err(UnexpectedEof))
            && (|s| >= p + 4 && !IsGroupMark(s, p) ==> r == Err(InvalidSignature))
            && (p + 4 <= |s| < p + 24 && IsGroupMark(s, p) ==> r == Err(UnexpectedEof))
            && (|s| >= p + 24 && IsGroupMark(s, p) && TypeFromRaw(ToI32(U32At(s, p + 12))).Err? ==>
                  r == Err(InvalidGroupType(ToI32(U32At(s, p + 12)))))
            && (r.Ok? ==>
                  var h := r.value.0.header;
                  && r.value.1 == p + U32At(s, p + 4) && h.groupSize == U32At(s, p + 4)
                  && TypeFromRaw(ToI32(U32At(s, p + 12))) == Ok(h.groupType)
                  && h.versionControl == U32At(s, p + 16) && h.unknown == U32At(s, p + 20)
                  && match h.groupLabel
                     case SignatureLabel(signature) => h.groupType.Normal? && signature == s[p + 8..p + 12]
                     case GridCell(x, y) => (h.groupType.ExteriorCellBlock? || h.groupType.ExteriorCellSubBlock?)
                                            && y == ToI16(U16At(s, p + 8)) && x == ToI16(U16At(s, p + 10))
                     case BlockNumber(n) => (h.groupType.InteriorCellBlock? || h.groupType.InteriorCellSubBlock?)
                                            && n == ToI32(U32At(s, p + 8))
                     case FormIdLabel(id) =>
                       (h.groupType.WorldChildren? || h.groupType.CellChildren? || h.groupType.TopicChildren?
                        || h.groupType.CellPersistentChildren? || h.groupType.CellTemporaryChildren?
                        || h.groupType.CellVisibleDistantChildren?)
                       && id == U32At(s, p + 8))
  {
    hide ToI16, ToI32, ChildrenAt;
    if p + 4 <= |s| {
      MarkIs(s, p);
    }
  }

  // --------------------------------------------------------------------------
  // Writing records and groups
  // --------------------------------------------------------------------------

  /** A record is written with both metadata words zero. */
  lemma WrittenRecordLayout(r: WritableRecord)
    ensures var b := WrittenRecord(r);
            && b[..4] == r.signature && U32At(b, 8) == r.flags && U32At(b, 12) == r.formId && U32At(b, 16) == 0
            && U16At(b, 20) == r.formVersion && U16At(b, 22) == 0 && b[24..] == SubRecordsBytes(r.subrecords)
            && (|b| < 0x1_0000_0000 ==> U32At(b, 4) == |b| - 24)
  {
    hide U32At, U16At, HeaderBytes, SubRecordsBytes;
    var b, h := WrittenRecord(r), WrittenHeader(r);
    assert b[0..24] == HeaderBytes(h) && b[0..4] == b[..4];
    HeaderWords(b, 0, h);
  }

  /** So is a group, with its label bytes and type code as they are. */
  lemma WrittenGroupLayout(g: WritableGroup)
    ensures var b := WrittenGroup(g);
            && |b| >= 24 && IsGroupMark(b, 0) && b[8..12] == g.tag && ToI32(U32At(b, 12)) == g.groupType
            && U32At(b, 16) == 0 && U32At(b, 20) == 0 && b[24..] == WrittenChildren(g.children)
            && (|b| < 0x1_0000_0000 ==> U32At(b, 4) == |b|)
  {
    hide U32At, Le32, WrittenChildren;
    var b := WrittenGroup(g);
    var size := AsU32(GROUP_HEADER_SIZE + |WrittenChildren(g.children)|);
    assert b[..4] == GRUP && b[4..8] == Le32(size) && b[12..16] == Le32(FromI32(g.groupType));
    assert b[0..4] == b[..4];
    assert b[16..20] == Le32(0) && b[20..24] == Le32(0);
    MarkIs(b, 0);
    Word32(b, 4, size);
    Word32(b, 12, FromI32(g.groupType));
    Word32(b, 16, 0);
    Word32(b, 20, 0);
  }

  /** "TES3" for Morrowind, "TES4" for every other game; the header record of a written plugin carries no ID or version. */
  lemma WrittenHeaderLayout(game: Game, version: FloatBits, masters: seq<Bytes>, description: Option<Bytes>, flags: U32,
                            rs: seq<WritableRecord>)
    ensures var b := WrittenRecord(HeaderOver(game, version, masters, description, flags, rs));
            && |b| >= 42 && b[..4] == [84, 69, 83, if game.Morrowind? then 51 else 52] && U32At(b, 8) == flags
            && U32At(b, 12) == 0 && U32At(b, 16) == 0 && U32At(b, 20) == 0
            && b[24..30] == [72, 69, 68, 82, 12, 0] && b[30..34] == version
            && U32At(b, 34) == |rs| % 0x1_0000_0000 && U32At(b, 38) == NextObjectId(rs, |masters| % 0x100)
  {
    hide U32At, U16At, HeaderBytes, Le32, NextObjectId, MasterSubs, SubRecordBytes, SubRecordsBytes;
    var h := HeaderOver(game, version, masters, description, flags, rs);
    var b, next := WrittenRecord(h), NextObjectId(rs, |masters| % 0x100);
    WrittenRecordLayout(h);
    BothZero(b, 20);
    HeadFirst(h.subrecords);
    var hedr := h.subrecords[0];
    assert hedr == SubRecord(HEDR, version + (Le32(AsU32(|rs|)) + Le32(next)));
    WrittenSubrecord(hedr);
    var c := SubRecordBytes(hedr);
    assert c == [72, 69, 68, 82, 12, 0] + (version + (Le32(AsU32(|rs|)) + Le32(next)));
    assert b[24..42] == c;
    assert b[24..30] == c[..6] && b[30..34] == c[6..10] && b[34..38] == c[10..14] && b[38..42] == c[14..18];
    Word32(b, 34, AsU32(|rs|));
    Word32(b, 38, next);
  }

  lemma BothZero(b: Bytes, p: nat)
    requires p + 4 <= |b| && U16At(b, p) == 0 && U16At(b, p + 2) == 0
    ensures U32At(b, p) == 0
  {
  }

  lemma HeadFirst(subs: seq<SubRecord>)
    requires subs != []
    ensures SubRecordsBytes(subs) == SubRecordBytes(subs[0]) + SubRecordsBytes(subs[1..])
  {
  }

  // --------------------------------------------------------------------------
  // Reading the header record
  // --------------------------------------------------------------------------

  /** The first subrecord with the signature. */
  ghost predicate IsFirst(subs: seq<SubRecord>, signature: Signature, k: int) {
    0 <= k < |subs| && subs[k].signature == signature && forall j :: 0 <= j < k ==> subs[j].signature != signature
  }

  lemma {:induction false} FirstIs(subs: seq<SubRecord>, signature: Signature)
    ensures forall k :: IsFirst(subs, signature, k) ==> First(subs, signature) == Some(subs[k])
    ensures First(subs, signature).None? <==> forall j :: 0 <= j < |subs| ==> subs[j].signature != signature
    decreases |subs|
  {
    if subs != [] {
      FirstIs(subs[1..], signature);
      assert forall i :: 0 <= i < |subs| - 1 ==> subs[1..][i] == subs[i + 1];
      forall k | IsFirst(subs, signature, k) && k > 0
        ensures First(subs, signature) == Some(subs[k])
      {
        assert IsFirst(subs[1..], signature, k - 1);
      }
    }
  }

  /**
   What a reader takes from the header record's subrecords: version, record count
   and next ID from the first HEDR of at least twelve bytes, the description from
   the first SNAM unless it is empty, and nothing from a record of another name.
   */
  lemma HeaderFields(env: Env, game: Game, record: Record)
    requires SubrecordsIn(env, record).Ok?
    ensures var subs, h := SubrecordsIn(env, record).value, HeaderOf(env, game, record);
            && (h.Ok? <==> record.header.signature == [84, 69, 83, if game.Morrowind? then 51 else 52])
            && (h.Err? ==> h.error == InvalidSignature)
            && (h.Ok? ==>
                  && h.value.record == record
                  && (forall k :: IsFirst(subs, [72, 69, 68, 82], k) && |subs[k].data| >= 12 ==>
                        h.value.hedrVersion == Some(subs[k].data[..4])
                        && h.value.recordCount == U32At(subs[k].data, 4) && h.value.nextObjectId == U32At(subs[k].data, 8))
                  && (forall k :: IsFirst(subs, [72, 69, 68, 82], k) && |subs[k].data| < 12 ==>
                        h.value.hedrVersion == None && h.value.recordCount == 0 && h.value.nextObjectId == 0)
                  && (forall k :: IsFirst(subs, [83, 78, 65, 77], k) ==>
                        h.value.description
                        == if ZString(env, subs[k].data) == Some([]) then None else ZString(env, subs[k].data)))
  {
    hide U32At, Texts, ZString, First, SubrecordsIn;
    var subs := SubrecordsIn(env, record).value;
    FirstIs(subs, HEDR);
    FirstIs(subs, SNAM);
    assert HEDR == [72, 69, 68, 82] && SNAM == [83, 78, 65, 77];
    assert HeaderSignature(game) == [84, 69, 83, if game.Morrowind? then 51 else 52];
  }

  /** The masters are the texts of the MAST subrecords, in order, without those that are no text. */
  lemma {:induction false} MasterTexts(env: Env, subs: seq<SubRecord>)
    ensures Texts(env, subs, [77, 65, 83, 84])
         == if subs == [] then []
            else if subs[0].signature == [77, 65, 83, 84] && ZString(env, subs[0].data).Some?
            then [ZString(env, subs[0].data).value] + Texts(env, subs[1..], MAST)
            else Texts(env, subs[1..], MAST)
  {
    hide ZString;
  }

  /** Cutting the trailing NULs leaves the longest part that does not end in one. */
  lemma {:induction false} Trimmed(b: Bytes, n: nat)
    requires n <= |b| && (n > 0 ==> b[n - 1] != 0) && forall i :: n <= i < |b| ==> b[i] == 0
    ensures TrimNuls(b) == b[..n]
    decreases |b|
  {
    if n < |b| {
      Trimmed(b[..|b| - 1], n);
      assert b[..|b| - 1][..n] == b[..n];
    } else {
      assert b[..n] == b;
    }
  }

  // --------------------------------------------------------------------------
  // Games
  // --------------------------------------------------------------------------

  /** Which games have light plugins, and the object IDs those may use. */
  lemma LightLimits(game: Game)
    ensures SupportsLight(game) <==>
              game.SkyrimSE? || game.SkyrimVR? || game.Fallout4? || game.Fallout4VR? || game.Fallout76? || game.Starfield?
    ensures LightMinObjectId(game) == (if game.SkyrimSE? then 1 else 2048) && LIGHT_MAX_OBJECT_ID == 4095
    ensures Capacity(game) == if game.SkyrimSE? then 4095 else 2048
  {
  }

  /** The kind of a plugin by the bits of its header flags: medium, then update, then light, then master. */
  lemma KindByBits(game: Game, flags: U32)
    ensures var kind := KindFromFlags(game, flags);
            var update := (game.Starfield? && Bit(flags, 9)) || (game.SkyrimVR? && Bit(flags, 20));
            var medium := game.Starfield? && Bit(flags, 10);
            var light := SupportsLight(game) && Bit(flags, if game.Starfield? then 8 else 9);
            && (kind.MediumPlugin? <==> medium)
            && (kind.UpdatePlugin? <==> update && !medium)
            && (kind.LightPlugin? <==> light && !update && !medium)
            && (kind.MasterPlugin? <==> Bit(flags, 0) && !light && !update && !medium)
            && (kind.OrdinaryPlugin? <==> !Bit(flags, 0) && !light && !update && !medium)
  {
    hide Bit;
    assert Pow2(0) == 1 && Pow2(8) == 0x100 && Pow2(9) == 0x200 && Pow2(10) == 0x400 && Pow2(16) == 0x1_0000;
    assert Pow2(20) == 0x10_0000;
    BitIsDigit(flags, 0);
    BitIsDigit(flags, 8);
    BitIsDigit(flags, 9);
    BitIsDigit(flags, 10);
    BitIsDigit(flags, 20);
  }

  /** FormIDs are a file index and a 24-bit object ID; the light ones have the index 0xFE. */
  lemma IdFields(k: nat, o: nat)
    requires k < 256 && o < 16777216
    ensures var id := k * 16777216 + o; id < 0x1_0000_0000 && FileIndex(id) == k && ObjectId(id) == o
    ensures LIGHT_INDEX == 254 && LIGHT_BASE == 254 * 16777216
  {
  }

  /** The smallest next ID a rewritten header can announce, and that it is no larger than one of its three sources. */
  lemma NextIdIsLeast(stored: U32, cs: seq<Child>, own: nat)
    ensures var n := NextId(stored, cs, own);
            n >= 2049 && n >= stored && n >= OwnedEnd(cs, own) && (n == 2049 || n == stored || n == OwnedEnd(cs, own))
  {
  }

  /** Children follow each other up to the end of their group, and have to meet it exactly. */
  lemma ChildrenLayout(s: Bytes, p: nat, end: nat)
    requires p <= |s|
    ensures p == end ==> ChildrenAt(s, p, end) == Ok(([], p))
    ensures p > end || (p < end && p + 4 > |s|) ==> ChildrenAt(s, p, end) == Err(UnexpectedEof)
    ensures p < end && p + 4 <= |s| ==>
              var first := OneChild(s, p);
              && (first.Err? ==> ChildrenAt(s, p, end) == Err(first.error))
              && (first.Ok? ==>
                    first.value.1 <= |s|
                    && ChildrenAt(s, p, end) == Behind(first.value.0, ChildrenAt(s, first.value.1, end)))
  {
    hide GroupAt, RecordAt;
    if p + 4 <= |s| {
      MarkIs(s, p);
    }
  }

  /** A group where the mark says so, a record everywhere else, each with the bytes it takes. */
  function OneChild(s: Bytes, p: nat): Result<(Child, nat)>
    requires p + 4 <= |s|
  {
    if IsGroupMark(s, p) then
      var g :- GroupAt(s, p);
      Ok((GroupChild(g.0.(range := Some(Range(p, g.1)))), g.1))
    else
      var r :- RecordAt(s, p);
      Ok((RecordChild(r.0.(range := Some(Range(p, r.1)))), r.1))
  }

  function Behind(c: Child, rest: Result<(seq<Child>, nat)>): Result<(seq<Child>, nat)> {
    match rest
    case Err(e) => Err(e)
    case Ok(more) => Ok(([c] + more.0, more.1))
  }
}
