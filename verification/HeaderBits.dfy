/**
 The flags word that a reader finds in a rewritten or freshly written plugin,
 bit by bit.
 */
module HeaderBits {
  import opened Wire
  import opened Records
  import opened Subrecords
  import opened Groups
  import opened Games
  import opened Plugins
  import opened Traversal
  import opened Flags
  import opened Edits
  import opened HeaderRewrite
  import opened HeaderReparse
  import opened HeaderTheorem
  import opened Patcher
  import opened PatchedPlugin
  import opened Writable
  import opened Writer

  // --------------------------------------------------------------------------
  // Rewritten headers
  // --------------------------------------------------------------------------

  /** A header patch asks for bit `i` through a mask. */
  predicate Asks(mask: Option<U32>, i: nat) {
    mask.Some? && Bit(mask.value, i)
  }

  /** What is asked for bit `i`: to be set if it was set or is requested, unless it is to be cleared. */
  ghost predicate Wanted(source: Bytes, patch: HeaderPatch, i: nat)
    requires |source| >= 24
  {
    (Bit(U32At(source, 8), i) || Asks(patch.flagsSet, i)) && !Asks(patch.flagsClear, i)
  }

  lemma CompressedIsBit18(flags: U32)
    ensures HasBit(flags, COMPRESSED) <==> Bit(flags, 18)
  {
    hide Bit;
    BitIsDigit(flags, 18);
    Pow2Of18();
  }

  lemma Pow2Of18()
    ensures Pow2(18) == 0x4_0000
  {
    assert Pow2(8) == 0x100;
    assert Pow2(16) == 0x1_0000;
  }

  /** Taking away the weight of a set bit clears that bit and no other. */
  lemma {:induction false} DropBit(n: nat, k: nat, i: nat)
    requires Bit(n, k)
    ensures n >= Pow2(k) && (Bit(n - Pow2(k), i) <==> Bit(n, i) && i != k)
    decreases k
  {
    if k > 0 {
      DropBit(n / 2, k - 1, if i > 0 then i - 1 else 0);
      assert (n - Pow2(k)) / 2 == n / 2 - Pow2(k - 1);
    }
  }

  lemma UncompressedBits(flags: U32, i: nat)
    ensures Bit(ClearCompressed(flags), i) <==> Bit(flags, i) && i != 18
  {
    hide Bit, Pow2;
    CompressedIsBit18(flags);
    Pow2Of18();
    if Bit(flags, 18) {
      DropBit(flags, 18, i);
    }
  }

  lemma HeadWords(head: Bytes, size: U32, flags: U32, stored: Bytes)
    requires |head| == 24
    ensures var out := PatchedHead(head, size, flags) + stored;
            |out| == 24 + |stored| && U32At(out, 4) == size && U32At(out, 8) == flags
            && out[..4] == head[..4] && out[12..24] == head[12..] && out[24..] == stored
  {
    hide Le32, U32At;
    var out := PatchedHead(head, size, flags) + stored;
    assert out[4..8] == Le32(size) && out[8..12] == Le32(flags);
    Word32(out, 4, size);
    Word32(out, 8, flags);
  }

  /**
   The header record of a rewritten plugin, read from its bytes. Every flag bit
   is what was asked for; the compression bit survives only together with a
   payload that the rewrite left as it was, and then the stored bytes are kept.
   */
  lemma PatchedHeader(env: Env, plugin: Plugin, patch: HeaderPatch)
    requires Parsed(env, plugin) && UpdatedHeaderOf(env, plugin, patch).Ok?
    ensures var out, payload := UpdatedHeaderOf(env, plugin, patch).value, UpdatedPayloadOf(env, plugin, patch);
            && 24 <= |out| && 24 <= plugin.headerRange.end <= |plugin.source|
            && out[..4] == plugin.source[..4] && out[12..24] == plugin.source[12..24] && U32At(out, 4) == |out| - 24
            && (forall i :: 0 <= i < 32 && i != 18 ==> (Bit(U32At(out, 8), i) <==> Wanted(plugin.source, patch, i)))
            && (Bit(U32At(out, 8), 18) <==>
                  Wanted(plugin.source, patch, 18) && Bit(U32At(plugin.source, 8), 18)
                  && payload == RawData(env, plugin.header.record))
            && (if Bit(U32At(out, 8), 18) then out[24..] == plugin.source[24..plugin.headerRange.end] else payload == Ok(out[24..]))
  {
    hide UpdatedPayloadOf, Bit, U32At, HeaderBytes, DataBytes, ClearCompressed, PatchedFlags, PatchedHead, Parsed, HasBit, RawData;
    ParsedHeaderRecord(env, plugin);
    var record := plugin.header.record;
    var bytes := RecordBytes(record);
    assert bytes[..24] == HeaderBytes(record.header);
    PatchedHeadBytes(record.header, 0, 0);
    FlagsWord(bytes);
    FlagsWord(plugin.source);
    assert plugin.source[..24] == bytes[..24];
    var payload := UpdatedPayloadOf(env, plugin, patch).value;
    var flags := PatchedFlags(record.header.flags, patch);
    var keep := KeepsCompressed(env, plugin, flags, payload);
    var stored := if keep then bytes[24..] else payload;
    var final := if keep then flags else ClearCompressed(flags);
    HeadWords(bytes[..24], |stored|, final, stored);
    forall i | 0 <= i < 32
      ensures Bit(flags, i) <==> Wanted(plugin.source, patch, i)
      ensures Bit(ClearCompressed(flags), i) <==> Bit(flags, i) && i != 18
    {
      WantedBit(plugin.source, patch, i);
      UncompressedBits(flags, i);
    }
    CompressedIsBit18(flags);
    CompressedIsBit18(record.header.flags);
  }

  lemma WantedBit(source: Bytes, patch: HeaderPatch, i: nat)
    requires |source| >= 24
    ensures Bit(PatchedFlags(U32At(source, 8), patch), i) <==> Wanted(source, patch, i)
  {
    hide Bit, U32At;
    PatchedBit(U32At(source, 8), patch.flagsSet, patch.flagsClear, i);
  }

  /**
   The flags word at offset 8 of the patcher's whole output. Without a header
   patch, or without a rewrite, nothing is asked for: only compression can go.
   */
  lemma PatchedOutput(env: Env, plugin: Plugin, e: Edits, patch: Option<HeaderPatch>, i: nat)
    requires Parsed(env, plugin) && WholeOut(env, plugin, e, patch).Ok? && i < 32
    ensures var out := WholeOut(env, plugin, e, patch).value;
            && 24 <= |out| && 24 <= |plugin.source|
            && (patch.Some? ==> i != 18 ==> (Bit(U32At(out, 8), i) <==> Wanted(plugin.source, patch.value, i)))
            && (patch.Some? ==> Bit(U32At(out, 8), 18) ==> Wanted(plugin.source, patch.value, 18) && Bit(U32At(plugin.source, 8), 18))
            && (patch.None? ==> i != 18 ==> (Bit(U32At(out, 8), i) <==> Bit(U32At(plugin.source, 8), i)))
  {
    hide Bit, U32At, Parsed, UpdatedHeaderOf, UpdatedPayloadOf, ChildrenOut, AllMarks, RawData, HeaderBytes, DataBytes;
    ParsedHeaderRecord(env, plugin);
    var out, p := WholeOut(env, plugin, e, patch).value, patch.GetOr(NO_PATCH);
    if Rewrites(plugin, e, patch) {
      PatchedHeader(env, plugin, p);
      SameWord(UpdatedHeaderOf(env, plugin, p).value, out, 8);
      assert i != 18 ==> (Bit(U32At(out, 8), i) <==> Wanted(plugin.source, p, i));
    } else {
      SameWord(SourceSlice(plugin.source, Some(plugin.headerRange)).value, out, 8);
      SameWord(SourceSlice(plugin.source, Some(plugin.headerRange)).value, plugin.source, 8);
    }
  }

  /** A word of a prefix is the word of the whole. */
  lemma SameWord(a: Bytes, s: Bytes, p: nat)
    requires a <= s && p + 4 <= |a|
    ensures U32At(a, p) == U32At(s, p)
  {
  }

  // --------------------------------------------------------------------------
  // Headers written from scratch
  // --------------------------------------------------------------------------

  /** The flags word at offset 8: LOCALIZED is bit 7, the light flag bit 9, or 8 for Starfield, and nothing else is set. */
  ghost predicate SaysFlags(bytes: Bytes, game: Game, light: bool, localized: bool) {
    && |bytes| >= 24
    && forall i :: 0 <= i < 32 ==>
         (Bit(U32At(bytes, 8), i) <==> (i == 7 && localized) || (i == (if game.Starfield? then 8 else 9) && light))
  }

  lemma OneBit(k: nat, i: nat)
    ensures Bit(Pow2(k), i) <==> i == k
  {
    if k == 0 && i > 0 {
      ZeroBit(i - 1);
    } else if k > 0 && i > 0 {
      OneBit(k - 1, i - 1);
    }
  }

  lemma TwoBits(k: nat, l: nat, i: nat)
    requires k < l
    ensures Bit(Pow2(k) + Pow2(l), i) <==> i == k || i == l
    decreases k
  {
    var n := Pow2(k) + Pow2(l);
    OneBit(l, i);
    if k == 0 {
      if i > 0 {
        assert n / 2 == Pow2(l - 1);
        OneBit(l - 1, i - 1);
      }
    } else if i > 0 {
      assert n / 2 == Pow2(k - 1) + Pow2(l - 1);
      TwoBits(k - 1, l - 1, i - 1);
    }
  }

  lemma FlagsSay(game: Game, light: bool, localized: bool, i: nat)
    ensures Bit(HeaderFlags(game, light, localized), i)
            <==> (i == 7 && localized) || (i == (if game.Starfield? then 8 else 9) && light)
  {
    hide Bit;
    var l := if game.Starfield? then 8 else 9;
    assert Pow2(7) == 0x80 && Pow2(8) == 0x100 && Pow2(9) == 0x200;
    ZeroBit(i);
    OneBit(7, i);
    OneBit(l, i);
    TwoBits(7, l, i);
  }

  /** What the writer puts into the header record says what it was asked for, in front of anything. */
  lemma WrittenFlags(game: Game, version: FloatBits, masters: seq<Bytes>, description: Option<Bytes>,
                     light: bool, localized: bool, rs: seq<WritableRecord>, rest: Bytes)
    ensures var h := HeaderOver(game, version, masters, description, HeaderFlags(game, light, localized), rs);
            SaysFlags(WrittenRecord(h) + rest, game, light, localized)
  {
    hide Bit, HeaderFlags, SubRecordsBytes, NextObjectId, HeaderSubs, HeaderBytes, U32At;
    var h := HeaderOver(game, version, masters, description, HeaderFlags(game, light, localized), rs);
    var bytes := WrittenRecord(h) + rest;
    PatchedHeadBytes(WrittenHeader(h), 0, 0);
    SameWord(HeaderBytes(WrittenHeader(h)), bytes, 8);
    forall i | 0 <= i < 32
      ensures Bit(U32At(bytes, 8), i) <==> (i == 7 && localized) || (i == (if game.Starfield? then 8 else 9) && light)
    {
      FlagsSay(game, light, localized, i);
    }
  }

  // --------------------------------------------------------------------------
  // When a rewrite fails
  // --------------------------------------------------------------------------

  lemma {:induction false} FrameErrors(frames: seq<Frame>, e: FrameEdit, st: Progress)
    ensures EditFrames(frames, e, st).Err? ==> EditFrames(frames, e, st).error == InvalidEncoding
    decreases |frames|
  {
    hide Advance, WrittenFrames, MasterSubs, WithCounters;
    if frames != [] {
      FrameErrors(frames[1..], e, Advance(frames[0], e, st));
    }
  }

  /** Rewriting the header of a parsed plugin fails in one way only. */
  lemma HeaderErrors(env: Env, plugin: Plugin, patch: HeaderPatch)
    requires Parsed(env, plugin) && UpdatedHeaderOf(env, plugin, patch).Err?
    ensures UpdatedHeaderOf(env, plugin, patch) == Err(InvalidEncoding)
  {
    hide Parsed, FramesOf, EditFrames, RawBytes, NodeCount, OwnedEnd, RecordBytes, RawData, KeepsCompressed, PatchedHead, HeaderOf;
    ParsedHeaderRecord(env, plugin);
    AtLeastHeader(plugin.header.record);
    OwnedEndBound(AsChildren(plugin.groups), OwnIndex(plugin, patch));
    forall frames, e
      ensures EditFrames(frames, e, START).Err? ==> EditFrames(frames, e, START).error == InvalidEncoding
    {
      FrameErrors(frames, e, START);
    }
  }

  /**
   It succeeds exactly for a usable HEDR, a tree of at most 2^32 - 1 groups and
   records, and a payload that fits its size field or can stay as it is stored.
   */
  lemma HeaderSucceeds(env: Env, plugin: Plugin, patch: HeaderPatch)
    requires Parsed(env, plugin)
    ensures 24 <= |plugin.source|
    ensures var payload := UpdatedPayloadOf(env, plugin, patch);
            UpdatedHeaderOf(env, plugin, patch).Ok?
            <==> UsableHedr(env, plugin) && NodeCount(AsChildren(plugin.groups)) <= 0xFFFF_FFFF
                 && payload.Ok? && (|payload.value| <= 0xFFFF_FFFF
                                    || (Wanted(plugin.source, patch, 18) && Bit(U32At(plugin.source, 8), 18)
                                        && payload == RawData(env, plugin.header.record)))
  {
    hide Parsed, UpdatedPayloadOf, NodeCount, HeaderBytes, DataBytes, RawData, Bit, U32At, HasBit, PatchedFlags, ClearCompressed,
         UsableHedr;
    ParsedHeaderRecord(env, plugin);
    AtLeastHeader(plugin.header.record);
    HeaderWritable(env, plugin, patch);
    var record := plugin.header.record;
    var bytes := RecordBytes(record);
    assert bytes[..24] == HeaderBytes(record.header) && bytes[24..] == DataBytes(record.data);
    PatchedHeadBytes(record.header, 0, 0);
    FlagsWord(bytes);
    FlagsWord(plugin.source);
    assert plugin.source[..24] == bytes[..24];
    CompressedIsBit18(PatchedFlags(record.header.flags, patch));
    CompressedIsBit18(record.header.flags);
    WantedBit(plugin.source, patch, 18);
  }

  lemma AtLeastHeader(r: Record)
    ensures |RecordBytes(r)| >= 24
  {
  }

  /** Writing a parsed plugin with accepted orders fails exactly if a header has to be rewritten and cannot be. */
  lemma OutputErrors(env: Env, plugin: Plugin, e: Edits, patch: Option<HeaderPatch>)
    requires Parsed(env, plugin) && AllOrdersFit(AsChildren(plugin.groups), e.orders)
    ensures WholeOut(env, plugin, e, patch).Err?
            <==> Rewrites(plugin, e, patch) && UpdatedHeaderOf(env, plugin, patch.GetOr(NO_PATCH)).Err?
    ensures WholeOut(env, plugin, e, patch).Err? ==> WholeOut(env, plugin, e, patch) == Err(InvalidEncoding)
  {
    hide Parsed, UpdatedHeaderOf, ChildrenOut, AllMarks, AllOrdersFit, TopReached, RecordBytes;
    ParsedHeaderRecord(env, plugin);
    FastPathRefines(env, plugin, e);
    if UpdatedHeaderOf(env, plugin, patch.GetOr(NO_PATCH)).Err? {
      HeaderErrors(env, plugin, patch.GetOr(NO_PATCH));
    }
  }

  /**
   Without a header patch a rewritten header says what it said before about
   version, masters and description; a patch replaces the masters or the
   description it names and keeps the other.
   */
  lemma HeaderKept(env: Env, plugin: Plugin, patch: Option<HeaderPatch>)
    requires Parsed(env, plugin) && UpdatedHeaderOf(env, plugin, patch.GetOr(NO_PATCH)).Ok?
    ensures var h := UpdatedHeader(env, plugin, patch.GetOr(NO_PATCH));
            && h.hedrVersion == plugin.header.hedrVersion
            && (patch.None? || patch.value.masters.None? ==> h.masters == plugin.header.masters)
            && (patch.None? || patch.value.description.None? ==> h.description == plugin.header.description)
            && (patch.Some? && patch.value.masters.Some? && (forall m :: m in patch.value.masters.value ==> CleanText(env, m)) ==>
                  h.masters == patch.value.masters.value)
            && (patch.Some? && patch.value.description.Some? && CleanText(env, patch.value.description.value) ==>
                  h.description == if patch.value.description.value == [] then None else patch.value.description)
            && (forall i :: patch.None? && 0 <= i < 32 && i != 18 ==>
                  (Bit(h.record.header.flags, i) <==> Bit(plugin.header.record.header.flags, i)))
  {
    hide Parsed, UpdatedHeaderOf, UpdatedPayloadOf, MasterSubs, Texts, NodeCount, NextId, Bit, KeepsCompressed, ZString, ClearCompressed,
         PatchedFlags;
    if patch.None? {
      forall i | 0 <= i < 32 && i != 18
        ensures Bit(UpdatedRecord(env, plugin, NO_PATCH).header.flags, i) <==> Bit(plugin.header.record.header.flags, i)
      {
        UnaskedBit(plugin.header.record.header.flags, i);
      }
    } else {
      if patch.value.masters.Some? {
        MastersReadBack(env, patch.value.masters.value);
      }
      if patch.value.description.Some? && CleanText(env, patch.value.description.value) {
        CleanReads(env, patch.value.description.value);
      }
    }
  }

  lemma UnaskedBit(flags: U32, i: nat)
    requires i != 18
    ensures Bit(PatchedFlags(flags, NO_PATCH), i) <==> Bit(flags, i)
    ensures Bit(ClearCompressed(PatchedFlags(flags, NO_PATCH)), i) <==> Bit(flags, i)
  {
    hide Bit, ClearCompressed;
    PatchedBit(flags, None, None, i);
    UncompressedBits(PatchedFlags(flags, NO_PATCH), i);
  }

  lemma CleanReads(env: Env, t: Bytes)
    requires CleanText(env, t)
    ensures ZString(env, t + [0]) == Some(t)
    ensures DescriptionOf(env, [StringSub(SNAM, t)]) == if t == [] then None else Some(t)
  {
    hide TrimNuls;
    TrimmedText(t);
    OneNul(t);
    FirstOfOne(StringSub(SNAM, t));
  }

  lemma OneNul(t: Bytes)
    ensures TrimNuls(t + [0]) == TrimNuls(t)
  {
    assert (t + [0])[..|t|] == t;
  }
}
