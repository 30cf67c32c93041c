/** What light conversion does to a plugin about to be written: the new IDs, the next free ID, the references. */
module LightPlugin {
  import opened Wire
  import opened Records
  import opened Subrecords
  import opened Games
  import opened Writable
  import opened Eslify
  import opened Writer
  import opened WrittenPlugin

  // --------------------------------------------------------------------------
  // The new IDs
  // --------------------------------------------------------------------------

  /** `ids[k]` does not occur again behind place `k`. */
  ghost predicate IsLast(ids: seq<FormId>, k: int) {
    0 <= k < |ids| && ids[k] !in ids[k + 1..]
  }

  /** An ID is renamed according to the place where it occurs last. */
  lemma {:induction false} LastPlaceCounts(ids: seq<FormId>, first: nat, k: nat)
    requires first + |ids| <= 0x1000 && IsLast(ids, k)
    ensures ids[k] in RemapOf(ids, first) && RemapOf(ids, first)[ids[k]] == LIGHT_BASE + first + k
    decreases |ids|
  {
    var n := |ids| - 1;
    if k < n {
      assert ids[n] in ids[k + 1..];
      assert ids[k + 1..] == ids[..n][k + 1..] + [ids[n]];
      LastPlaceCounts(ids[..n], first, k);
    }
  }

  lemma {:induction false} LastPlaceExists(ids: seq<FormId>, id: FormId) returns (k: nat)
    requires id in ids
    ensures IsLast(ids, k) && ids[k] == id
    decreases |ids|
  {
    if id in ids[1..] {
      var j := LastPlaceExists(ids[1..], id);
      k := j + 1;
      assert ids[1..][j + 1..] == ids[k + 1..];
    } else {
      k := 0;
    }
  }

  /** Every owned ID gets an own new ID in the light range of the game; nothing else is renamed. */
  lemma LightRemapMeaning(game: Game, rs: seq<WritableRecord>, masterCount: Byte)
    requires SupportsLight(game) && |OwnedIds(rs, masterCount)| <= Capacity(game)
    ensures var m := LightRemap(game, rs, masterCount);
            && Injective(m)
            && (forall id :: id in m <==> FileIndex(id) == masterCount && exists r :: r in rs && r.formId == id)
            && (forall id :: id in m ==> FileIndex(m[id]) == LIGHT_INDEX
                                         && LightMinObjectId(game) <= ObjectId(m[id]) <= LIGHT_MAX_OBJECT_ID)
  {
    hide FileIndex, ObjectId, OwnedIds, RemapOf;
    var ids, first := OwnedIds(rs, masterCount), LightMinObjectId(game);
    OwnedMeaning(rs, masterCount);
    RemapMeaning(ids, first);
    var m := RemapOf(ids, first);
    forall id | id in m
      ensures FileIndex(m[id]) == LIGHT_INDEX && first <= ObjectId(m[id]) <= LIGHT_MAX_OBJECT_ID
    {
      LightRange(first, m[id]);
    }
  }

  /** The new object IDs are those of the last places, counted from the start of the range. */
  lemma NewIds(game: Game, rs: seq<WritableRecord>, masterCount: Byte)
    requires SupportsLight(game) && |OwnedIds(rs, masterCount)| <= Capacity(game)
    ensures var m, ids, first := LightRemap(game, rs, masterCount), OwnedIds(rs, masterCount), LightMinObjectId(game);
            && (forall id :: id in m <==> exists k :: IsLast(ids, k) && ids[k] == id)
            && (forall k :: IsLast(ids, k) ==> m[ids[k]] == LIGHT_BASE + first + k && ObjectId(m[ids[k]]) == first + k)
  {
    hide FileIndex, OwnedIds, RemapOf;
    var ids, first := OwnedIds(rs, masterCount), LightMinObjectId(game);
    var m := RemapOf(ids, first);
    RemapMeaning(ids, first);
    forall id | id in m
      ensures exists k :: IsLast(ids, k) && ids[k] == id
    {
      var k := LastPlaceExists(ids, id);
    }
    forall k | IsLast(ids, k)
      ensures ids[k] in m && m[ids[k]] == LIGHT_BASE + first + k && ObjectId(m[ids[k]]) == first + k
    {
      LastPlaceCounts(ids, first, k);
    }
  }

  /**
   The documented range 0x800 to 0xFFF is kept exactly if every owned ID that a
   game starts to count below 0x800 occurs again later.
   */
  lemma DocumentedRange(game: Game, rs: seq<WritableRecord>, masterCount: Byte)
    requires SupportsLight(game) && |OwnedIds(rs, masterCount)| <= Capacity(game)
    ensures var m, ids := LightRemap(game, rs, masterCount), OwnedIds(rs, masterCount);
            (forall id :: id in m ==> FIRST_OBJECT_ID <= ObjectId(m[id]) <= LIGHT_MAX_OBJECT_ID)
            <==> forall k :: 0 <= k < |ids| && LightMinObjectId(game) + k < FIRST_OBJECT_ID ==> ids[k] in ids[k + 1..]
  {
    hide FileIndex, ObjectId, OwnedIds, LightRemap;
    var m, ids, first := LightRemap(game, rs, masterCount), OwnedIds(rs, masterCount), LightMinObjectId(game);
    NewIds(game, rs, masterCount);
    LightRemapMeaning(game, rs, masterCount);
    if forall id :: id in m ==> FIRST_OBJECT_ID <= ObjectId(m[id]) {
      forall k | 0 <= k < |ids| && first + k < FIRST_OBJECT_ID
        ensures ids[k] in ids[k + 1..]
      {
        assert IsLast(ids, k) <==> ids[k] !in ids[k + 1..];
      }
    }
  }

  /** No new ID is itself a renamed one exactly if no place counts up to an owned ID, which takes 254 masters. */
  lemma NewIdsAreNew(game: Game, rs: seq<WritableRecord>, masterCount: Byte)
    requires SupportsLight(game) && |OwnedIds(rs, masterCount)| <= Capacity(game)
    ensures var m, ids := LightRemap(game, rs, masterCount), OwnedIds(rs, masterCount);
            (forall id :: id in m ==> m[id] !in m)
            <==> masterCount != LIGHT_INDEX
                 || forall k :: 0 <= k < |ids| && ids[k] !in ids[k + 1..] ==> LIGHT_BASE + LightMinObjectId(game) + k !in ids
  {
    hide FileIndex, ObjectId, OwnedIds, LightRemap;
    var m, ids, first := LightRemap(game, rs, masterCount), OwnedIds(rs, masterCount), LightMinObjectId(game);
    NewIds(game, rs, masterCount);
    LightRemapMeaning(game, rs, masterCount);
    KeysAreOwned(game, rs, masterCount);
    if masterCount == LIGHT_INDEX && forall id :: id in m ==> m[id] !in m {
      forall k | 0 <= k < |ids| && ids[k] !in ids[k + 1..]
        ensures LIGHT_BASE + first + k !in ids
      {
        assert IsLast(ids, k);
        assert ids[k] in m;
      }
    }
  }

  lemma KeysAreOwned(game: Game, rs: seq<WritableRecord>, masterCount: Byte)
    requires SupportsLight(game) && |OwnedIds(rs, masterCount)| <= Capacity(game)
    ensures forall id :: id in LightRemap(game, rs, masterCount) <==> id in OwnedIds(rs, masterCount)
  {
    hide OwnedIds, RemapOf;
    RemapMeaning(OwnedIds(rs, masterCount), LightMinObjectId(game));
  }

  // --------------------------------------------------------------------------
  // What is owned afterwards, and the next free ID
  // --------------------------------------------------------------------------

  /** Converted records stop to count as the plugin's own, unless the light index is the plugin's own index. */
  lemma NothingOwnedAfter(game: Game, rs: seq<WritableRecord>, masterCount: Byte)
    requires SupportsLight(game) && |OwnedIds(rs, masterCount)| <= Capacity(game)
    ensures var after := RenamedList(rs, LightRemap(game, rs, masterCount));
            OwnedIds(after, masterCount) == [] <==> masterCount != LIGHT_INDEX || OwnedIds(rs, masterCount) == []
  {
    hide FileIndex, ObjectId, OwnedIds, RenamedSubs, LightRemap;
    var m := LightRemap(game, rs, masterCount);
    var after := RenamedList(rs, m);
    LightRemapMeaning(game, rs, masterCount);
    KeysAreOwned(game, rs, masterCount);
    OwnedMeaning(rs, masterCount);
    if masterCount != LIGHT_INDEX || OwnedIds(rs, masterCount) == [] {
      forall i | 0 <= i < |after|
        ensures FileIndex(after[i].formId) != masterCount
      {
        assert rs[i] in rs && after[i].formId == Rename(m, rs[i].formId);
      }
      NoneOwned(after, masterCount);
    } else {
      var id := OwnedIds(rs, masterCount)[0];
      assert id in OwnedIds(rs, masterCount);
      var r :| r in rs && r.formId == id;
      RenamedIsThere(rs, m, r);
      OwnedMeaning(after, masterCount);
      assert m[id] in OwnedIds(after, masterCount);
    }
  }

  lemma RenamedIsThere(rs: seq<WritableRecord>, m: Remap, r: WritableRecord)
    requires r in rs && r.formId in m
    ensures exists q :: q in RenamedList(rs, m) && q.formId == m[r.formId]
  {
    hide RenamedSubs;
    var i :| 0 <= i < |rs| && rs[i] == r;
    assert RenamedList(rs, m)[i] in RenamedList(rs, m);
  }

  lemma {:induction false} NoneOwned(rs: seq<WritableRecord>, masterCount: Byte)
    requires forall i :: 0 <= i < |rs| ==> FileIndex(rs[i].formId) != masterCount
    ensures OwnedIds(rs, masterCount) == []
    decreases |rs|
  {
    hide FileIndex;
    if rs != [] {
      assert forall i :: 0 <= i < |rs[1..]| ==> rs[1..][i] == rs[i + 1];
      NoneOwned(rs[1..], masterCount);
    }
  }

  /**
   The next object ID written after a conversion lies above every ID just
   assigned exactly if there is nothing to assign, the converted records are still
   owned, or all new IDs fit below the fallback 0x800.
   */
  lemma NextIdCoversNewIds(game: Game, rs: seq<WritableRecord>, masterCount: Byte)
    requires SupportsLight(game) && |OwnedIds(rs, masterCount)| <= Capacity(game)
    ensures var m, ids := LightRemap(game, rs, masterCount), OwnedIds(rs, masterCount);
            (forall id :: id in m ==> ObjectId(m[id]) < NextObjectId(RenamedList(rs, m), masterCount))
            <==> ids == [] || masterCount == LIGHT_INDEX || LightMinObjectId(game) + |ids| <= FIRST_OBJECT_ID
  {
    hide FileIndex, ObjectId, OwnedIds, LightRemap, RenamedSubs, MaxObjectId;
    var m, ids, first := LightRemap(game, rs, masterCount), OwnedIds(rs, masterCount), LightMinObjectId(game);
    var after := RenamedList(rs, m);
    KeysAreOwned(game, rs, masterCount);
    if ids == [] {
    } else if masterCount == LIGHT_INDEX {
      LightRemapMeaning(game, rs, masterCount);
      NextObjectIdIsLeast(after, masterCount);
      forall id | id in m
        ensures ObjectId(m[id]) < NextObjectId(after, masterCount)
      {
        var r :| r in rs && r.formId == id;
        RenamedIsThere(rs, m, r);
      }
    } else {
      NothingOwnedAfter(game, rs, masterCount);
      NewIds(game, rs, masterCount);
      assert IsLast(ids, |ids| - 1);
      assert ObjectId(m[ids[|ids| - 1]]) == first + |ids| - 1;
    }
  }

  /**
   One record in a plugin without masters is enough: Fallout 4 assigns it 0x800
   and announces 0x800 as free, Skyrim SE assigns it an ID below the documented range.
   */
  lemma ConversionExamples(r: WritableRecord)
    requires r.formId == 1
    ensures LightRemap(Fallout4, [r], 0) == map[1 := 0xFE00_0800]
            && NextObjectId(RenamedList([r], map[1 := 0xFE00_0800]), 0) == 0x800 == ObjectId(0xFE00_0800)
    ensures LightRemap(SkyrimSE, [r], 0) == map[1 := 0xFE00_0001] && ObjectId(0xFE00_0001) == 1
  {
    hide RenamedSubs;
    assert OwnedIds([], 0) == [] && [r][1..] == [];
    assert OwnedIds([r], 0) == [1];
    RemapOne(1, 0x800);
    RemapOne(1, 1);
    NothingOwnedAfter(Fallout4, [r], 0);
  }

  lemma RemapOne(id: FormId, first: nat)
    requires first < 0x1000
    ensures RemapOf([id], first) == map[id := LIGHT_BASE + first]
  {
    assert [id][..0] == [];
    assert RemapOf([], first) == map[];
  }

  // --------------------------------------------------------------------------
  // The converted tree
  // --------------------------------------------------------------------------

  /** Converting a second time renames nothing. */
  lemma {:induction false} NothingToRename(cs: seq<WritableChild>)
    ensures RenamedChildren(cs, map[]) == cs
    decreases cs, 0
  {
    hide RenamedChild;
    if cs != [] {
      NothingToRenameIn(cs[0]);
      NothingToRename(cs[1..]);
    }
  }

  lemma {:induction false} NothingToRenameIn(c: WritableChild)
    ensures RenamedChild(c, map[]) == c
    decreases c, 0
  {
    hide RenamedBytes;
    match c {
      case PlainRecord(r) =>
        forall j | 0 <= j < |r.subrecords|
          ensures RenamedBytes(r.subrecords[j].data, map[]) == r.subrecords[j].data
        {
          SameBytes(r.subrecords[j].data);
        }
        assert RenamedSubs(r.subrecords, map[]) == r.subrecords;
      case NestedGroup(g) => NothingToRename(g.children);
    }
  }

  lemma {:induction false} SameBytes(s: Bytes)
    ensures RenamedBytes(s, map[]) == s
    decreases |s|
  {
    if |s| >= 4 {
      SameBytes(s[4..]);
    }
  }

  /**
   Main result on light conversion: shape and printed size are kept, each record
   is renamed with all its aligned words, and references between records survive
   exactly if no new ID was already in use on one side of a reference only.
   */
  lemma ConvertedTree(game: Game, cs: seq<WritableChild>, masterCount: Byte)
    requires SupportsLight(game) && |OwnedIds(RecordsOf(cs), masterCount)| <= Capacity(game)
    ensures var m := LightRemap(game, RecordsOf(cs), masterCount);
            var rs, after := RecordsOf(cs), RenamedChildren(cs, m);
            && SameShapes(cs, after)
            && |WrittenChildren(after)| == |WrittenChildren(cs)|
            && RecordsOf(after) == RenamedList(rs, m)
            && (SameReferences(rs, RecordsOf(after)) <==> !MergesSome(rs, m))
  {
    hide RenamedChildren, RecordsOf, SameShapes, WrittenChildren, OwnedIds, LightRemap, MergesSome, RenamedRecord, SameReferences;
    var m := LightRemap(game, RecordsOf(cs), masterCount);
    var rs, after := RecordsOf(cs), RenamedChildren(cs, m);
    RenamingKeepsShape(cs, m);
    SameShapesPrint(cs, after);
    RenamedRecords(cs, m);
    assert RecordsOf(after) == RenamedList(rs, m);
    LightRemapMeaning(game, rs, masterCount);
    ReferencesExactly(rs, m);
  }

  /** A payload word that happens to be the new ID of a record refers to that record only after the conversion. */
  lemma ReferenceAppears(signature: Signature)
    ensures var rs := [WritableRecord(signature, 0, 1, 0, [SubRecord(signature, Le32(0xFE00_0800))])];
            LightRemap(Fallout4, rs, 0) == map[1 := 0xFE00_0800]
            && !SameReferences(rs, RenamedList(rs, map[1 := 0xFE00_0800]))
  {
    hide Le32, SameReferences, RenamedList, U32At;
    var word := Le32(0xFE00_0800);
    var rs := [WritableRecord(signature, 0, 1, 0, [SubRecord(signature, word)])];
    ConversionExamples(rs[0]);
    Word32(word, 0, 0xFE00_0800);
    assert word[0..4] == word;
    assert MergesAt(rs, map[1 := 0xFE00_0800], 0, 0, 0, 0);
    ReferencesExactly(rs, map[1 := 0xFE00_0800]);
  }
}
