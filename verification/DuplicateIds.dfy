/**
 What the cache answers when one plugin has several records with the same FormID:
 it keeps the type of the last one and returns the first one.
 */
module DuplicateIds {
  import opened Wire
  import opened Records
  import opened Subrecords
  import opened Groups
  import opened Games
  import opened Plugins
  import opened Traversal
  import opened LoadOrder
  import opened Cache
  import opened PluginCache
  import opened HeaderTheorem
  import opened Writable
  import opened Eslify
  import opened Writer
  import opened WrittenPlugin

  // --------------------------------------------------------------------------
  // The stored type
  // --------------------------------------------------------------------------

  /** The last record with FormID `id`, in document order. */
  function FinalWith(rs: seq<Record>, id: FormId): Option<Record>
    decreases |rs|
  {
    if rs == [] then None
    else if rs[|rs| - 1].header.formId == id then Some(rs[|rs| - 1])
    else FinalWith(rs[..|rs| - 1], id)
  }

  /** The slot names a FormID that resolves to `g`, and the type of the last record of `rs` that has it. */
  ghost predicate FinalSlot(env: Env, es: seq<LoadOrderEntry>, entry: CacheEntry, rs: seq<Record>, g: GlobalFormId, s: Slot) {
    && s.rawId != 0 && GlobalId(env, es, entry, s.rawId) == Some(g)
    && FinalWith(rs, s.rawId).Some? && FinalWith(rs, s.rawId).value.header.signature == s.signature
  }

  /** Within one plugin, the last record with a FormID is the one whose slot stays. */
  lemma {:induction false} PluginStores(env: Env, es: seq<LoadOrderEntry>, e: nat, entry: CacheEntry, rs: seq<Record>, g: GlobalFormId)
    requires g in WinnersOf(TriplesFrom(env, es, e, entry, rs))
    ensures var s := WinnersOf(TriplesFrom(env, es, e, entry, rs))[g];
            s.entry == e && FinalSlot(env, es, entry, rs, g, s)
    decreases |rs|
  {
    hide GlobalId, TriplesFrom;
    NoTriples(env, es, e, entry, rs);
    assert rs[|rs|..] == [];
    if rs != [] {
      var n := |rs| - 1;
      var before, last := TriplesFrom(env, es, e, entry, rs[..n]), TriplesFrom(env, es, e, entry, [rs[n]]);
      assert rs == rs[..n] + [rs[n]];
      TriplesConcat(env, es, e, entry, rs[..n], [rs[n]]);
      OneTriple(env, es, e, entry, rs[n]);
      WinnersConcat(before, last);
      assert last != [] ==> last[..0] == [];
      if g !in WinnersOf(last) {
        PluginStores(env, es, e, entry, rs[..n], g);
      }
    }
  }

  /** Over all plugins: the stored type is that of the last record with the stored FormID in the stored plugin. */
  lemma {:induction false} StoredTypeIsLast(env: Env, es: seq<LoadOrderEntry>, entries: seq<CacheEntry>, g: GlobalFormId)
    requires |es| == |entries| && g in WinnersOf(History(env, es, entries))
    ensures var s := WinnersOf(History(env, es, entries))[g];
            s.entry < |entries| && FinalSlot(env, es[..s.entry + 1], entries[s.entry], RecordsIn(entries[s.entry]), g, s)
    decreases |entries|
  {
    hide TriplesFrom, RecordsIn, FinalSlot;
    if entries == [] {
      assert false;
    } else {
      var n := |entries| - 1;
      var before, last := History(env, es[..n], entries[..n]), TriplesFrom(env, es, n, entries[n], RecordsIn(entries[n]));
      WinnersConcat(before, last);
      if g in WinnersOf(last) {
        PluginStores(env, es, n, entries[n], RecordsIn(entries[n]), g);
        assert es[..n + 1] == es;
      } else {
        StoredTypeIsLast(env, es[..n], entries[..n], g);
        var s := WinnersOf(before)[g];
        assert es[..n][..s.entry + 1] == es[..s.entry + 1] && entries[..n][s.entry] == entries[s.entry];
      }
    }
  }

  /**
   The record returned for an indexed ID has the type it is filed under exactly if
   the first and the last record with its FormID in its plugin are of one type.
   */
  lemma FiledUnderItsType(env: Env, es: seq<LoadOrderEntry>, entries: seq<CacheEntry>, g: GlobalFormId)
    requires |es| == |entries| && g in WinnersOf(History(env, es, entries))
    ensures var winners := WinnersOf(History(env, es, entries));
            var s := winners[g];
            s.entry < |entries|
            && var rs := RecordsIn(entries[s.entry]);
               RecordFor(entries, winners, g).Some? && FirstWith(rs, s.rawId).Some? && FinalWith(rs, s.rawId).Some?
               && (RecordFor(entries, winners, g).value.header.signature == s.signature
                   <==> FirstWith(rs, s.rawId).value.header.signature == FinalWith(rs, s.rawId).value.header.signature)
  {
    hide WinnersOf, History, RecordsIn, FirstWith, FinalWith, GlobalId;
    StoredTypeIsLast(env, es, entries, g);
    WinnerHasRecord(env, es, entries, g);
  }

  // --------------------------------------------------------------------------
  // Lookup against scan
  // --------------------------------------------------------------------------

  /** The records with FormID `id` are one record, however often it occurs. */
  ghost predicate OneRecord(rs: seq<Record>, id: FormId) {
    forall a, b :: a in rs && b in rs && a.header.formId == id && b.header.formId == id ==> a == b
  }

  lemma {:induction false} WinningInComplete(env: Env, es: seq<LoadOrderEntry>, e: nat, entry: CacheEntry, winners: Winners,
                                             rs: seq<Record>, g: GlobalFormId, r: Record)
    requires r in rs && GlobalId(env, es, entry, r.header.formId) == Some(g) && IsWinner(winners, g, e, r.header.formId)
    ensures Winning(g, r) in WinningIn(env, es, e, entry, winners, rs)
    decreases |rs|
  {
    hide GlobalId, IsWinner;
    if rs[0] != r {
      WinningInComplete(env, es, e, entry, winners, rs[1..], g, r);
    }
  }

  lemma {:induction false} AllWinningGrows(env: Env, es: seq<LoadOrderEntry>, entries: seq<CacheEntry>, winners: Winners,
                                           n: nat, e: nat, w: Winning)
    requires e < n <= |entries| == |es|
    requires w in WinningIn(env, es[..e + 1], e, entries[e], winners, RecordsIn(entries[e]))
    ensures w in AllWinning(env, es, entries, winners, n)
    decreases n
  {
    hide WinningIn, RecordsIn;
    if e < n - 1 {
      AllWinningGrows(env, es, entries, winners, n - 1, e, w);
    }
  }

  /** Every record with a stored FormID in its stored plugin is met by the scan. */
  lemma ScanMeetsAll(env: Env, es: seq<LoadOrderEntry>, entries: seq<CacheEntry>, g: GlobalFormId, r: Record)
    requires |es| == |entries| && g in WinnersOf(History(env, es, entries))
    requires var s := WinnersOf(History(env, es, entries))[g];
             s.entry < |entries| && r in RecordsIn(entries[s.entry]) && r.header.formId == s.rawId
    ensures Winning(g, r) in AllWinning(env, es, entries, WinnersOf(History(env, es, entries)), |entries|)
  {
    hide WinnersOf, History, RecordsIn, GlobalId, AllWinning, WinningIn;
    var winners := WinnersOf(History(env, es, entries));
    WinnersOk(env, es, entries);
    var s := winners[g];
    assert SlotOk(env, es, entries, g, s);
    WinningInComplete(env, es[..s.entry + 1], s.entry, entries[s.entry], winners, RecordsIn(entries[s.entry]), g, r);
    AllWinningGrows(env, es, entries, winners, |entries|, s.entry, Winning(g, r));
  }

  /**
   Looking up the global ID of any winner returns the very record the scan met,
   which the editor-ID lookup relies on, exactly if records of one plugin that
   share a winning FormID are equal.
   */
  lemma LookupIsScan(env: Env, es: seq<LoadOrderEntry>, entries: seq<CacheEntry>)
    requires |es| == |entries|
    ensures var winners := WinnersOf(History(env, es, entries));
            AllSound(env, es, entries, winners)
            && ((forall w :: w in AllWinning(env, es, entries, winners, |entries|) ==>
                   RecordFor(entries, winners, w.gfid) == Some(w.record))
                <==> forall g :: g in winners ==> OneRecord(RecordsIn(entries[winners[g].entry]), winners[g].rawId))
  {
    hide WinnersOf, History, RecordsIn, FirstWith, GlobalId, AllWinning;
    var winners := WinnersOf(History(env, es, entries));
    WinnersOk(env, es, entries);
    AllWinningOk(env, es, entries, winners, |entries|);
    if forall g :: g in winners ==> OneRecord(RecordsIn(entries[winners[g].entry]), winners[g].rawId) {
      forall w | w in AllWinning(env, es, entries, winners, |entries|)
        ensures RecordFor(entries, winners, w.gfid) == Some(w.record)
      {
        FirstWithMeaning(RecordsIn(entries[winners[w.gfid].entry]), w.record.header.formId);
      }
    }
    if forall w :: w in AllWinning(env, es, entries, winners, |entries|) ==> RecordFor(entries, winners, w.gfid) == Some(w.record) {
      forall g | g in winners
        ensures OneRecord(RecordsIn(entries[winners[g].entry]), winners[g].rawId)
      {
        forall r | r in RecordsIn(entries[winners[g].entry]) && r.header.formId == winners[g].rawId
          ensures RecordFor(entries, winners, g) == Some(r)
        {
          ScanMeetsAll(env, es, entries, g, r);
        }
      }
    }
  }

  // --------------------------------------------------------------------------
  // A plugin for which it matters
  // --------------------------------------------------------------------------

  const WEAP: Signature := [0x57, 0x45, 0x41, 0x50]
  const ARMO: Signature := [0x41, 0x52, 0x4D, 0x4F]

  /** A record with FormID 1 and a one-letter editor ID. */
  function Named(signature: Signature, letter: Byte): WritableRecord {
    WritableRecord(signature, 0, 1, 0, [SubRecord(EDID, [letter])])
  }

  const TWINS: seq<WritableGroup> := [WritableGroup(WEAP, 0, [PlainRecord(Named(WEAP, 65)), PlainRecord(Named(ARMO, 66))])]

  lemma TwoTriples(env: Env, es: seq<LoadOrderEntry>, entry: CacheEntry, g: GlobalFormId, a: Record, b: Record)
    requires a.header.formId == b.header.formId != 0 && GlobalId(env, es, entry, a.header.formId) == Some(g)
    ensures WinnersOf(TriplesFrom(env, es, 0, entry, [a, b])) == map[g := Slot(0, a.header.formId, b.header.signature)]
  {
    hide GlobalId, TriplesFrom;
    OneTriple(env, es, 0, entry, a);
    OneTriple(env, es, 0, entry, b);
    assert [a] + [b] == [a, b];
    TriplesConcat(env, es, 0, entry, [a], [b]);
    var first, second := TriplesFrom(env, es, 0, entry, [a]), TriplesFrom(env, es, 0, entry, [b]);
    WinnersConcat(first, second);
    assert first[..0] == [] && second[..0] == [];
    assert WinnersOf([]) == map[];
  }

  lemma TwoWinning(env: Env, es: seq<LoadOrderEntry>, entry: CacheEntry, winners: Winners, g: GlobalFormId, a: Record, b: Record)
    requires a.header.formId == b.header.formId && GlobalId(env, es, entry, a.header.formId) == Some(g)
    requires IsWinner(winners, g, 0, a.header.formId)
    ensures WinningIn(env, es, 0, entry, winners, [a, b]) == [Winning(g, a), Winning(g, b)]
  {
    hide GlobalId, IsWinner;
    assert [a, b][1..] == [b] && [b][1..] == [];
    assert WinningIn(env, es, 0, entry, winners, []) == [];
    assert WinningIn(env, es, 0, entry, winners, [b]) == [Winning(g, b)];
  }

  /** A plugin of two records with one FormID: filed as the second, returned as the first, scanned as both. */
  lemma TwoAlike(env: Env, es: seq<LoadOrderEntry>, entry: CacheEntry, g: GlobalFormId, a: Record, b: Record)
    requires |es| == 1 && RecordsIn(entry) == [a, b]
    requires a.header.formId == b.header.formId != 0 && GlobalId(env, es, entry, a.header.formId) == Some(g)
    ensures var winners := WinnersOf(History(env, es, [entry]));
            winners == map[g := Slot(0, a.header.formId, b.header.signature)]
            && RecordFor([entry], winners, g) == Some(a)
            && AllWinning(env, es, [entry], winners, 1) == [Winning(g, a), Winning(g, b)]
  {
    hide GlobalId, RecordsIn, TriplesFrom, WinnersOf, WinningIn;
    assert [entry][..0] == [] && es[..0] == [] && es[..1] == es;
    var ts := TriplesFrom(env, es, 0, entry, [a, b]);
    assert History(env, [], []) + ts == ts;
    TwoTriples(env, es, entry, g, a, b);
    TwoWinning(env, es, entry, WinnersOf(ts), g, a, b);
    assert AllWinning(env, es, [entry], WinnersOf(ts), 0) == [];
  }

  /** A written record of the plugin carries its letter as editor ID. */
  lemma NamedReads(env: Env, r: Record, signature: Signature, letter: Byte)
    requires SameIdentity(r, Named(signature, letter)) && letter != 0 && env.validUtf8([letter])
    ensures r.header.formId == 1 && r.header.signature == signature && EditorId(env, r) == Some([letter])
  {
    hide FramesOf, SubrecordsOf;
    var sub := SubRecord(EDID, [letter]);
    assert SubrecordsIn(env, r) == Ok([sub]);
    assert First([sub], EDID) == Some(sub);
    assert TrimNuls([letter]) == [letter];
  }

  lemma NamedFits(signature: Signature, letter: Byte)
    requires signature != GRUP
    ensures |WrittenRecord(Named(signature, letter))| == 31 && Serializable(PlainRecord(Named(signature, letter)))
  {
    var sub := SubRecord(EDID, [letter]);
    SubsOne(sub);
    assert |SubRecordBytes(sub)| == 7;
    assert EDID[0] != XXXX[0];
  }

  lemma TwinsFit()
    ensures AllSerializable(AsNested(TWINS)) && EachFits(AsNested(TWINS))
    ensures RecordsOf(AsNested(TWINS)) == [Named(WEAP, 65), Named(ARMO, 66)]
  {
    hide WrittenRecord, Named;
    var a, b := PlainRecord(Named(WEAP, 65)), PlainRecord(Named(ARMO, 66));
    assert WEAP[0] != GRUP[0] && ARMO[0] != GRUP[0];
    NamedFits(WEAP, 65);
    NamedFits(ARMO, 66);
    var cs := TWINS[0].children;
    assert cs == [a, b] && cs[1..] == [b] && [b][1..] == [];
    assert WrittenChildren([b]) == WrittenChild(b) + WrittenChildren([]);
    assert WrittenChildren(cs) == WrittenChild(a) + WrittenChildren([b]);
    assert WrittenChildren([]) == [];
    assert |WrittenChildren(cs)| == 62;
    assert AllSerializable([b]);
    assert AsNested(TWINS)[1..] == [];
    assert |WrittenGroup(TWINS[0])| == 86;
    assert TypeFromRaw(0).Ok?;
    assert Serializable(NestedGroup(TWINS[0]));
    assert RecordsOf([b]) == [b.record] + RecordsOf([]);
    assert RecordsOf(cs) == [a.record] + RecordsOf([b]);
  }

  lemma PlainHeaderFits(version: FloatBits, rs: seq<WritableRecord>)
    ensures HeaderFits(HeaderOver(SkyrimSE, version, [], None, HeaderFlags(SkyrimSE, false, false), rs))
  {
    hide Le32, NextObjectId;
    var h := HeaderOver(SkyrimSE, version, [], None, HeaderFlags(SkyrimSE, false, false), rs);
    assert |h.subrecords| == 1 && |h.subrecords[0].data| == 12;
    assert h.subrecords == [h.subrecords[0]];
    SubsOne(h.subrecords[0]);
    assert |SubRecordBytes(h.subrecords[0])| == 18;
  }

  /** The plugin as the writer writes it and the parser reads it. */
  lemma TwinsRead(env: Env) returns (plugin: Plugin)
    ensures Parsed(env, plugin) && plugin.header.masters == []
    ensures var rs := Flatten(AsChildren(plugin.groups));
            |rs| == 2 && SameIdentity(rs[0], Named(WEAP, 65)) && SameIdentity(rs[1], Named(ARMO, 66))
  {
    hide SubRecordsBytes, PluginOf, Flatten, SameIdentity, AllMirror, ReadRecord, NextObjectId, WrittenRecord, ReadGroups,
         WrittenChildren, HeaderOver, HeaderFits, EachFits, AllSerializable, RecordsOf, AsNested, HeaderFlags;
    var cs, version := AsNested(TWINS), [0, 0, 0, 0];
    TwinsFit();
    PlainHeaderFits(version, RecordsOf(cs));
    WrittenPluginReadsBack(env, SkyrimSE, version, [], None, false, false, TWINS);
    var h := HeaderOver(SkyrimSE, version, [], None, HeaderFlags(SkyrimSE, false, false), RecordsOf(cs));
    plugin := PluginOf(env, SkyrimSE, WrittenRecord(h) + WrittenChildren(cs)).value;
    MirroredRecords(AsChildren(plugin.groups), cs);
  }

  lemma OwnId(env: Env, es: seq<LoadOrderEntry>, entry: CacheEntry)
    requires entry.plugin.header.masters == []
    ensures GlobalId(env, es, entry, 1) == Some(GlobalFormId(env.lower(entry.name), 1))
  {
  }

  /** Whatever the load order, the record returned for the ID is no armour and not named B, though it is found as both. */
  lemma TwinsMisfiled(env: Env, es: seq<LoadOrderEntry>, name: Bytes) returns (plugin: Plugin)
    requires |es| == 1 && env.validUtf8([65]) && env.validUtf8([66])
    ensures Parsed(env, plugin)
    ensures var entries, g := [CacheEntry(name, plugin)], GlobalFormId(env.lower(name), 1);
            var winners := WinnersOf(History(env, es, entries));
            var last := LastWith(env, AllWinning(env, es, entries, winners, 1), [66]);
            && g in winners && winners[g].signature == ARMO && last.Some? && last.value.gfid == g
            && RecordFor(entries, winners, g).Some?
            && RecordFor(entries, winners, g).value.header.signature == WEAP
            && EditorId(env, RecordFor(entries, winners, g).value) == Some([65])
  {
    hide WinnersOf, History, AllWinning, EditorId, SubrecordsIn, Flatten, SameIdentity, RecordFor, GlobalId;
    plugin := TwinsRead(env);
    var entry, rs := CacheEntry(name, plugin), Flatten(AsChildren(plugin.groups));
    NamedReads(env, rs[0], WEAP, 65);
    NamedReads(env, rs[1], ARMO, 66);
    OwnId(env, es, entry);
    assert rs == [rs[0], rs[1]];
    TwoAlike(env, es, entry, GlobalFormId(env.lower(name), 1), rs[0], rs[1]);
  }
}
