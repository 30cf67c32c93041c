/** The cache itself: every run of additions and lookups keeps its tables and its history in step. */
module PluginCache {
  import opened Wire
  import opened Records
  import opened Games
  import opened Plugins
  import opened Traversal
  import opened LoadOrder
  import opened Cache

  type WinningTable = map<nat, map<FormId, GlobalFormId>>

  function Entry(m: WinningTable, e: nat, id: FormId): Option<GlobalFormId> {
    if e in m && id in m[e] then Some(m[e][id]) else None
  }

  /** The table holds exactly the winners in `done`, by plugin and raw FormID. */
  ghost predicate Tabulates(m: WinningTable, winners: Winners, done: set<GlobalFormId>) {
    && (forall e, id :: Entry(m, e, id).Some? ==>
          Entry(m, e, id).value in done && IsWinner(winners, Entry(m, e, id).value, e, id))
    && (forall g :: g in done && g in winners ==> Entry(m, winners[g].entry, winners[g].rawId) == Some(g))
  }

  function Entering(m: WinningTable, slot: Slot, g: GlobalFormId): WinningTable {
    m[slot.entry := (if slot.entry in m then m[slot.entry] else map[])[slot.rawId := g]]
  }

  /** Groups the winners by plugin, in whatever order they come. */
  method TabulateWinners(winners: Winners) returns (m: WinningTable)
    requires Determined(winners)
    ensures Tabulates(m, winners, winners.Keys)
  {
    hide Entering, Determined, Tabulates;
    m := map[];
    var todo := winners.Keys;
    ghost var done: set<GlobalFormId> := {};
    TabulateNothing(winners);
    while todo != {}
      invariant done + todo == winners.Keys && done !! todo
      invariant Tabulates(m, winners, done)
      decreases |todo|
    {
      var g :| g in todo;
      TabulateStep(m, winners, done, g);
      m := Entering(m, winners[g], g);
      todo := todo - {g};
      done := done + {g};
    }
  }

  lemma TabulateNothing(winners: Winners)
    ensures Tabulates(map[], winners, {})
  {
  }

  lemma EnteringEntry(m: WinningTable, slot: Slot, g: GlobalFormId, e: nat, id: FormId)
    ensures Entry(Entering(m, slot, g), e, id) == if e == slot.entry && id == slot.rawId then Some(g) else Entry(m, e, id)
  {
  }

  lemma TabulateStep(m: WinningTable, winners: Winners, done: set<GlobalFormId>, g: GlobalFormId)
    requires Determined(winners) && Tabulates(m, winners, done) && g in winners
    ensures Tabulates(Entering(m, winners[g], g), winners, done + {g})
  {
    hide Entry, Entering;
    var after := Entering(m, winners[g], g);
    forall e, id | Entry(after, e, id).Some?
      ensures Entry(after, e, id).value in done + {g} && IsWinner(winners, Entry(after, e, id).value, e, id)
    {
      EnteringEntry(m, winners[g], g, e, id);
    }
    forall h | h in done + {g} && h in winners
      ensures Entry(after, winners[h].entry, winners[h].rawId) == Some(h)
    {
      EnteringEntry(m, winners[g], g, winners[h].entry, winners[h].rawId);
      if SamePlace(winners[h], winners[g]) {
        assert h == g;
      }
    }
  }

  /** The table answers, for a record of plugin `e`, what the direct scan would. */
  lemma TableAnswers(env: Env, es: seq<LoadOrderEntry>, entries: seq<CacheEntry>, winners: Winners, m: WinningTable, e: nat, id: FormId)
    requires |es| == |entries| && e < |entries| && AllSound(env, es, entries, winners)
    requires Tabulates(m, winners, winners.Keys)
    ensures var g := GlobalId(env, es[..e + 1], entries[e], id);
            Entry(m, e, id) == if g.Some? && IsWinner(winners, g.value, e, id) then g else None
  {
    hide Entry, GlobalId, RecordsIn;
    var g := GlobalId(env, es[..e + 1], entries[e], id);
    var found := Entry(m, e, id);
    if found.Some? {
      assert IsWinner(winners, found.value, e, id);
      assert SlotOk(env, es, entries, found.value, winners[found.value]);
    }
    if g.Some? && IsWinner(winners, g.value, e, id) {
      assert g.value in winners.Keys;
    }
  }

  lemma {:induction false} NothingWinning(env: Env, es: seq<LoadOrderEntry>, entries: seq<CacheEntry>, winners: Winners,
                                          m: WinningTable, e: nat, rs: seq<Record>)
    requires |es| == |entries| && e < |entries| && AllSound(env, es, entries, winners)
    requires Tabulates(m, winners, winners.Keys) && e !in m
    ensures WinningIn(env, es[..e + 1], e, entries[e], winners, rs) == []
    decreases |rs|
  {
    hide GlobalId, IsWinner, AllSound, Tabulates;
    if rs != [] {
      TableAnswers(env, es, entries, winners, m, e, rs[0].header.formId);
      NothingWinning(env, es, entries, winners, m, e, rs[1..]);
    }
  }

  /** Seeing one more winner keeps the index in step. */
  lemma IndexStep(env: Env, index: map<Bytes, GlobalFormId>, ws: seq<Winning>, w: Winning)
    requires IndexAgrees(env, index, ws)
    ensures var eid := EditorId(env, w.record);
            IndexAgrees(env, if eid.Some? then index[eid.value := w.gfid] else index, ws + [w])
  {
    hide EditorId;
    assert (ws + [w])[..|ws|] == ws;
  }

  lemma NoIndex(env: Env)
    ensures IndexAgrees(env, map[], [])
  {
  }

  lemma WinningStep(env: Env, es: seq<LoadOrderEntry>, e: nat, entry: CacheEntry, winners: Winners, rs: seq<Record>, i: nat)
    requires i < |rs|
    ensures var g := GlobalId(env, es, entry, rs[i].header.formId);
            WinningIn(env, es, e, entry, winners, rs[i..])
            == (if g.Some? && IsWinner(winners, g.value, e, rs[i].header.formId) then [Winning(g.value, rs[i])] else [])
               + WinningIn(env, es, e, entry, winners, rs[i + 1..])
  {
    hide GlobalId;
    assert rs[i..][1..] == rs[i + 1..];
  }

  /** Builds the editor-ID index with one pass over every plugin that holds a winner. */
  method BuildIndex(env: Env, ghost es: seq<LoadOrderEntry>, entries: seq<CacheEntry>, winners: Winners)
    returns (index: map<Bytes, GlobalFormId>)
    requires |es| == |entries| && AllSound(env, es, entries, winners) && Determined(winners)
    ensures IndexAgrees(env, index, AllWinning(env, es, entries, winners, |entries|))
  {
    hide IndexAgrees, AllSound, Determined, Tabulates, WinningIn, EditorId, GlobalId, RecordsIn, IsWinner, Entry;
    var winning := TabulateWinners(winners);
    index := map[];
    NoIndex(env);
    for e := 0 to |entries|
      invariant IndexAgrees(env, index, AllWinning(env, es, entries, winners, e))
    {
      ghost var ws := AllWinning(env, es, entries, winners, e);
      ghost var upTo := es[..e + 1];
      var rs := RecordsIn(entries[e]);
      assert AllWinning(env, es, entries, winners, e + 1) == ws + WinningIn(env, upTo, e, entries[e], winners, rs);
      if e !in winning {
        NothingWinning(env, es, entries, winners, winning, e, rs);
        assert ws + [] == ws;
        continue;
      }
      assert rs[0..] == rs;
      for i := 0 to |rs|
        invariant IndexAgrees(env, index, ws)
        invariant ws + WinningIn(env, upTo, e, entries[e], winners, rs[i..]) == AllWinning(env, es, entries, winners, e + 1)
      {
        WinningStep(env, upTo, e, entries[e], winners, rs, i);
        TableAnswers(env, es, entries, winners, winning, e, rs[i].header.formId);
        var gfid := Entry(winning, e, rs[i].header.formId);
        if gfid.Some? {
          var eid := EditorId(env, rs[i]);
          ghost var w := Winning(gfid.value, rs[i]);
          IndexStep(env, index, ws, w);
          Assoc(ws, [w], WinningIn(env, upTo, e, entries[e], winners, rs[i + 1..]));
          if eid.Some? {
            index := index[eid.value := gfid.value];
          }
          ws := ws + [w];
        }
      }
      NoMoreWinning(env, upTo, e, entries[e], winners, rs);
      assert ws + [] == ws;
    }
  }

  lemma NoMoreWinning(env: Env, es: seq<LoadOrderEntry>, e: nat, entry: CacheEntry, winners: Winners, rs: seq<Record>)
    ensures WinningIn(env, es, e, entry, winners, rs[|rs|..]) == []
  {
  }

  lemma TripleStep(env: Env, es: seq<LoadOrderEntry>, e: nat, entry: CacheEntry, rs: seq<Record>, i: nat)
    requires i < |rs|
    ensures var h := rs[i].header;
            var g := GlobalId(env, es, entry, h.formId);
            TriplesFrom(env, es, e, entry, rs[i..])
            == (if h.formId != 0 && g.Some? then [Indexed(g.value, Slot(e, h.formId, h.signature))] else [])
               + TriplesFrom(env, es, e, entry, rs[i + 1..])
  {
    hide GlobalId;
    assert rs[i..][1..] == rs[i + 1..];
  }

  lemma NoTriples(env: Env, es: seq<LoadOrderEntry>, e: nat, entry: CacheEntry, rs: seq<Record>)
    ensures TriplesFrom(env, es, e, entry, rs[|rs|..]) == []
  {
  }

  lemma OneMoreWinner(ts: seq<Indexed>, more: seq<Indexed>, i: nat)
    requires i < |more|
    ensures WinnersOf(ts + more[..i + 1]) == WinnersOf(ts + more[..i])[more[i].gfid := more[i].slot]
  {
    var all := ts + more[..i + 1];
    assert all[..|all| - 1] == ts + more[..i];
  }

  class PluginCache {
    const env: Env
    const loadOrder: LoadOrder
    var entries: seq<CacheEntry>
    var byGlobalId: Winners
    var bySignature: Buckets
    var byEditorId: Option<map<Bytes, GlobalFormId>>

    ghost predicate Valid()
      reads this, loadOrder
    {
      && loadOrder.Valid() && loadOrder.env == env && Registered(loadOrder.entries, entries)
      && byGlobalId == WinnersOf(History(env, loadOrder.entries, entries))
      && Partition(byGlobalId, bySignature)
      && (byEditorId.Some? ==>
            IndexAgrees(env, byEditorId.value, AllWinning(env, loadOrder.entries, entries, byGlobalId, |entries|)))
    }

    constructor (env: Env)
      ensures Valid() && fresh(loadOrder) && this.env == env && entries == []
    {
      this.env := env;
      loadOrder := new LoadOrder(env);
      entries, byGlobalId, bySignature, byEditorId := [], map[], map[], None;
    }

    /** The indexable records of a plugin about to be added, in document order. */
    method CollectTriples(entry: CacheEntry, e: nat) returns (ts: seq<Indexed>)
      requires loadOrder.Valid() && loadOrder.env == env
      ensures ts == TriplesFrom(env, loadOrder.entries, e, entry, RecordsIn(entry))
    {
      hide RecordsIn, TriplesFrom, Resolve;
      var rs := RecordsIn(entry);
      ts := [];
      assert rs[0..] == rs;
      for i := 0 to |rs|
        invariant ts + TriplesFrom(env, loadOrder.entries, e, entry, rs[i..]) == TriplesFrom(env, loadOrder.entries, e, entry, rs)
      {
        TripleStep(env, loadOrder.entries, e, entry, rs, i);
        var h := rs[i].header;
        if h.formId != 0 {
          var gfid := loadOrder.ResolveId(h.formId, entry.name, entry.plugin.header.masters);
          if gfid.Some? {
            var t := Indexed(gfid.value, Slot(e, h.formId, h.signature));
            Assoc(ts, [t], TriplesFrom(env, loadOrder.entries, e, entry, rs[i + 1..]));
            ts := ts + [t];
          }
        }
      }
      NoTriples(env, loadOrder.entries, e, entry, rs);
    }

    /**
     Adds a plugin behind all others. It fails exactly when the load order has no
     slot of the plugin's kind left, and then nothing has changed.
     */
    method Add(name: Bytes, plugin: Plugin) returns (r: Result<()>)
      requires Valid()
      modifies this, loadOrder
      ensures Valid()
      ensures r.Ok? ==> entries == old(entries) + [CacheEntry(env.lower(name), plugin)] && byEditorId == None
      ensures r.Err? ==> entries == old(entries) && byGlobalId == old(byGlobalId) && bySignature == old(bySignature)
                         && byEditorId == old(byEditorId) && loadOrder.entries == old(loadOrder.entries)
                         && loadOrder.byName == old(loadOrder.byName) && loadOrder.byLightSlot == old(loadOrder.byLightSlot)
      ensures r.Ok? <==> var kind := KindFromFlags(plugin.game, plugin.header.record.header.flags);
                         if kind.LightPlugin? then CountKind(old(loadOrder.entries), true) < 4096
                         else CountKind(old(loadOrder.entries), false) < 254
    {
      hide WinnersOf, TriplesFrom, Partition, RecordsIn, CountKind, KindFromFlags, AllWinning, IndexAgrees, Rebucketed;
      var kind := KindFromFlags(plugin.game, plugin.header.record.header.flags);
      var canonical := env.lower(name);
      var entryIndex := |entries|;
      ghost var history := History(env, loadOrder.entries, entries);
      ghost var oldEntries, oldOrder := entries, loadOrder.entries;
      var pushed := loadOrder.Push(name, kind);
      if pushed.Err? {
        return Err(pushed.error);
      }
      var entry := CacheEntry(canonical, plugin);
      var triples := CollectTriples(entry, entryIndex);
      entries := entries + [entry];
      OneMoreRegistered(oldOrder, oldEntries, pushed.value, entry);
      assert loadOrder.entries[..entryIndex] == oldOrder && entries[..entryIndex] == oldEntries;
      assert History(env, loadOrder.entries, entries) == history + triples;
      ghost var grown := entries;
      assert history + triples[..0] == history;
      for i := 0 to |triples|
        invariant loadOrder.Valid() && loadOrder.env == env && entries == grown && Registered(loadOrder.entries, grown)
        invariant History(env, loadOrder.entries, entries) == history + triples
        invariant byGlobalId == WinnersOf(history + triples[..i])
        invariant Partition(byGlobalId, bySignature)
      {
        var gfid, slot := triples[i].gfid, triples[i].slot;
        OneMoreWinner(history, triples, i);
        RebucketedPartition(bySignature, byGlobalId, gfid, slot);
        bySignature := Rebucketed(bySignature, byGlobalId, gfid, slot.signature);
        byGlobalId := byGlobalId[gfid := slot];
      }
      assert triples[..|triples|] == triples;
      byEditorId := None;
      return Ok(());
    }

    /** The winning record of a global ID: there is one exactly if the ID is indexed. */
    method ResolveRecord(gfid: GlobalFormId) returns (r: Option<Record>)
      requires Valid()
      ensures r == RecordFor(entries, byGlobalId, gfid)
      ensures r.Some? <==> gfid in byGlobalId
    {
      hide WinnersOf, History, IndexAgrees, Partition, AllWinning, FirstWith, Flatten;
      WinnerHasRecord(env, loadOrder.entries, entries, gfid);
      if gfid !in byGlobalId {
        return None;
      }
      var slot := byGlobalId[gfid];
      r := FindRecord(entries[slot.entry].plugin.groups, slot.rawId);
    }

    /** The last winning record, in load and document order, that carries the editor ID. */
    method FindByEditorId(eid: Bytes) returns (r: Option<(GlobalFormId, Record)>)
      requires Valid()
      modifies this`byEditorId
      ensures Valid()
      ensures var last := LastWith(env, AllWinning(env, loadOrder.entries, entries, byGlobalId, |entries|), eid);
              (r.Some? <==> last.Some?)
              && (r.Some? ==> r.value.0 == last.value.gfid && Some(r.value.1) == RecordFor(entries, byGlobalId, last.value.gfid))
    {
      hide WinnersOf, History, Partition, AllWinning, LastWith, RecordFor, AllSound, Determined;
      WinnersOk(env, loadOrder.entries, entries);
      if byEditorId.None? {
        var index := BuildIndex(env, loadOrder.entries, entries, byGlobalId);
        byEditorId := Some(index);
      }
      ghost var ws := AllWinning(env, loadOrder.entries, entries, byGlobalId, |entries|);
      if eid !in byEditorId.value {
        return None;
      }
      var gfid := byEditorId.value[eid];
      LastIsWinner(env, loadOrder.entries, entries, byGlobalId, |entries|, eid);
      var record := ResolveRecord(gfid);
      return Some((gfid, record.value));
    }

    /** The winners of one record type, each once, with their records. */
    method RecordsOfType(sig: Signature) returns (r: seq<(GlobalFormId, Record)>)
      requires Valid()
      ensures forall i, j :: 0 <= i < j < |r| ==> r[i].0 != r[j].0
      ensures forall g :: (g in byGlobalId && byGlobalId[g].signature == sig) <==> exists i :: 0 <= i < |r| && r[i].0 == g
      ensures forall i :: 0 <= i < |r| ==> RecordFor(entries, byGlobalId, r[i].0) == Some(r[i].1)
    {
      hide WinnersOf, History, IndexAgrees, AllWinning, RecordFor;
      r := [];
      if sig !in bySignature {
        forall g
          ensures !(g in byGlobalId && byGlobalId[g].signature == sig)
        {
          assert !InBucket(bySignature, sig, g);
        }
        return;
      }
      var gfids := bySignature[sig];
      assert NoRepeats(gfids);
      for i := 0 to |gfids|
        invariant |r| == i
        invariant forall k :: 0 <= k < i ==> r[k].0 == gfids[k] && RecordFor(entries, byGlobalId, r[k].0) == Some(r[k].1)
      {
        assert InBucket(bySignature, sig, gfids[i]);
        var record := ResolveRecord(gfids[i]);
        r := r + [(gfids[i], record.value)];
      }
      forall g
        ensures (g in byGlobalId && byGlobalId[g].signature == sig) <==> exists i :: 0 <= i < |r| && r[i].0 == g
      {
        assert InBucket(bySignature, sig, g) <==> g in gfids;
        if g in gfids {
          var i :| 0 <= i < |gfids| && gfids[i] == g;
          assert r[i].0 == g;
        }
      }
    }
  }

  // --------------------------------------------------------------------------
  // Winning records
  // --------------------------------------------------------------------------

  lemma {:induction false} WinningInOk(env: Env, es: seq<LoadOrderEntry>, e: nat, entry: CacheEntry, winners: Winners, rs: seq<Record>)
    ensures forall w :: w in WinningIn(env, es, e, entry, winners, rs) ==>
              w.record in rs && IsWinner(winners, w.gfid, e, w.record.header.formId)
    decreases |rs|
  {
    hide GlobalId, IsWinner;
    if rs != [] {
      WinningInOk(env, es, e, entry, winners, rs[1..]);
    }
  }

  /** A winning record is one of its plugin's records, under the raw FormID of its global ID. */
  ghost predicate WinningOk(entries: seq<CacheEntry>, winners: Winners, w: Winning) {
    && w.gfid in winners && winners[w.gfid].entry < |entries|
    && winners[w.gfid].rawId == w.record.header.formId
    && w.record in RecordsIn(entries[winners[w.gfid].entry])
  }

  lemma {:induction false} AllWinningOk(env: Env, es: seq<LoadOrderEntry>, entries: seq<CacheEntry>, winners: Winners, n: nat)
    requires n <= |entries| == |es|
    ensures forall w :: w in AllWinning(env, es, entries, winners, n) ==> WinningOk(entries, winners, w)
    decreases n
  {
    hide WinningIn, RecordsIn;
    if n > 0 {
      AllWinningOk(env, es, entries, winners, n - 1);
      WinningInOk(env, es[..n], n - 1, entries[n - 1], winners, RecordsIn(entries[n - 1]));
    }
  }

  lemma {:induction false} LastWithMeaning(env: Env, ws: seq<Winning>, eid: Bytes)
    ensures LastWith(env, ws, eid).Some? ==>
              LastWith(env, ws, eid).value in ws && EditorId(env, LastWith(env, ws, eid).value.record) == Some(eid)
    ensures LastWith(env, ws, eid).None? <==> forall w :: w in ws ==> EditorId(env, w.record) != Some(eid)
    decreases |ws|
  {
    hide EditorId;
    if ws != [] {
      LastWithMeaning(env, ws[..|ws| - 1], eid);
      assert ws == ws[..|ws| - 1] + [ws[|ws| - 1]];
    }
  }

  lemma LastIsWinner(env: Env, es: seq<LoadOrderEntry>, entries: seq<CacheEntry>, winners: Winners, n: nat, eid: Bytes)
    requires n <= |entries| == |es|
    ensures var last := LastWith(env, AllWinning(env, es, entries, winners, n), eid);
            last.Some? ==> last.value.gfid in winners
  {
    hide AllWinning, LastWith;
    AllWinningOk(env, es, entries, winners, n);
    LastWithMeaning(env, AllWinning(env, es, entries, winners, n), eid);
  }
}
