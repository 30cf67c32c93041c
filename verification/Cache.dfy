/**
 The multi-plugin record cache. The specification works on the history of all
 indexed records in load and document order; the cache keeps three tables that
 must agree with it.
 */
module Cache {
  import opened Wire
  import opened Records
  import opened Subrecords
  import opened Games
  import opened Plugins
  import opened Traversal
  import opened LoadOrder

  datatype CacheEntry = CacheEntry(name: Bytes, plugin: Plugin)

  /** Where a winning record is: its plugin, its raw FormID there, and its type. */
  datatype Slot = Slot(entry: nat, rawId: FormId, signature: Signature)

  datatype Indexed = Indexed(gfid: GlobalFormId, slot: Slot)

  /** A winning record as a direct scan meets it. */
  datatype Winning = Winning(gfid: GlobalFormId, record: Record)

  type Winners = map<GlobalFormId, Slot>
  type Buckets = map<Signature, seq<GlobalFormId>>

  // --------------------------------------------------------------------------
  // History and winners
  // --------------------------------------------------------------------------

  function RecordsIn(entry: CacheEntry): seq<Record> {
    Flatten(AsChildren(entry.plugin.groups))
  }

  function GlobalId(env: Env, es: seq<LoadOrderEntry>, entry: CacheEntry, id: FormId): Option<GlobalFormId> {
    Resolve(env, es, id, entry.name, entry.plugin.header.masters)
  }

  /** The indexable records among `rs`: not null, and resolved to a global ID. */
  function TriplesFrom(env: Env, es: seq<LoadOrderEntry>, e: nat, entry: CacheEntry, rs: seq<Record>): seq<Indexed> {
    if rs == [] then []
    else
      var h := rs[0].header;
      var g := GlobalId(env, es, entry, h.formId);
      (if h.formId != 0 && g.Some? then [Indexed(g.value, Slot(e, h.formId, h.signature))] else [])
      + TriplesFrom(env, es, e, entry, rs[1..])
  }

  /** Everything indexed so far; each plugin is resolved with the plugins loaded up to it. */
  function History(env: Env, es: seq<LoadOrderEntry>, entries: seq<CacheEntry>): seq<Indexed>
    requires |es| == |entries|
    decreases |entries|
  {
    if entries == [] then []
    else
      var n := |entries| - 1;
      History(env, es[..n], entries[..n]) + TriplesFrom(env, es, n, entries[n], RecordsIn(entries[n]))
  }

  /** The last writer of each global ID wins. */
  function WinnersOf(ts: seq<Indexed>): Winners
    decreases |ts|
  {
    if ts == [] then map[] else WinnersOf(ts[..|ts| - 1])[ts[|ts| - 1].gfid := ts[|ts| - 1].slot]
  }

  lemma {:induction false} TriplesConcat(env: Env, es: seq<LoadOrderEntry>, e: nat, entry: CacheEntry, a: seq<Record>, b: seq<Record>)
    ensures TriplesFrom(env, es, e, entry, a + b) == TriplesFrom(env, es, e, entry, a) + TriplesFrom(env, es, e, entry, b)
    decreases |a|
  {
    hide GlobalId;
    if a == [] {
      assert a + b == b;
    } else {
      assert (a + b)[1..] == a[1..] + b;
      TriplesConcat(env, es, e, entry, a[1..], b);
    }
  }

  lemma {:induction false} WinnersConcat(a: seq<Indexed>, b: seq<Indexed>)
    ensures WinnersOf(a + b) == WinnersOf(a) + WinnersOf(b)
    decreases |b|
  {
    if b == [] {
      assert a + b == a;
    } else {
      var n := |b| - 1;
      assert (a + b)[..|a + b| - 1] == a + b[..n];
      WinnersConcat(a, b[..n]);
    }
  }

  lemma OneTriple(env: Env, es: seq<LoadOrderEntry>, e: nat, entry: CacheEntry, r: Record)
    ensures var h, g := r.header, GlobalId(env, es, entry, r.header.formId);
            TriplesFrom(env, es, e, entry, [r])
            == if h.formId != 0 && g.Some? then [Indexed(g.value, Slot(e, h.formId, h.signature))] else []
  {
    hide GlobalId;
    assert [r][1..] == [];
  }

  /** Every winner is in the bucket of its record type, once, and nothing else is in any bucket. */
  ghost predicate Partition(winners: Winners, buckets: Buckets) {
    && (forall sig :: sig in buckets ==> NoRepeats(buckets[sig]))
    && (forall sig, g :: InBucket(buckets, sig, g) <==> g in winners && winners[g].signature == sig)
  }

  ghost predicate NoRepeats(s: seq<GlobalFormId>) {
    forall i, j :: 0 <= i < j < |s| ==> s[i] != s[j]
  }

  ghost predicate InBucket(buckets: Buckets, sig: Signature, g: GlobalFormId) {
    sig in buckets && g in buckets[sig]
  }

  function Without(s: seq<GlobalFormId>, g: GlobalFormId): seq<GlobalFormId> {
    if s == [] then [] else (if s[0] == g then [] else [s[0]]) + Without(s[1..], g)
  }

  lemma {:induction false} WithoutMeaning(s: seq<GlobalFormId>, g: GlobalFormId)
    ensures forall x :: x in Without(s, g) <==> x in s && x != g
    ensures NoRepeats(s) ==> NoRepeats(Without(s, g))
    decreases |s|
  {
    if s != [] {
      WithoutMeaning(s[1..], g);
      assert s == [s[0]] + s[1..];
      if NoRepeats(s) {
        assert forall i :: 0 <= i < |s[1..]| ==> s[1..][i] == s[i + 1];
        assert s[0] !in s[1..];
      }
    }
  }

  /** Moves one global ID out of the bucket of its old record type and into that of its new one. */
  function Rebucketed(buckets: Buckets, winners: Winners, g: GlobalFormId, sig: Signature): Buckets {
    var cleaned := if g in winners && winners[g].signature in buckets
                   then buckets[winners[g].signature := Without(buckets[winners[g].signature], g)]
                   else buckets;
    cleaned[sig := (if sig in cleaned then cleaned[sig] else []) + [g]]
  }

  lemma RebucketedMember(buckets: Buckets, winners: Winners, g: GlobalFormId, slot: Slot, sig: Signature, x: GlobalFormId)
    requires Partition(winners, buckets)
    ensures var after := Rebucketed(buckets, winners, g, slot.signature);
            InBucket(after, sig, x) <==> x in winners[g := slot] && winners[g := slot][x].signature == sig
  {
    hide Without, NoRepeats;
    if g in winners {
      assert InBucket(buckets, winners[g].signature, g);
      WithoutMeaning(buckets[winners[g].signature], g);
    }
    assert InBucket(buckets, sig, x) <==> x in winners && winners[x].signature == sig;
    assert InBucket(buckets, sig, g) <==> g in winners && winners[g].signature == sig;
  }

  lemma RebucketedOnce(buckets: Buckets, winners: Winners, g: GlobalFormId, slot: Slot, sig: Signature)
    requires Partition(winners, buckets)
    ensures var after := Rebucketed(buckets, winners, g, slot.signature);
            sig in after ==> NoRepeats(after[sig])
  {
    hide Without;
    if g in winners {
      assert InBucket(buckets, winners[g].signature, g);
      WithoutMeaning(buckets[winners[g].signature], g);
    }
    assert InBucket(buckets, sig, g) <==> g in winners && winners[g].signature == sig;
  }

  lemma RebucketedPartition(buckets: Buckets, winners: Winners, g: GlobalFormId, slot: Slot)
    requires Partition(winners, buckets)
    ensures Partition(winners[g := slot], Rebucketed(buckets, winners, g, slot.signature))
  {
    hide Rebucketed, InBucket, NoRepeats;
    var after := Rebucketed(buckets, winners, g, slot.signature);
    forall sig | sig in after
      ensures NoRepeats(after[sig])
    {
      RebucketedOnce(buckets, winners, g, slot, sig);
    }
    forall sig, x
      ensures InBucket(after, sig, x) <==> x in winners[g := slot] && winners[g := slot][x].signature == sig
    {
      RebucketedMember(buckets, winners, g, slot, sig, x);
    }
  }

  /** Load order and cache list the same plugins, with the kinds their headers say. */
  ghost predicate Registered(es: seq<LoadOrderEntry>, entries: seq<CacheEntry>) {
    |es| == |entries|
    && forall i :: 0 <= i < |es| ==>
         es[i].name == entries[i].name
         && es[i].kind == KindFromFlags(entries[i].plugin.game, entries[i].plugin.header.record.header.flags)
  }

  lemma OneMoreRegistered(es: seq<LoadOrderEntry>, entries: seq<CacheEntry>, e: LoadOrderEntry, entry: CacheEntry)
    requires Registered(es, entries) && e.name == entry.name
    requires e.kind == KindFromFlags(entry.plugin.game, entry.plugin.header.record.header.flags)
    ensures Registered(es + [e], entries + [entry])
  {
    hide KindFromFlags;
  }

  // --------------------------------------------------------------------------
  // Lookups, as scans
  // --------------------------------------------------------------------------

  /** The record behind a winner: the first one with its raw FormID in its plugin. */
  function RecordFor(entries: seq<CacheEntry>, winners: Winners, g: GlobalFormId): Option<Record> {
    if g in winners && winners[g].entry < |entries|
    then FirstWith(RecordsIn(entries[winners[g].entry]), winners[g].rawId)
    else None
  }

  function EditorId(env: Env, r: Record): Option<Bytes> {
    var subs := SubrecordsIn(env, r);
    if subs.Err? then None
    else
      var edid := First(subs.value, EDID);
      if edid.None? then None else ZString(env, edid.value.data)
  }

  /** Whether `g` is the winner recorded for raw FormID `id` of plugin `e`. */
  predicate IsWinner(winners: Winners, g: GlobalFormId, e: nat, id: FormId) {
    g in winners && winners[g].entry == e && winners[g].rawId == id
  }

  /** The winning ones among the records of plugin `e`. */
  function WinningIn(env: Env, es: seq<LoadOrderEntry>, e: nat, entry: CacheEntry, winners: Winners, rs: seq<Record>): seq<Winning> {
    if rs == [] then []
    else
      var g := GlobalId(env, es, entry, rs[0].header.formId);
      (if g.Some? && IsWinner(winners, g.value, e, rs[0].header.formId) then [Winning(g.value, rs[0])] else [])
      + WinningIn(env, es, e, entry, winners, rs[1..])
  }

  /** All winning records of the first `n` plugins, in load and document order. */
  function AllWinning(env: Env, es: seq<LoadOrderEntry>, entries: seq<CacheEntry>, winners: Winners, n: nat): seq<Winning>
    requires n <= |entries| == |es|
    decreases n
  {
    if n == 0 then []
    else AllWinning(env, es, entries, winners, n - 1)
         + WinningIn(env, es[..n], n - 1, entries[n - 1], winners, RecordsIn(entries[n - 1]))
  }

  function LastWith(env: Env, ws: seq<Winning>, eid: Bytes): Option<Winning>
    decreases |ws|
  {
    if ws == [] then None
    else if EditorId(env, ws[|ws| - 1].record) == Some(eid) then Some(ws[|ws| - 1])
    else LastWith(env, ws[..|ws| - 1], eid)
  }

  /** The index holds, for each editor ID, the winner a scan from the end finds first. */
  ghost predicate IndexAgrees(env: Env, index: map<Bytes, GlobalFormId>, ws: seq<Winning>) {
    forall eid :: (eid in index <==> LastWith(env, ws, eid).Some?)
                  && (eid in index ==> index[eid] == LastWith(env, ws, eid).value.gfid)
  }

  // --------------------------------------------------------------------------
  // What winners are
  // --------------------------------------------------------------------------

  /** The slot names a record of its plugin that resolves to the global ID. */
  ghost predicate SlotOk(env: Env, es: seq<LoadOrderEntry>, entries: seq<CacheEntry>, g: GlobalFormId, s: Slot)
    requires |es| == |entries|
  {
    && s.entry < |entries| && s.rawId != 0
    && GlobalId(env, es[..s.entry + 1], entries[s.entry], s.rawId) == Some(g)
    && exists r :: r in RecordsIn(entries[s.entry]) && r.header.formId == s.rawId && r.header.signature == s.signature
  }

  ghost predicate AllOk(env: Env, es: seq<LoadOrderEntry>, entries: seq<CacheEntry>, ts: seq<Indexed>)
    requires |es| == |entries|
  {
    forall t :: t in ts ==> SlotOk(env, es, entries, t.gfid, t.slot)
  }

  lemma {:induction false} TriplesOk(env: Env, es: seq<LoadOrderEntry>, entries: seq<CacheEntry>, e: nat, rs: seq<Record>)
    requires |es| == |entries| && e < |entries| && forall r :: r in rs ==> r in RecordsIn(entries[e])
    ensures AllOk(env, es, entries, TriplesFrom(env, es[..e + 1], e, entries[e], rs))
    decreases |rs|
  {
    hide RecordsIn, GlobalId;
    if rs != [] {
      TriplesOk(env, es, entries, e, rs[1..]);
      var h := rs[0].header;
      var g := GlobalId(env, es[..e + 1], entries[e], h.formId);
      if h.formId != 0 && g.Some? {
        assert rs[0] in RecordsIn(entries[e]);
        assert SlotOk(env, es, entries, g.value, Slot(e, h.formId, h.signature));
      }
    }
  }

  lemma {:induction false} HistoryOk(env: Env, es: seq<LoadOrderEntry>, entries: seq<CacheEntry>)
    requires |es| == |entries|
    ensures AllOk(env, es, entries, History(env, es, entries))
    decreases |entries|
  {
    hide RecordsIn, GlobalId, TriplesFrom, SlotOk;
    if entries != [] {
      var n := |entries| - 1;
      HistoryOk(env, es[..n], entries[..n]);
      assert es[..n + 1] == es;
      TriplesOk(env, es, entries, n, RecordsIn(entries[n]));
      forall t | t in History(env, es[..n], entries[..n])
        ensures SlotOk(env, es, entries, t.gfid, t.slot)
      {
        SlotStaysOk(env, es, entries, n, t.gfid, t.slot);
      }
    }
  }

  lemma SlotStaysOk(env: Env, es: seq<LoadOrderEntry>, entries: seq<CacheEntry>, n: nat, g: GlobalFormId, s: Slot)
    requires |es| == |entries| && n <= |es| && SlotOk(env, es[..n], entries[..n], g, s)
    ensures SlotOk(env, es, entries, g, s)
  {
    hide RecordsIn, GlobalId;
    assert es[..n][..s.entry + 1] == es[..s.entry + 1];
    assert entries[..n][s.entry] == entries[s.entry];
  }

  lemma {:induction false} WinnersInHistory(ts: seq<Indexed>, g: GlobalFormId)
    ensures g in WinnersOf(ts) <==> exists t :: t in ts && t.gfid == g
    ensures g in WinnersOf(ts) ==> Indexed(g, WinnersOf(ts)[g]) in ts
    decreases |ts|
  {
    if ts != [] {
      WinnersInHistory(ts[..|ts| - 1], g);
      assert ts == ts[..|ts| - 1] + [ts[|ts| - 1]];
    }
  }

  /** Plugin and raw FormID determine the global ID. */
  ghost predicate Determined(winners: Winners) {
    forall g, h :: g in winners && h in winners && SamePlace(winners[g], winners[h]) ==> g == h
  }

  ghost predicate SamePlace(a: Slot, b: Slot) {
    a.entry == b.entry && a.rawId == b.rawId
  }

  ghost predicate AllSound(env: Env, es: seq<LoadOrderEntry>, entries: seq<CacheEntry>, winners: Winners)
    requires |es| == |entries|
  {
    forall g :: g in winners ==> SlotOk(env, es, entries, g, winners[g])
  }

  lemma WinnersOk(env: Env, es: seq<LoadOrderEntry>, entries: seq<CacheEntry>)
    requires |es| == |entries|
    ensures var winners := WinnersOf(History(env, es, entries));
            AllSound(env, es, entries, winners) && Determined(winners)
  {
    hide WinnersOf, History, SlotOk, SamePlace;
    HistoryOk(env, es, entries);
    var ts := History(env, es, entries);
    var winners := WinnersOf(ts);
    forall g | g in winners
      ensures SlotOk(env, es, entries, g, winners[g])
    {
      WinnersInHistory(ts, g);
      assert Indexed(g, winners[g]) in ts;
    }
    forall g, h | g in winners && h in winners && SamePlace(winners[g], winners[h])
      ensures g == h
    {
      SlotDetermines(env, es, entries, g, h, winners[g], winners[h]);
    }
  }

  lemma SlotDetermines(env: Env, es: seq<LoadOrderEntry>, entries: seq<CacheEntry>, g: GlobalFormId, h: GlobalFormId, a: Slot, b: Slot)
    requires |es| == |entries| && SlotOk(env, es, entries, g, a) && SlotOk(env, es, entries, h, b) && SamePlace(a, b)
    ensures g == h
  {
    hide RecordsIn, GlobalId;
  }

  /** Every indexed ID leads to a record with its raw FormID. */
  lemma WinnerHasRecord(env: Env, es: seq<LoadOrderEntry>, entries: seq<CacheEntry>, g: GlobalFormId)
    requires |es| == |entries|
    ensures var winners := WinnersOf(History(env, es, entries));
            (g in winners <==> RecordFor(entries, winners, g).Some?)
            && (g in winners ==> RecordFor(entries, winners, g).value.header.formId == winners[g].rawId)
  {
    hide WinnersOf, History, FirstWith, RecordsIn, GlobalId;
    WinnersOk(env, es, entries);
    var winners := WinnersOf(History(env, es, entries));
    if g in winners {
      assert SlotOk(env, es, entries, g, winners[g]);
      FirstWithMeaning(RecordsIn(entries[winners[g].entry]), winners[g].rawId);
    }
  }

  /** The editor ID of a record is the text of its first EDID subrecord. */
  lemma EditorIdIs(env: Env, r: Record, k: nat)
    requires SubrecordsIn(env, r).Ok? && k < |SubrecordsIn(env, r).value|
    requires SubrecordsIn(env, r).value[k].signature == [69, 68, 73, 68]
    requires forall j :: 0 <= j < k ==> SubrecordsIn(env, r).value[j].signature != [69, 68, 73, 68]
    ensures EditorId(env, r) == ZString(env, SubrecordsIn(env, r).value[k].data)
  {
    hide SubrecordsIn, ZString;
    FirstAt(SubrecordsIn(env, r).value, EDID, k);
  }

  lemma {:induction false} FirstAt(subs: seq<SubRecord>, signature: Signature, k: nat)
    requires k < |subs| && subs[k].signature == signature && forall j :: 0 <= j < k ==> subs[j].signature != signature
    ensures First(subs, signature) == Some(subs[k])
    decreases k
  {
    if k > 0 {
      assert forall j :: 0 <= j < k - 1 ==> subs[1..][j] == subs[j + 1];
      FirstAt(subs[1..], signature, k - 1);
    }
  }
}
