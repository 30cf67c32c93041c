/**
 What raw FormIDs stand for, put together from their parts rather than taken
 apart, and which plugin's record wins a global ID.
 */
module GlobalIds {
  import opened Wire
  import opened Records
  import opened Games
  import opened Traversal
  import opened LoadOrder
  import opened Cache
  import opened PluginCache

  // --------------------------------------------------------------------------
  // What a raw ID stands for
  // --------------------------------------------------------------------------

  /** The raw ID of object `o` of the file at position `k` of a plugin's master list. */
  function RawId(k: nat, o: nat): nat {
    k * 0x100_0000 + o
  }

  ghost predicate IsMaster(env: Env, masters: seq<Bytes>, k: int, name: Bytes) {
    0 <= k < |masters| && k != 0xFE && env.lower(masters[k]) == name
  }

  /** Plugin `i` of the load order is light, the `slot`-th such one, and has that name. */
  ghost predicate IsLight(es: seq<LoadOrderEntry>, i: int, slot: nat, name: Bytes) {
    0 <= i < |es| && es[i].kind.LightPlugin? && CountKind(es[..i], true) == slot && es[i].name == name
  }

  ghost predicate OfMaster(env: Env, masters: seq<Bytes>, id: FormId, name: Bytes, o: nat) {
    o < 0x100_0000 && exists k :: IsMaster(env, masters, k, name) && id == RawId(k, o)
  }

  ghost predicate OfItself(env: Env, entry: CacheEntry, id: FormId, name: Bytes, o: nat) {
    var n := |entry.plugin.header.masters|;
    o < 0x100_0000 && n != 0xFE && id == RawId(n, o) && name == env.lower(entry.name)
  }

  ghost predicate OfLight(es: seq<LoadOrderEntry>, id: FormId, name: Bytes, o: nat) {
    o < 0x1000 && exists i, slot: nat :: IsLight(es, i, slot, name) && id == RawId(0xFE, slot * 0x1000 + o)
  }

  /** In the plugin `entry`, with the plugins `es` loaded, `id` stands for object `o` of the plugin called `name`. */
  ghost predicate StandsFor(env: Env, es: seq<LoadOrderEntry>, entry: CacheEntry, id: FormId, name: Bytes, o: nat) {
    OfMaster(env, entry.plugin.header.masters, id, name, o) || OfItself(env, entry, id, name, o) || OfLight(es, id, name, o)
  }

  /** A load order with unambiguous slots. */
  ghost predicate Numbered(es: seq<LoadOrderEntry>) {
    WellNumbered(es) && CountKind(es, true) <= 0x1000
  }

  lemma Parts(k: nat, o: nat, id: FormId)
    requires o < 0x100_0000
    ensures id == RawId(k, o) <==> FileIndex(id) == k && ObjectId(id) == o
  {
  }

  lemma LightParts(slot: nat, o: nat, id: FormId)
    requires o < 0x1000 && slot < 0x1000
    ensures id == RawId(0xFE, slot * 0x1000 + o) <==> FileIndex(id) == 0xFE && EslSlot(id) == slot && EslObject(id) == o
  {
  }

  lemma SlotSmall(es: seq<LoadOrderEntry>, i: nat)
    requires Numbered(es) && i < |es| && es[i].kind.LightPlugin?
    ensures CountKind(es[..i], true) < 0x1000 && FindSlot(es, CountKind(es[..i], true)) == Some(i)
  {
    hide CountKind, FindSlot;
    CountGrows(es, i, true);
    SlotOwner(es, i);
  }

  /** Resolution finds exactly what the ID stands for. */
  lemma ResolutionExactly(env: Env, es: seq<LoadOrderEntry>, entry: CacheEntry, id: FormId, name: Bytes, o: U32)
    requires Numbered(es)
    ensures GlobalId(env, es, entry, id) == Some(GlobalFormId(name, o)) <==> StandsFor(env, es, entry, id, name, o)
  {
    hide CountKind, FindSlot, WellNumbered, RawId, FileIndex, ObjectId, EslSlot, EslObject;
    var masters, k := entry.plugin.header.masters, FileIndex(id);
    if OfLight(es, id, name, o) {
      var i, slot: nat :| IsLight(es, i, slot, name) && id == RawId(0xFE, slot * 0x1000 + o);
      SlotSmall(es, i);
      LightParts(slot, o, id);
    }
    if OfMaster(env, masters, id, name, o) {
      var j :| IsMaster(env, masters, j, name) && id == RawId(j, o);
      Parts(j, o, id);
    }
    if o < 0x100_0000 {
      Parts(|masters|, o, id);
    }
    if GlobalId(env, es, entry, id) == Some(GlobalFormId(name, o)) {
      ObjectsSmall(id);
      if k == 0xFE {
        var p := FindSlot(es, EslSlot(id)).value;
        LightEntry(es, p);
        LightParts(EslSlot(id), o, id);
        assert IsLight(es, p, EslSlot(id), name);
      } else {
        Parts(k, o, id);
        assert k < |masters| ==> IsMaster(env, masters, k, name);
      }
    }
  }

  lemma LightEntry(es: seq<LoadOrderEntry>, p: nat)
    requires WellNumbered(es) && p < |es| && es[p].lightSlot.Some?
    ensures es[p].kind.LightPlugin? && CountKind(es[..p], true) == es[p].lightSlot.value
  {
    hide CountKind;
  }

  lemma ObjectsSmall(id: FormId)
    ensures ObjectId(id) < 0x100_0000 && EslObject(id) < 0x1000 && EslSlot(id) < 0x1000
  {
  }

  // --------------------------------------------------------------------------
  // Who wins
  // --------------------------------------------------------------------------

  /** Record `i` of the plugin is not null and resolves to `g`. */
  ghost predicate Resolves(env: Env, es: seq<LoadOrderEntry>, entry: CacheEntry, rs: seq<Record>, i: int, g: GlobalFormId) {
    0 <= i < |rs| && rs[i].header.formId != 0 && GlobalId(env, es, entry, rs[i].header.formId) == Some(g)
  }

  /** The last record of the list that resolves to `g` is record `i`. */
  ghost predicate LastResolves(env: Env, es: seq<LoadOrderEntry>, entry: CacheEntry, rs: seq<Record>, i: int, g: GlobalFormId) {
    Resolves(env, es, entry, rs, i, g) && forall j :: Resolves(env, es, entry, rs, j, g) ==> j <= i
  }

  /** What one plugin alone leaves in the index for `g`: the slot of its last record for `g`, if it has one. */
  lemma {:induction false} PluginWinner(env: Env, es: seq<LoadOrderEntry>, e: nat, entry: CacheEntry, rs: seq<Record>, g: GlobalFormId)
    returns (i: int)
    ensures var m := WinnersOf(TriplesFrom(env, es, e, entry, rs));
            if g in m then LastResolves(env, es, entry, rs, i, g) && m[g] == Slot(e, rs[i].header.formId, rs[i].header.signature)
            else forall j :: !Resolves(env, es, entry, rs, j, g)
    decreases |rs|
  {
    hide GlobalId, TriplesFrom;
    NothingIndexed(env, es, e, entry);
    if rs == [] {
      i := 0;
    } else {
      var n := |rs| - 1;
      var before, last := TriplesFrom(env, es, e, entry, rs[..n]), TriplesFrom(env, es, e, entry, [rs[n]]);
      assert rs == rs[..n] + [rs[n]];
      TriplesConcat(env, es, e, entry, rs[..n], [rs[n]]);
      OneTriple(env, es, e, entry, rs[n]);
      WinnersConcat(before, last);
      assert last != [] ==> last[..0] == [];
      i := PluginWinner(env, es, e, entry, rs[..n], g);
      forall j | j < n
        ensures Resolves(env, es, entry, rs, j, g) <==> Resolves(env, es, entry, rs[..n], j, g)
      {
      }
      if g in WinnersOf(last) {
        i := n;
      }
    }
  }

  lemma NothingIndexed(env: Env, es: seq<LoadOrderEntry>, e: nat, entry: CacheEntry)
    ensures TriplesFrom(env, es, e, entry, []) == [] && WinnersOf([]) == map[]
  {
  }

  /** Record `i` of plugin `e` is not null and stands for `g`, with the plugins loaded up to its own. */
  ghost predicate Carries(env: Env, es: seq<LoadOrderEntry>, entries: seq<CacheEntry>, e: int, i: int, g: GlobalFormId)
    requires |es| == |entries|
  {
    && 0 <= e < |entries| && 0 <= i < |RecordsIn(entries[e])|
    && var id := RecordsIn(entries[e])[i].header.formId;
       id != 0 && StandsFor(env, es[..e + 1], entries[e], id, g.pluginName, g.objectId)
  }

  lemma CarriesResolves(env: Env, es: seq<LoadOrderEntry>, entries: seq<CacheEntry>, e: nat, i: int, g: GlobalFormId)
    requires |es| == |entries| && Numbered(es) && e < |entries|
    ensures Carries(env, es, entries, e, i, g) <==> Resolves(env, es[..e + 1], entries[e], RecordsIn(entries[e]), i, g)
  {
    hide GlobalId, StandsFor, RecordsIn, Numbered;
    NumberedPrefix(es, e + 1);
    if 0 <= i < |RecordsIn(entries[e])| {
      ResolutionExactly(env, es[..e + 1], entries[e], RecordsIn(entries[e])[i].header.formId, g.pluginName, g.objectId);
    }
  }

  lemma NumberedPrefix(es: seq<LoadOrderEntry>, n: nat)
    requires Numbered(es) && n <= |es|
    ensures Numbered(es[..n])
  {
    hide CountKind;
    CountGrows(es, n, true);
    assert forall i :: 0 <= i < n ==> es[..n][..i] == es[..i];
  }

  /** A later plugin, or a later record of the same plugin. */
  predicate NotAfter(e: int, i: int, f: int, j: int) {
    e < f || (e == f && i <= j)
  }

  /**
   Main result: after any additions a global ID is indexed exactly if some record
   of some plugin stands for it, and what is stored is the place and the type of
   the last such record, in load order and then in document order.
   */
  lemma {:induction false} LastOneWins(env: Env, es: seq<LoadOrderEntry>, entries: seq<CacheEntry>, g: GlobalFormId)
    returns (i: int)
    requires |es| == |entries| && Numbered(es)
    ensures var winners := WinnersOf(History(env, es, entries));
            if g in winners then
              var s := winners[g];
              Carries(env, es, entries, s.entry, i, g)
              && s.rawId == RecordsIn(entries[s.entry])[i].header.formId
              && s.signature == RecordsIn(entries[s.entry])[i].header.signature
              && forall e, j :: Carries(env, es, entries, e, j, g) ==> NotAfter(e, j, s.entry, i)
            else forall e, j :: !Carries(env, es, entries, e, j, g)
    decreases |entries|
  {
    hide GlobalId, TriplesFrom, StandsFor, RecordsIn, Numbered;
    if entries == [] {
      i := 0;
    } else {
      var n := |entries| - 1;
      var rs := RecordsIn(entries[n]);
      var before, last := History(env, es[..n], entries[..n]), TriplesFrom(env, es, n, entries[n], rs);
      WinnersConcat(before, last);
      NumberedPrefix(es, n);
      assert es[..n + 1] == es;
      forall j
        ensures Carries(env, es, entries, n, j, g) <==> Resolves(env, es, entries[n], rs, j, g)
      {
        CarriesResolves(env, es, entries, n, j, g);
      }
      forall e, j | e < n
        ensures Carries(env, es, entries, e, j, g) <==> Carries(env, es[..n], entries[..n], e, j, g)
      {
        assert 0 <= e ==> es[..n][..e + 1] == es[..e + 1];
      }
      var own := PluginWinner(env, es, n, entries[n], rs, g);
      i := LastOneWins(env, es[..n], entries[..n], g);
      if g in WinnersOf(last) {
        i := own;
      }
    }
  }

  // --------------------------------------------------------------------------
  // Overrides
  // --------------------------------------------------------------------------

  ghost predicate HasRecord(entry: CacheEntry, id: FormId) {
    exists i :: 0 <= i < |RecordsIn(entry)| && RecordsIn(entry)[i].header.formId == id
  }

  /** No other record of the plugin can mean the same object. */
  ghost predicate OnlyRecordFor(entry: CacheEntry, id: FormId, o: nat) {
    forall r :: r in RecordsIn(entry) && r.header.formId != id ==>
      r.header.formId % 0x100_0000 != o && r.header.formId / 0x100_0000 != 0xFE
  }

  /**
   A plugin that names an earlier one as its master `k` overrides it: record `o`
   of the earlier plugin, under its own index, and the later plugin's record `o`
   under index `k` share one global ID, and a lookup of that ID finds the latter.
   */
  lemma OverrideWins(env: Env, es: seq<LoadOrderEntry>, entries: seq<CacheEntry>, a: nat, k: nat, o: nat)
    requires |es| == |entries| && Numbered(es) && a < |entries| - 1 && o < 0x100_0000
    requires var mine := |entries[a].plugin.header.masters|;
             mine < 0x100 && mine != 0xFE && RawId(mine, o) != 0 && HasRecord(entries[a], RawId(mine, o))
    requires var b := entries[|entries| - 1];
             var masters := b.plugin.header.masters;
             k < |masters| && k < 0x100 && k != 0xFE && env.lower(masters[k]) == env.lower(entries[a].name)
             && RawId(k, o) != 0 && HasRecord(b, RawId(k, o)) && OnlyRecordFor(b, RawId(k, o), o)
    ensures var g, b := GlobalFormId(env.lower(entries[a].name), o), entries[|entries| - 1];
            var winners := WinnersOf(History(env, es, entries));
            && (exists i :: Carries(env, es, entries, a, i, g))
            && g in winners && winners[g].entry == |entries| - 1 && winners[g].rawId == RawId(k, o)
            && RecordFor(entries, winners, g) == FirstWith(RecordsIn(b), RawId(k, o)) && RecordFor(entries, winners, g).Some?
  {
    hide RecordsIn, Numbered, WinnersOf, History, CountKind, FirstWith;
    var g, n, mine := GlobalFormId(env.lower(entries[a].name), o), |entries| - 1, |entries[a].plugin.header.masters|;
    var i := RecordPlace(entries[a], RawId(mine, o));
    assert OfItself(env, entries[a], RawId(mine, o), g.pluginName, o);
    assert Carries(env, es, entries, a, i, g);
    var j := RecordPlace(entries[n], RawId(k, o));
    assert IsMaster(env, entries[n].plugin.header.masters, k, g.pluginName);
    assert Carries(env, es, entries, n, j, g);
    var w := LastOneWins(env, es, entries, g);
    OnlyOneCarries(env, es, entries, w, g, RawId(k, o));
    FirstWithMeaning(RecordsIn(entries[n]), RawId(k, o));
  }

  lemma RecordPlace(entry: CacheEntry, id: FormId) returns (i: int)
    requires HasRecord(entry, id)
    ensures 0 <= i < |RecordsIn(entry)| && RecordsIn(entry)[i].header.formId == id && RecordsIn(entry)[i] in RecordsIn(entry)
  {
    hide RecordsIn;
    i :| 0 <= i < |RecordsIn(entry)| && RecordsIn(entry)[i].header.formId == id;
  }

  lemma OnlyOneCarries(env: Env, es: seq<LoadOrderEntry>, entries: seq<CacheEntry>, i: int, g: GlobalFormId, id: FormId)
    requires |es| == |entries| > 0 && Numbered(es) && Carries(env, es, entries, |entries| - 1, i, g)
    requires OnlyRecordFor(entries[|entries| - 1], id, g.objectId)
    ensures RecordsIn(entries[|entries| - 1])[i].header.formId == id
  {
    hide RecordsIn, Numbered, CountKind, IsMaster;
    var r := RecordsIn(entries[|entries| - 1])[i];
    assert r in RecordsIn(entries[|entries| - 1]);
    if OfLight(es[..|entries|], r.header.formId, g.pluginName, g.objectId) {
      assert es[..|entries|] == es;
      var p, slot: nat :| IsLight(es, p, slot, g.pluginName) && r.header.formId == RawId(0xFE, slot * 0x1000 + g.objectId);
      SlotSmall(es, p);
    }
  }

  /** An ID stands for one object of one plugin at most; so masters with different names never share one. */
  lemma MastersApart(env: Env, es: seq<LoadOrderEntry>, entry: CacheEntry, j: nat, k: nat, o: nat,
                     name: Bytes, p: U32, other: Bytes, q: U32)
    requires var masters := entry.plugin.header.masters;
             j < |masters| && k < |masters| && j < 0x100 && k < 0x100 && j != 0xFE && k != 0xFE && o < 0x100_0000
             && env.lower(masters[j]) != env.lower(masters[k])
    requires Numbered(es) && StandsFor(env, es, entry, RawId(j, o), name, p) && StandsFor(env, es, entry, RawId(k, o), other, q)
    ensures GlobalFormId(name, p) != GlobalFormId(other, q)
    ensures name == env.lower(entry.plugin.header.masters[j]) && p == o && other == env.lower(entry.plugin.header.masters[k]) && q == o
  {
    hide Numbered, CountKind, FindSlot;
    var masters := entry.plugin.header.masters;
    assert IsMaster(env, masters, j, env.lower(masters[j])) && IsMaster(env, masters, k, env.lower(masters[k]));
    ResolutionExactly(env, es, entry, RawId(j, o), env.lower(masters[j]), o);
    ResolutionExactly(env, es, entry, RawId(k, o), env.lower(masters[k]), o);
    ResolutionExactly(env, es, entry, RawId(j, o), name, p);
    ResolutionExactly(env, es, entry, RawId(k, o), other, q);
  }

  /** The IDs with the prefix 0xFE: object `o` of the light plugin that was added as number `slot` of its kind. */
  lemma LightIds(env: Env, es: seq<LoadOrderEntry>, entry: CacheEntry, i: nat, o: nat)
    requires Numbered(es) && i < |es| && es[i].kind.LightPlugin? && o < 0x1000
    ensures var slot := CountKind(es[..i], true);
            slot < 0x1000 && forall g: GlobalFormId ::
              StandsFor(env, es, entry, RawId(0xFE, slot * 0x1000 + o), g.pluginName, g.objectId)
              <==> g.pluginName == es[i].name && g.objectId == o
  {
    hide Numbered, CountKind, FindSlot, RawId;
    SlotSmall(es, i);
    var slot := CountKind(es[..i], true);
    IdSmall(slot, o);
    var id := RawId(0xFE, slot * 0x1000 + o);
    assert IsLight(es, i, slot, es[i].name);
    ResolutionExactly(env, es, entry, id, es[i].name, o);
    forall g: GlobalFormId
      ensures StandsFor(env, es, entry, id, g.pluginName, g.objectId) <==> g.pluginName == es[i].name && g.objectId == o
    {
      ResolutionExactly(env, es, entry, id, g.pluginName, g.objectId);
    }
  }

  lemma IdSmall(slot: nat, o: nat)
    requires slot < 0x1000 && o < 0x1000
    ensures RawId(0xFE, slot * 0x1000 + o) < 0x1_0000_0000
  {
  }

  /** The same of a cache, after any sequence of additions and lookups. */
  lemma CacheHolds(c: PluginCache, g: GlobalFormId) returns (i: int)
    requires c.Valid()
    ensures if g in c.byGlobalId then
              var s := c.byGlobalId[g];
              Carries(c.env, c.loadOrder.entries, c.entries, s.entry, i, g)
              && s.rawId == RecordsIn(c.entries[s.entry])[i].header.formId
              && s.signature == RecordsIn(c.entries[s.entry])[i].header.signature
              && forall e, j :: Carries(c.env, c.loadOrder.entries, c.entries, e, j, g) ==> NotAfter(e, j, s.entry, i)
            else forall e, j :: !Carries(c.env, c.loadOrder.entries, c.entries, e, j, g)
  {
    hide Carries, WinnersOf, History, RecordsIn, Partition, IndexAgrees, AllWinning, CountKind, WellNumbered, SlotTable, NameTable;
    i := LastOneWins(c.env, c.loadOrder.entries, c.entries, g);
  }
}
