/** Load-order slots and the resolution of file-local FormIDs to global ones. */
module LoadOrder {
  import opened Wire
  import opened Records
  import opened Games

  datatype GlobalFormId = GlobalFormId(pluginName: Bytes, objectId: U32)

  datatype LoadOrderEntry = LoadOrderEntry(name: Bytes, index: Byte, kind: PluginKind, lightSlot: Option<U16>)

  const LIGHT_SENTINEL: Byte := 0xFE
  const LIGHT_SLOTS: nat := 0x1000

  /** The slot and object bit fields of a FormID in the light range. */
  function EslSlot(id: FormId): U16 {
    id / 0x1000 % 0x1000
  }

  function EslObject(id: FormId): U16 {
    id % 0x1000
  }

  function CountKind(es: seq<LoadOrderEntry>, light: bool): nat {
    if es == [] then 0
    else CountKind(es[..|es| - 1], light) + if es[|es| - 1].kind.LightPlugin? == light then 1 else 0
  }

  /** The position of the entry that owns a light slot. */
  function FindSlot(es: seq<LoadOrderEntry>, slot: U16): (p: Option<nat>)
    ensures p.Some? ==> p.value < |es| && es[p.value].lightSlot == Some(slot)
  {
    if es == [] then None
    else if es[|es| - 1].lightSlot == Some(slot) then Some(|es| - 1)
    else FindSlot(es[..|es| - 1], slot)
  }

  /** What a raw FormID of a plugin stands for, given the plugins loaded up to and including it. */
  function Resolve(env: Env, es: seq<LoadOrderEntry>, id: FormId, source: Bytes, masters: seq<Bytes>): Option<GlobalFormId> {
    if FileIndex(id) == LIGHT_SENTINEL then
      var owner := FindSlot(es, EslSlot(id));
      if owner.None? then None else Some(GlobalFormId(es[owner.value].name, EslObject(id)))
    else if FileIndex(id) < |masters| then Some(GlobalFormId(env.lower(masters[FileIndex(id)]), ObjectId(id)))
    else if FileIndex(id) == |masters| then Some(GlobalFormId(env.lower(source), ObjectId(id)))
    else None
  }

  /** Slots and indices are handed out in order, each kind from its own counter. */
  ghost predicate WellNumbered(es: seq<LoadOrderEntry>) {
    forall i :: 0 <= i < |es| ==>
      if es[i].kind.LightPlugin?
      then es[i].index == LIGHT_SENTINEL && es[i].lightSlot == Some(CountKind(es[..i], true))
      else es[i].index == CountKind(es[..i], false) && es[i].lightSlot == None
  }

  /** The entry a name maps to: the last one pushed under it. */
  function LastNamed(es: seq<LoadOrderEntry>, name: Bytes): Option<nat> {
    if es == [] then None
    else if es[|es| - 1].name == name then Some(|es| - 1)
    else LastNamed(es[..|es| - 1], name)
  }

  /** The slot table is the scan for the owner, tabulated. */
  ghost predicate SlotTable(es: seq<LoadOrderEntry>, m: map<U16, nat>) {
    forall slot :: FindSlot(es, slot) == if slot in m then Some(m[slot]) else None
  }

  ghost predicate NameTable(es: seq<LoadOrderEntry>, m: map<Bytes, nat>) {
    forall name :: LastNamed(es, name) == if name in m then Some(m[name]) else None
  }

  class LoadOrder {
    const env: Env
    var entries: seq<LoadOrderEntry>
    var byName: map<Bytes, nat>
    var regularIndex: Byte
    var lightSlotCounter: U16
    var byLightSlot: map<U16, nat>

    ghost predicate Valid()
      reads this
    {
      && WellNumbered(entries)
      && regularIndex == CountKind(entries, false) && regularIndex <= LIGHT_SENTINEL
      && lightSlotCounter == CountKind(entries, true) && lightSlotCounter <= LIGHT_SLOTS
      && SlotTable(entries, byLightSlot)
      && NameTable(entries, byName)
    }

    constructor (env: Env)
      ensures Valid() && this.env == env && entries == []
    {
      this.env := env;
      entries, byName, byLightSlot := [], map[], map[];
      regularIndex, lightSlotCounter := 0, 0;
    }

    /** Appends a plugin, or reports that its kind has run out of slots and changes nothing. */
    method Push(name: Bytes, kind: PluginKind) returns (r: Result<LoadOrderEntry>)
      requires Valid()
      modifies this
      ensures Valid()
      ensures r.Ok? <==> if kind.LightPlugin? then CountKind(old(entries), true) < 4096
                         else CountKind(old(entries), false) < 254
      ensures r.Ok? ==> r.value.name == env.lower(name) && r.value.kind == kind && entries == old(entries) + [r.value]
      ensures r.Err? ==> entries == old(entries) && byName == old(byName) && byLightSlot == old(byLightSlot)
                         && regularIndex == old(regularIndex) && lightSlotCounter == old(lightSlotCounter)
      ensures r.Err? ==> r.error == if kind.LightPlugin? then LightSlotOverflow else LoadOrderIndexFull
    {
      hide CountKind, WellNumbered, SlotTable, NameTable;
      var canonical := env.lower(name);
      var entryIndex := |entries|;
      var index: Byte;
      var lightSlot: Option<U16>;
      ghost var before := entries;
      ghost var slots, names := byLightSlot, byName;
      if kind.LightPlugin? {
        if lightSlotCounter > 0xFFF {
          return Err(LightSlotOverflow);
        }
        var slot := lightSlotCounter;
        byLightSlot := byLightSlot[slot := entryIndex];
        lightSlotCounter := lightSlotCounter + 1;
        index, lightSlot := LIGHT_SENTINEL, Some(slot);
      } else {
        if regularIndex >= LIGHT_SENTINEL {
          return Err(LoadOrderIndexFull);
        }
        index, lightSlot := regularIndex, None;
        regularIndex := regularIndex + 1;
      }
      var entry := LoadOrderEntry(canonical, index, kind, lightSlot);
      entries := entries + [entry];
      byName := byName[canonical := entryIndex];
      PushedEntry(before, entry);
      PushedTables(before, entry, slots, names);
      return Ok(entry);
    }

    /** Resolves through the slot table exactly as a scan of the entries would. */
    method ResolveId(id: FormId, source: Bytes, masters: seq<Bytes>) returns (r: Option<GlobalFormId>)
      requires Valid()
      ensures r == Resolve(env, entries, id, source, masters)
    {
      hide CountKind, FileIndex, EslSlot, EslObject, ObjectId, WellNumbered, LastNamed;
      var fileIndex := FileIndex(id);
      if fileIndex == LIGHT_SENTINEL {
        var slot := EslSlot(id);
        if slot !in byLightSlot {
          return None;
        }
        return Some(GlobalFormId(entries[byLightSlot[slot]].name, EslObject(id)));
      }
      var owner: Bytes;
      if fileIndex < |masters| {
        owner := masters[fileIndex];
      } else if fileIndex == |masters| {
        owner := source;
      } else {
        return None;
      }
      return Some(GlobalFormId(env.lower(owner), ObjectId(id)));
    }
  }

  lemma PushedEntry(es: seq<LoadOrderEntry>, entry: LoadOrderEntry)
    requires WellNumbered(es)
    requires if entry.kind.LightPlugin? then entry.index == LIGHT_SENTINEL && entry.lightSlot == Some(CountKind(es, true))
             else entry.index == CountKind(es, false) && entry.lightSlot == None
    ensures WellNumbered(es + [entry])
    ensures CountKind(es + [entry], true) == CountKind(es, true) + if entry.kind.LightPlugin? then 1 else 0
    ensures CountKind(es + [entry], false) == CountKind(es, false) + if entry.kind.LightPlugin? then 0 else 1
  {
    var all := es + [entry];
    assert all[..|es|] == es;
    assert forall i :: 0 <= i < |es| ==> all[..i] == es[..i];
  }

  lemma PushedTables(es: seq<LoadOrderEntry>, entry: LoadOrderEntry, slots: map<U16, nat>, names: map<Bytes, nat>)
    requires SlotTable(es, slots) && NameTable(es, names)
    ensures SlotTable(es + [entry], if entry.lightSlot.Some? then slots[entry.lightSlot.value := |es|] else slots)
    ensures NameTable(es + [entry], names[entry.name := |es|])
  {
    hide FindSlot, LastNamed;
    var newSlots := if entry.lightSlot.Some? then slots[entry.lightSlot.value := |es|] else slots;
    forall slot
      ensures FindSlot(es + [entry], slot) == if slot in newSlots then Some(newSlots[slot]) else None
    {
      FindAfterPush(es, entry, slot, []);
    }
    forall name
      ensures LastNamed(es + [entry], name) == if name in names[entry.name := |es|] then Some(names[entry.name := |es|][name]) else None
    {
      FindAfterPush(es, entry, 0, name);
    }
  }

  lemma FindAfterPush(es: seq<LoadOrderEntry>, entry: LoadOrderEntry, slot: U16, name: Bytes)
    ensures FindSlot(es + [entry], slot) == if entry.lightSlot == Some(slot) then Some(|es|) else FindSlot(es, slot)
    ensures LastNamed(es + [entry], name) == if entry.name == name then Some(|es|) else LastNamed(es, name)
  {
    assert (es + [entry])[..|es|] == es;
  }

  // --------------------------------------------------------------------------
  // Numbers identify plugins
  // --------------------------------------------------------------------------

  lemma {:induction false} CountGrows(es: seq<LoadOrderEntry>, i: nat, light: bool)
    requires i <= |es|
    ensures CountKind(es[..i], light) <= CountKind(es, light)
    ensures i < |es| && es[i].kind.LightPlugin? == light ==> CountKind(es[..i], light) < CountKind(es, light)
    decreases |es|
  {
    if i == |es| {
      assert es[..i] == es;
    } else {
      var init := es[..|es| - 1];
      assert init[..i] == es[..i];
      CountGrows(init, i, light);
    }
  }

  /** No two light plugins share a slot and no two regular plugins share an index. */
  lemma NumbersDistinct(es: seq<LoadOrderEntry>, i: nat, j: nat)
    requires WellNumbered(es) && i < j < |es|
    ensures es[i].lightSlot.Some? ==> es[i].lightSlot != es[j].lightSlot
    ensures !es[i].kind.LightPlugin? && !es[j].kind.LightPlugin? ==> es[i].index != es[j].index
    ensures CountKind(es, false) <= LIGHT_SENTINEL && es[i].index == es[j].index ==>
              es[i].kind.LightPlugin? && es[j].kind.LightPlugin?
  {
    assert es[..j][..i] == es[..i];
    CountGrows(es[..j], i, es[i].kind.LightPlugin?);
    CountGrows(es, j, false);
    CountGrows(es, i, false);
  }

  /** A light slot resolves to the one plugin that holds it. */
  lemma {:induction false} SlotOwner(es: seq<LoadOrderEntry>, i: nat)
    requires WellNumbered(es) && i < |es| && es[i].lightSlot.Some?
    ensures FindSlot(es, es[i].lightSlot.value) == Some(i)
    decreases |es|
  {
    if i < |es| - 1 {
      NumbersDistinct(es, i, |es| - 1);
      var init := es[..|es| - 1];
      assert forall k :: 0 <= k < |init| ==> init[..k] == es[..k];
      SlotOwner(init, i);
    }
  }

  /** Loading more plugins never changes what an already registered slot stands for. */
  lemma {:induction false} ResolutionStable(env: Env, es: seq<LoadOrderEntry>, more: seq<LoadOrderEntry>, id: FormId,
                                            source: Bytes, masters: seq<Bytes>)
    requires WellNumbered(es + more) && Resolve(env, es, id, source, masters).Some?
    ensures Resolve(env, es + more, id, source, masters) == Resolve(env, es, id, source, masters)
  {
    if FileIndex(id) == LIGHT_SENTINEL {
      var p := FindSlot(es, EslSlot(id)).value;
      assert (es + more)[p] == es[p];
      SlotOwner(es + more, p);
    }
  }
}
