/**
 Compacting a plugin's own FormIDs into the light range: the assignment of new
 IDs, the in-place renaming of embedded references, and what both preserve.
 */
module Eslify {
  import opened Wire
  import opened Records
  import opened Subrecords
  import opened Games
  import opened Writable

  type Remap = map<FormId, FormId>

  const LIGHT_INDEX: nat := 0xFE
  const LIGHT_BASE: nat := 0xFE00_0000

  // --------------------------------------------------------------------------
  // The records and the IDs they get
  // --------------------------------------------------------------------------

  function RecordsOf(cs: seq<WritableChild>): seq<WritableRecord>
    decreases cs, 0
  {
    if cs == [] then [] else RecordsOfChild(cs[0]) + RecordsOf(cs[1..])
  }

  function RecordsOfChild(c: WritableChild): seq<WritableRecord>
    decreases c, 0
  {
    match c
    case PlainRecord(r) => [r]
    case NestedGroup(g) => RecordsOf(g.children)
  }

  /** The FormIDs of the records that belong to the plugin itself, in document order. */
  function OwnedIds(rs: seq<WritableRecord>, masterCount: Byte): seq<FormId> {
    if rs == [] then []
    else (if FileIndex(rs[0].formId) == masterCount then [rs[0].formId] else []) + OwnedIds(rs[1..], masterCount)
  }

  /** New IDs in order of appearance; a repeated ID keeps the last one assigned. */
  function RemapOf(ids: seq<FormId>, first: nat): (m: Remap)
    requires first + |ids| <= 0x1000
  {
    if ids == [] then map[]
    else
      var n := |ids| - 1;
      RemapOf(ids[..n], first)[ids[n] := LIGHT_BASE + first + n]
  }

  method BuildRemap(ids: seq<FormId>, first: nat) returns (m: Remap)
    requires first + |ids| <= 0x1000
    ensures m == RemapOf(ids, first)
  {
    m := map[];
    for i := 0 to |ids|
      invariant m == RemapOf(ids[..i], first)
    {
      assert ids[..i + 1][..i] == ids[..i];
      m := m[ids[i] := LIGHT_BASE + first + i];
    }
    assert ids[..|ids|] == ids;
  }

  ghost predicate Injective(m: Remap) {
    forall a, b :: a in m && b in m && m[a] == m[b] ==> a == b
  }

  /** The keys are the owned IDs; each gets a new ID of its own in the light range. */
  lemma {:induction false} RemapMeaning(ids: seq<FormId>, first: nat)
    requires first + |ids| <= 0x1000
    ensures var m := RemapOf(ids, first);
            (forall x :: x in m <==> x in ids) && Injective(m)
            && forall x :: x in m ==> LIGHT_BASE + first <= m[x] < LIGHT_BASE + first + |ids|
    decreases |ids|
  {
    if ids != [] {
      var n := |ids| - 1;
      RemapMeaning(ids[..n], first);
      assert ids == ids[..n] + [ids[n]];
    }
  }

  lemma LightRange(first: nat, id: FormId)
    requires LIGHT_BASE + first <= id <= LIGHT_BASE + LIGHT_MAX_OBJECT_ID
    ensures FileIndex(id) == LIGHT_INDEX && first <= ObjectId(id) <= LIGHT_MAX_OBJECT_ID
  {
  }

  lemma {:induction false} OwnedMeaning(rs: seq<WritableRecord>, masterCount: Byte)
    ensures |OwnedIds(rs, masterCount)| <= |rs|
    ensures forall x :: x in OwnedIds(rs, masterCount)
                        <==> FileIndex(x) == masterCount && exists r :: r in rs && r.formId == x
    decreases |rs|
  {
    hide FileIndex;
    if rs != [] {
      OwnedMeaning(rs[1..], masterCount);
      assert rs == [rs[0]] + rs[1..];
    }
  }

  // --------------------------------------------------------------------------
  // Renaming bytes in place
  // --------------------------------------------------------------------------

  function Rename(m: Remap, id: FormId): FormId {
    if id in m then m[id] else id
  }

  /** Every aligned word renamed, the up to three bytes behind the last word kept. */
  function RenamedBytes(s: Bytes, m: Remap): (r: Bytes)
    ensures |r| == |s|
    decreases |s|
  {
    if |s| < 4 then s
    else (if U32At(s, 0) in m then Le32(m[U32At(s, 0)]) else s[..4]) + RenamedBytes(s[4..], m)
  }

  /** Scans the payload word by word and overwrites the words that are keys. */
  method RemapFormIdsInBytes(data: array<Byte>, m: Remap)
    modifies data
    ensures data[..] == RenamedBytes(old(data[..]), m)
  {
    hide Le32, U32At;
    var len := data.Length;
    ghost var was := data[..];
    var i := 0;
    assert was[0..] == was;
    while i + 4 <= len
      invariant i <= len
      invariant data[i..] == was[i..]
      invariant data[..i] + RenamedBytes(was[i..], m) == RenamedBytes(was, m)
    {
      ghost var done := data[..i];
      var raw := U32At([data[i], data[i + 1], data[i + 2], data[i + 3]], 0);
      assert [data[i], data[i + 1], data[i + 2], data[i + 3]] == was[i..][..4];
      RenameStep(was[i..], m);
      assert was[i..][4..] == was[i + 4..];
      ghost var word := was[i..][..4];
      if raw in m {
        var b := Le32(m[raw]);
        data[i], data[i + 1], data[i + 2], data[i + 3] := b[0], b[1], b[2], b[3];
        word := b;
      }
      assert data[..i] == done;
      assert data[..i + 4] == done + word;
      assert data[i + 4..] == was[i + 4..];
      Assoc(done, word, RenamedBytes(was[i + 4..], m));
      i := i + 4;
    }
    assert data[..] == data[..i] + data[i..];
  }

  lemma RenameStep(s: Bytes, m: Remap)
    requires |s| >= 4
    ensures U32At(s, 0) == U32At(s[..4], 0)
    ensures RenamedBytes(s, m)
         == (if U32At(s[..4], 0) in m then Le32(m[U32At(s[..4], 0)]) else s[..4]) + RenamedBytes(s[4..], m)
  {
  }

  /** The aligned word number `k` of a payload. */
  function WordAt(s: Bytes, k: nat): FormId
    requires 4 * k + 4 <= |s|
  {
    U32At(s, 4 * k)
  }

  /** Word by word, renaming bytes is renaming the words at once; it changes a word exactly if it is a key. */
  lemma {:induction false} RenamedWord(s: Bytes, m: Remap, k: nat)
    requires 4 * k + 4 <= |s|
    ensures WordAt(RenamedBytes(s, m), k) == Rename(m, WordAt(s, k))
    decreases k
  {
    hide Le32, U32At, RenamedBytes;
    RenameStep(s, m);
    var r := RenamedBytes(s, m);
    if k == 0 {
      RenameStep(r, m);
      if U32At(s, 0) in m {
        assert r[0..4] == Le32(m[U32At(s, 0)]);
        Word32(r, 0, m[U32At(s, 0)]);
      } else {
        assert r[..4] == s[..4];
      }
    } else {
      RenamedWord(s[4..], m, k - 1);
      assert r[4..] == RenamedBytes(s[4..], m);
      WordBehind(s, k);
      WordBehind(r, k);
    }
  }

  lemma WordBehind(s: Bytes, k: nat)
    requires 0 < k && 4 * k + 4 <= |s|
    ensures WordAt(s, k) == WordAt(s[4..], k - 1)
  {
  }

  lemma {:induction false} RenamedTail(s: Bytes, m: Remap)
    ensures RenamedBytes(s, m)[|s| / 4 * 4..] == s[|s| / 4 * 4..]
    decreases |s|
  {
    hide Le32, U32At;
    if |s| >= 4 {
      RenamedTail(s[4..], m);
      var r, n := RenamedBytes(s, m), |s| / 4 * 4;
      assert r[4..] == RenamedBytes(s[4..], m);
      assert |s[4..]| / 4 * 4 == n - 4;
      assert r[n..] == r[4..][n - 4..] && s[n..] == s[4..][n - 4..];
    }
  }

  // --------------------------------------------------------------------------
  // Renaming a tree
  // --------------------------------------------------------------------------

  function RenamedSubs(subs: seq<SubRecord>, m: Remap): (r: seq<SubRecord>)
    ensures |r| == |subs|
    ensures forall j :: 0 <= j < |subs| ==> r[j] == subs[j].(data := RenamedBytes(subs[j].data, m))
  {
    seq(|subs|, j requires 0 <= j < |subs| => subs[j].(data := RenamedBytes(subs[j].data, m)))
  }

  function RenamedRecord(r: WritableRecord, m: Remap): WritableRecord {
    r.(formId := Rename(m, r.formId), subrecords := RenamedSubs(r.subrecords, m))
  }

  function RenamedChild(c: WritableChild, m: Remap): WritableChild
    decreases c, 0
  {
    match c
    case PlainRecord(r) => PlainRecord(RenamedRecord(r, m))
    case NestedGroup(g) => NestedGroup(RenamedGroup(g, m))
  }

  function RenamedGroup(g: WritableGroup, m: Remap): WritableGroup
    decreases g, 1
  {
    g.(children := RenamedChildren(g.children, m))
  }

  function RenamedChildren(cs: seq<WritableChild>, m: Remap): (r: seq<WritableChild>)
    ensures |r| == |cs|
    decreases cs, 0
  {
    if cs == [] then [] else [RenamedChild(cs[0], m)] + RenamedChildren(cs[1..], m)
  }

  method ApplyInRecord(record: WritableRecord, m: Remap) returns (r: WritableRecord)
    ensures r == RenamedRecord(record, m)
  {
    hide RenamedBytes;
    var formId := record.formId;
    if formId in m {
      formId := m[formId];
    }
    var subs: seq<SubRecord> := [];
    for j := 0 to |record.subrecords|
      invariant subs == RenamedSubs(record.subrecords, m)[..j]
    {
      var sub := record.subrecords[j];
      var data := new Byte[|sub.data|](k requires 0 <= k < |sub.data| => sub.data[k]);
      assert data[..] == sub.data;
      RemapFormIdsInBytes(data, m);
      subs := subs + [sub.(data := data[..])];
    }
    r := record.(formId := formId, subrecords := subs);
  }

  method ApplyInGroup(group: WritableGroup, m: Remap) returns (r: WritableGroup)
    ensures r == RenamedGroup(group, m)
    decreases group
  {
    hide RenamedRecord, RenamedChildren;
    var children: seq<WritableChild> := [];
    assert group.children[0..] == group.children;
    for i := 0 to |group.children|
      invariant children + RenamedChildren(group.children[i..], m) == RenamedChildren(group.children, m)
    {
      RenamedStep(group.children, i, m);
      Assoc(children, [RenamedChild(group.children[i], m)], RenamedChildren(group.children[i + 1..], m));
      match group.children[i] {
        case PlainRecord(record) =>
          var renamed := ApplyInRecord(record, m);
          children := children + [PlainRecord(renamed)];
        case NestedGroup(inner) =>
          var renamed := ApplyInGroup(inner, m);
          children := children + [NestedGroup(renamed)];
      }
    }
    assert RenamedChildren(group.children[|group.children|..], m) == [];
    r := group.(children := children);
  }

  lemma RenamedStep(cs: seq<WritableChild>, i: nat, m: Remap)
    requires i < |cs|
    ensures RenamedChildren(cs[i..], m) == [RenamedChild(cs[i], m)] + RenamedChildren(cs[i + 1..], m)
  {
    assert cs[i..][0] == cs[i] && cs[i..][1..] == cs[i + 1..];
  }

  // --------------------------------------------------------------------------
  // What renaming keeps
  // --------------------------------------------------------------------------

  /** In document order, each record is renamed on its own. */
  lemma {:induction false} RenamedRecords(cs: seq<WritableChild>, m: Remap)
    ensures |RecordsOf(RenamedChildren(cs, m))| == |RecordsOf(cs)|
    ensures forall i :: 0 <= i < |RecordsOf(cs)| ==> RecordsOf(RenamedChildren(cs, m))[i] == RenamedRecord(RecordsOf(cs)[i], m)
    decreases cs, 0
  {
    hide RenamedRecord;
    if cs != [] {
      RenamedRecordsIn(cs[0], m);
      RenamedRecords(cs[1..], m);
      assert RenamedChildren(cs, m)[1..] == RenamedChildren(cs[1..], m);
    }
  }

  lemma {:induction false} RenamedRecordsIn(c: WritableChild, m: Remap)
    ensures |RecordsOfChild(RenamedChild(c, m))| == |RecordsOfChild(c)|
    ensures forall i :: 0 <= i < |RecordsOfChild(c)| ==>
              RecordsOfChild(RenamedChild(c, m))[i] == RenamedRecord(RecordsOfChild(c)[i], m)
    decreases c, 0
  {
    hide RenamedRecord;
    if c.NestedGroup? {
      RenamedRecords(c.group.children, m);
    }
  }

  /** The same nesting with the same kinds of records and groups, payload lengths included. */
  ghost predicate SameShape(a: WritableChild, b: WritableChild)
    decreases a, 0
  {
    match a
    case PlainRecord(r) =>
      && b.PlainRecord?
      && b.record.signature == r.signature && b.record.flags == r.flags && b.record.formVersion == r.formVersion
      && |b.record.subrecords| == |r.subrecords|
      && (forall j :: 0 <= j < |r.subrecords| ==>
            b.record.subrecords[j].signature == r.subrecords[j].signature
            && |b.record.subrecords[j].data| == |r.subrecords[j].data|)
    case NestedGroup(g) =>
      b.NestedGroup? && b.group.tag == g.tag && b.group.groupType == g.groupType && SameShapes(g.children, b.group.children)
  }

  ghost predicate SameShapes(a: seq<WritableChild>, b: seq<WritableChild>)
    decreases a, 0
  {
    if a == [] then b == [] else b != [] && SameShape(a[0], b[0]) && SameShapes(a[1..], b[1..])
  }

  lemma {:induction false} RenamingKeepsShape(cs: seq<WritableChild>, m: Remap)
    ensures SameShapes(cs, RenamedChildren(cs, m))
    decreases cs, 0
  {
    hide RenamedChild, SameShape;
    if cs != [] {
      RenamingKeepsShapeOf(cs[0], m);
      RenamingKeepsShape(cs[1..], m);
      assert RenamedChildren(cs, m)[1..] == RenamedChildren(cs[1..], m);
    }
  }

  lemma {:induction false} RenamingKeepsShapeOf(c: WritableChild, m: Remap)
    ensures SameShape(c, RenamedChild(c, m))
    decreases c, 0
  {
    if c.NestedGroup? {
      RenamingKeepsShape(c.group.children, m);
    }
  }

  /** Trees of the same shape print to equally many bytes and are serializable alike. */
  lemma {:induction false} SameShapesPrint(a: seq<WritableChild>, b: seq<WritableChild>)
    requires SameShapes(a, b)
    ensures |WrittenChildren(a)| == |WrittenChildren(b)| && (AllSerializable(a) <==> AllSerializable(b))
    decreases a, 0
  {
    hide WrittenChild, SameShape, Serializable;
    if a != [] {
      SameShapePrints(a[0], b[0]);
      SameShapesPrint(a[1..], b[1..]);
    }
  }

  lemma {:induction false} SameShapePrints(a: WritableChild, b: WritableChild)
    requires SameShape(a, b)
    ensures |WrittenChild(a)| == |WrittenChild(b)| && (Serializable(a) <==> Serializable(b))
    decreases a, 0
  {
    hide HeaderBytes, GroupHead, SubRecordsBytes;
    match a {
      case PlainRecord(r) => SameSubsPrint(r.subrecords, b.record.subrecords);
      case NestedGroup(g) => SameShapesPrint(g.children, b.group.children);
    }
  }

  lemma {:induction false} SameSubsPrint(a: seq<SubRecord>, b: seq<SubRecord>)
    requires |a| == |b| && forall j :: 0 <= j < |a| ==> a[j].signature == b[j].signature && |a[j].data| == |b[j].data|
    ensures |SubRecordsBytes(a)| == |SubRecordsBytes(b)|
    decreases |a|
  {
    hide Le16, Le32;
    if a != [] {
      assert |SubRecordBytes(a[0])| == |SubRecordBytes(b[0])|;
      SameSubsPrint(a[1..], b[1..]);
    }
  }

  // --------------------------------------------------------------------------
  // References
  // --------------------------------------------------------------------------

  /** `id` is the FormID of a record or an aligned word of some payload. */
  ghost predicate Mentioned(rs: seq<WritableRecord>, id: FormId) {
    || (exists i :: 0 <= i < |rs| && rs[i].formId == id)
    || (exists i, j, k :: IsPlace(rs, i, j, k) && WordIn(rs, i, j, k) == id)
  }

  /** Word `k` of subrecord `j` of record `i` exists. */
  ghost predicate IsPlace(rs: seq<WritableRecord>, i: int, j: int, k: int) {
    0 <= i < |rs| && 0 <= j < |rs[i].subrecords| && 0 <= k && 4 * k + 4 <= |rs[i].subrecords[j].data|
  }

  ghost function WordIn(rs: seq<WritableRecord>, i: int, j: int, k: int): FormId
    requires IsPlace(rs, i, j, k)
  {
    WordAt(rs[i].subrecords[j].data, k)
  }

  /** A new ID that was already in use for something the renaming leaves alone. */
  ghost predicate Clashes(rs: seq<WritableRecord>, m: Remap) {
    exists id :: Mentioned(rs, id) && id !in m && id in m.Values
  }

  lemma RenameSeparates(m: Remap, a: FormId, b: FormId)
    requires Injective(m) && (a in m || a !in m.Values) && (b in m || b !in m.Values)
    requires Rename(m, a) == Rename(m, b)
    ensures a == b
  {
  }

  /**
   Renaming neither creates nor loses an equality between IDs and words exactly
   when no new ID was already mentioned.
   */
  lemma RenamingFaithful(rs: seq<WritableRecord>, m: Remap)
    requires Injective(m) && forall id :: id in m ==> Mentioned(rs, id)
    ensures (forall a, b :: Mentioned(rs, a) && Mentioned(rs, b) && Rename(m, a) == Rename(m, b) ==> a == b)
            <==> !Clashes(rs, m)
  {
    hide Mentioned;
    if !Clashes(rs, m) {
      forall a, b | Mentioned(rs, a) && Mentioned(rs, b) && Rename(m, a) == Rename(m, b)
        ensures a == b
      {
        RenameSeparates(m, a, b);
      }
    } else {
      var id :| Mentioned(rs, id) && id !in m && id in m.Values;
      var key :| key in m && m[key] == id;
      assert Rename(m, key) == Rename(m, id) && key != id;
    }
  }

  ghost function RenamedList(rs: seq<WritableRecord>, m: Remap): (r: seq<WritableRecord>)
    ensures |r| == |rs| && forall i :: 0 <= i < |rs| ==> r[i] == RenamedRecord(rs[i], m)
  {
    seq(|rs|, i requires 0 <= i < |rs| => RenamedRecord(rs[i], m))
  }

  /** Word `k` of subrecord `j` of record `i` refers to record `target` in both lists or in neither. */
  ghost predicate SameReference(a: seq<WritableRecord>, b: seq<WritableRecord>, i: int, j: int, k: int, target: int) {
    IsPlace(a, i, j, k) && 0 <= target < |a| ==>
      target < |b| && IsPlace(b, i, j, k)
      && (WordIn(b, i, j, k) == b[target].formId <==> WordIn(a, i, j, k) == a[target].formId)
  }

  ghost predicate SameReferences(a: seq<WritableRecord>, b: seq<WritableRecord>) {
    |a| == |b| && forall i, j, k, target :: SameReference(a, b, i, j, k, target)
  }

  /** Renaming makes `word` and `id` equal although only one of them is a key. */
  predicate Merges(m: Remap, word: FormId, id: FormId) {
    (word in m && id !in m && m[word] == id) || (word !in m && id in m && m[id] == word)
  }

  /** That happens to word `k` of subrecord `j` of record `i` and the FormID of record `target`. */
  ghost predicate MergesAt(rs: seq<WritableRecord>, m: Remap, i: int, j: int, k: int, target: int) {
    IsPlace(rs, i, j, k) && 0 <= target < |rs| && Merges(m, WordIn(rs, i, j, k), rs[target].formId)
  }

  ghost predicate MergesSome(rs: seq<WritableRecord>, m: Remap) {
    exists i, j, k, target :: MergesAt(rs, m, i, j, k, target)
  }

  lemma ReferenceKept(rs: seq<WritableRecord>, m: Remap, i: int, j: int, k: int, target: int)
    requires Injective(m)
    ensures SameReference(rs, RenamedList(rs, m), i, j, k, target) <==> !MergesAt(rs, m, i, j, k, target)
  {
    hide WordAt, RenamedBytes;
    if IsPlace(rs, i, j, k) && 0 <= target < |rs| {
      RenamedWord(rs[i].subrecords[j].data, m, k);
    }
  }

  /** References between records survive renaming exactly if it merges no word with a FormID. */
  lemma ReferencesExactly(rs: seq<WritableRecord>, m: Remap)
    requires Injective(m)
    ensures SameReferences(rs, RenamedList(rs, m)) <==> !MergesSome(rs, m)
  {
    hide SameReference, MergesAt;
    forall i, j, k, target
      ensures SameReference(rs, RenamedList(rs, m), i, j, k, target) <==> !MergesAt(rs, m, i, j, k, target)
    {
      ReferenceKept(rs, m, i, j, k, target);
    }
  }

  lemma {:induction false} OwnedConcat(a: seq<WritableRecord>, b: seq<WritableRecord>, masterCount: Byte)
    ensures OwnedIds(a + b, masterCount) == OwnedIds(a, masterCount) + OwnedIds(b, masterCount)
    decreases |a|
  {
    hide FileIndex;
    if a == [] {
      assert a + b == b;
    } else {
      assert (a + b)[1..] == a[1..] + b;
      OwnedConcat(a[1..], b, masterCount);
    }
  }

  lemma OwnedOne(r: WritableRecord, masterCount: Byte)
    ensures OwnedIds([r], masterCount) == if r.formId / 0x100_0000 == masterCount then [r.formId] else []
  {
    assert [r][1..] == [];
  }

  /** The owned IDs stand in document order, repeated ones included. */
  lemma OwnedInOrder(a: seq<WritableRecord>, r: WritableRecord, b: seq<WritableRecord>, masterCount: Byte)
    ensures OwnedIds(a + [r] + b, masterCount)
         == OwnedIds(a, masterCount) + (if r.formId / 0x100_0000 == masterCount then [r.formId] else []) + OwnedIds(b, masterCount)
  {
    hide OwnedIds;
    OwnedConcat(a + [r], b, masterCount);
    OwnedConcat(a, [r], masterCount);
    OwnedOne(r, masterCount);
  }
}
