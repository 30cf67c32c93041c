/** Localised string tables: allocation of identifiers, the file format, and reading it back. */
module StringTables {
  import opened Wire
  import opened Cursor

  datatype StringFileKind = Strings | DLStrings | ILStrings

  predicate IsLengthPrefixed(kind: StringFileKind) {
    kind.DLStrings? || kind.ILStrings?
  }

  type Entries = map<U32, Bytes>

  datatype Entry = Entry(id: U32, payload: Bytes)

  const MAX_ID: U32 := 0xFFFF_FFFF

  function AtLeastOne(id: U32): U32 {
    if id >= 1 then id else 1
  }

  function SuccId(id: U32): U32 {
    if id == MAX_ID then MAX_ID else id + 1
  }

  // --------------------------------------------------------------------------
  // Ascending order
  // --------------------------------------------------------------------------

  ghost predicate IsAscending(ids: seq<U32>) {
    forall i, j :: 0 <= i < j < |ids| ==> ids[i] < ids[j]
  }

  predicate IsLeast(k: U32, s: set<U32>) {
    k in s && forall j :: j in s ==> k <= j
  }

  lemma {:induction false} LeastExists(s: set<U32>)
    requires s != {}
    ensures exists k :: IsLeast(k, s)
    decreases |s|
  {
    var x :| x in s;
    var rest := s - {x};
    assert s == rest + {x};
    if rest == {} {
      assert IsLeast(x, s);
    } else {
      LeastExists(rest);
      var k :| IsLeast(k, rest);
      var least := if x <= k then x else k;
      assert forall j :: j in s ==> j == x || j in rest;
      assert IsLeast(least, s);
    }
  }

  function Least(s: set<U32>): (k: U32)
    requires s != {}
    ensures IsLeast(k, s)
  {
    LeastExists(s);
    var k :| IsLeast(k, s);
    k
  }

  /** The identifiers in ascending order, as the ordered map iterates. */
  function Ascending(s: set<U32>): (ids: seq<U32>)
    ensures |ids| == |s|
    decreases |s|
  {
    if s == {} then []
    else [Least(s)] + Ascending(s - {Least(s)})
  }

  lemma {:induction false} AscendingOrder(s: set<U32>)
    ensures forall k :: k in Ascending(s) <==> k in s
    ensures IsAscending(Ascending(s))
    decreases |s|
  {
    if s != {} {
      AscendingOrder(s - {Least(s)});
      ConsLeast(s, Ascending(s - {Least(s)}));
    }
  }

  lemma ConsLeast(s: set<U32>, rest: seq<U32>)
    requires s != {} && IsAscending(rest) && forall k :: k in rest <==> k in s - {Least(s)}
    ensures IsAscending([Least(s)] + rest) && forall k :: k in [Least(s)] + rest <==> k in s
  {
    hide Least;
    var k := Least(s);
    forall i | 0 <= i < |rest|
      ensures k < rest[i]
    {
      assert rest[i] in rest;
    }
  }

  function EntriesAt(entries: Entries, ids: seq<U32>): (es: seq<Entry>)
    requires forall k :: k in ids ==> k in entries
    ensures |es| == |ids| && forall i :: 0 <= i < |ids| ==> es[i] == Entry(ids[i], entries[ids[i]])
  {
    seq(|ids|, i requires 0 <= i < |ids| => Entry(ids[i], entries[ids[i]]))
  }

  function Listed(entries: Entries): (es: seq<Entry>)
    ensures |es| == |entries|
  {
    AscendingOrder(entries.Keys);
    EntriesAt(entries, Ascending(entries.Keys))
  }

  // --------------------------------------------------------------------------
  // The file format
  // --------------------------------------------------------------------------

  function EntryBlob(kind: StringFileKind, payload: Bytes): (b: Bytes)
    ensures |b| > |payload|
  {
    (if IsLengthPrefixed(kind) then Le32(AsU32(|payload| + 1)) else []) + (payload + [0])
  }

  function Blob(kind: StringFileKind, es: seq<Entry>): Bytes {
    if es == [] then [] else EntryBlob(kind, es[0].payload) + Blob(kind, es[1..])
  }

  /** Directory entries for payloads that start at blob offset `at`. */
  function Directory(kind: StringFileKind, es: seq<Entry>, at: nat): (b: Bytes)
    ensures |b| == 8 * |es|
    decreases |es|
  {
    if es == [] then []
    else Le32(es[0].id) + (Le32(AsU32(at)) + Directory(kind, es[1..], at + |EntryBlob(kind, es[0].payload)|))
  }

  function Serialised(kind: StringFileKind, entries: Entries): Bytes {
    var es := Listed(entries);
    Le32(AsU32(|es|)) + (Le32(AsU32(|Blob(kind, es)|)) + (Directory(kind, es, 0) + Blob(kind, es)))
  }

  // --------------------------------------------------------------------------
  // Reading
  // --------------------------------------------------------------------------

  /** The first NUL at or behind `p`. */
  function FindNul(bytes: Bytes, p: nat): (r: Option<nat>)
    ensures r.Some? ==> p <= r.value < |bytes| && bytes[r.value] == 0
    decreases |bytes| - p
  {
    if p >= |bytes| then None else if bytes[p] == 0 then Some(p) else FindNul(bytes, p + 1)
  }

  function PayloadAt(bytes: Bytes, start: nat, kind: StringFileKind): Result<Bytes> {
    if start >= |bytes| then Err(InvalidStringTable)
    else if IsLengthPrefixed(kind) then
      if start + 4 > |bytes| then Err(InvalidStringTable)
      else
        var length := U32At(bytes, start);
        if length == 0 then Ok([])
        else if start + 4 + length > |bytes| then Err(InvalidStringTable)
        else Ok(bytes[start + 4..start + 4 + length - 1])
    else
      var end := FindNul(bytes, start);
      if end.None? then Err(InvalidStringTable) else Ok(bytes[start..end.value])
  }

  /** The number of directory entries, if the directory fits into the file. */
  function DirectoryCount(bytes: Bytes): (r: Result<U32>)
    ensures r.Ok? ==> 8 + 8 * r.value <= |bytes|
  {
    if |bytes| < 8 then Err(InvalidStringTable)
    else
      var count := U32At(bytes, 0);
      if 8 + count * 8 > |bytes| then Err(InvalidStringTable) else Ok(count)
  }

  /** The remaining directory entries from number `i` on added to what has been read. */
  function EntriesFrom(bytes: Bytes, kind: StringFileKind, count: nat, i: nat, read: Entries): Result<Entries>
    requires i <= count && 8 + 8 * count <= |bytes|
    decreases count - i
  {
    if i == count then Ok(read)
    else
      var payload :- PayloadAt(bytes, 8 + 8 * count + U32At(bytes, 12 + 8 * i), kind);
      EntriesFrom(bytes, kind, count, i + 1, read[U32At(bytes, 8 + 8 * i) := payload])
  }

  function TableOf(bytes: Bytes, kind: StringFileKind): Result<Entries> {
    var count :- DirectoryCount(bytes);
    EntriesFrom(bytes, kind, count, 0, map[])
  }

  method ReadPayload(bytes: Bytes, start: nat, kind: StringFileKind) returns (r: Result<Bytes>)
    ensures r == PayloadAt(bytes, start, kind)
  {
    hide U32At;
    if start >= |bytes| {
      return Err(InvalidStringTable);
    }
    if IsLengthPrefixed(kind) {
      if start + 4 > |bytes| {
        return Err(InvalidStringTable);
      }
      var length := U32At(bytes, start);
      if length == 0 {
        return Ok([]);
      }
      var payloadStart := start + 4;
      var payloadEndWithNul := payloadStart + length;
      if payloadEndWithNul > |bytes| {
        return Err(InvalidStringTable);
      }
      return Ok(bytes[payloadStart..payloadEndWithNul - 1]);
    }
    var end := start;
    while end < |bytes| && bytes[end] != 0
      invariant start <= end <= |bytes|
      invariant FindNul(bytes, start) == FindNul(bytes, end)
    {
      end := end + 1;
    }
    if end >= |bytes| {
      return Err(InvalidStringTable);
    }
    return Ok(bytes[start..end]);
  }

  /** The directory as (identifier, offset) pairs. */
  method ParseDirectory(bytes: Bytes) returns (r: Result<seq<(U32, U32)>>)
    ensures r.Ok? <==> DirectoryCount(bytes).Ok?
    ensures r.Ok? ==> |r.value| == DirectoryCount(bytes).value
    ensures r.Ok? ==> forall i :: 0 <= i < |r.value| ==> r.value[i] == (U32At(bytes, 8 + 8 * i), U32At(bytes, 12 + 8 * i))
    ensures r.Err? ==> r.error == InvalidStringTable
  {
    hide U32At;
    if |bytes| < 8 {
      return Err(InvalidStringTable);
    }
    var cursor := new SliceCursor(bytes);
    var header := cursor.ReadU32();
    var count := header.value;
    var size := cursor.ReadU32();
    if 8 + count * 8 > |bytes| {
      return Err(InvalidStringTable);
    }
    var directory: seq<(U32, U32)> := [];
    for i := 0 to count
      invariant cursor.Valid() && cursor.data == bytes && fresh(cursor) && cursor.pos == 8 + 8 * i
      invariant |directory| == i
      invariant forall k :: 0 <= k < i ==> directory[k] == (U32At(bytes, 8 + 8 * k), U32At(bytes, 12 + 8 * k))
    {
      var id := cursor.ReadU32();
      var offset := cursor.ReadU32();
      directory := directory + [(id.value, offset.value)];
    }
    return Ok(directory);
  }

  // --------------------------------------------------------------------------
  // The table
  // --------------------------------------------------------------------------

  /** Every identifier in use is below the next one, unless that is at the limit. */
  ghost predicate Bounded(entries: Entries, nextId: U32) {
    nextId >= 1 && forall k :: k in entries ==> k < nextId || nextId == MAX_ID
  }

  ghost predicate NonzeroTaken(entries: Entries) {
    forall k: U32 :: k != 0 ==> k in entries
  }

  /** The lowest nonzero identifier that is not among `ids`, if there is one. */
  method LowestUnused(ids: seq<U32>) returns (r: Option<U32>)
    requires IsAscending(ids)
    ensures r.Some? ==> r.value != 0 && r.value !in ids && forall k: U32 :: 0 < k < r.value ==> k in ids
    ensures r.None? ==> forall k: U32 :: k != 0 ==> k in ids
  {
    var id: U32 := 1;
    for i := 0 to |ids|
      invariant id >= 1
      invariant forall k: U32 :: 0 < k < id ==> k in ids
      invariant forall k :: 0 <= k < i ==> ids[k] < id
    {
      var existing := ids[i];
      if existing > id {
        return Some(id);
      }
      if existing == id {
        if id == MAX_ID {
          return None;
        }
        id := id + 1;
      }
    }
    return Some(id);
  }

  class StringTable {
    const kind: StringFileKind
    var entries: Entries
    var nextId: U32

    ghost predicate Valid()
      reads this
    {
      Bounded(entries, nextId)
    }

    constructor (kind: StringFileKind)
      ensures Valid() && this.kind == kind && entries == map[] && nextId == 1
    {
      this.kind := kind;
      entries := map[];
      nextId := 1;
    }

    method Insert(id: U32, payload: Bytes)
      requires Valid()
      modifies this
      ensures Valid() && entries == old(entries)[id := payload]
      ensures nextId == if id == 0xFFFF_FFFF then id else if id >= old(nextId) then id + 1 else old(nextId)
    {
      entries := entries[id := payload];
      if SuccId(id) > nextId {
        nextId := SuccId(id);
      }
    }

    /**
     Stores a payload under a fresh nonzero identifier: the next one, or at the
     limit the lowest free one. It fails exactly when no nonzero identifier is
     free, and then nothing has changed.
     */
    method TryInsertNew(payload: Bytes) returns (r: Result<U32>)
      requires Valid()
      modifies this
      ensures Valid()
      ensures r.Ok? <==> !NonzeroTaken(old(entries))
      ensures r.Ok? ==> r.value != 0 && r.value !in old(entries) && entries == old(entries)[r.value := payload]
      ensures r.Ok? ==> nextId == if r.value == 0xFFFF_FFFF then r.value else if r.value >= old(nextId) then r.value + 1 else old(nextId)
      ensures r.Ok? && old(nextId) !in old(entries) ==> r.value == old(nextId)
      ensures r.Ok? && old(nextId) in old(entries) ==> forall k: U32 :: 0 < k < r.value ==> k in old(entries)
      ensures r.Err? ==> r.error == InvalidStringTable && entries == old(entries) && nextId == old(nextId)
    {
      hide Ascending, IsAscending;
      var id := AtLeastOne(nextId);
      if id in entries {
        AscendingOrder(entries.Keys);
        var free := LowestUnused(Ascending(entries.Keys));
        if free.None? {
          return Err(InvalidStringTable);
        }
        id := free.value;
      }
      Insert(id, payload);
      return Ok(id);
    }

    method Remove(id: U32) returns (r: Option<Bytes>)
      requires Valid()
      modifies this`entries
      ensures Valid()
      ensures entries == old(entries) - {id}
      ensures r == if id in old(entries) then Some(old(entries)[id]) else None
    {
      r := if id in entries then Some(entries[id]) else None;
      entries := entries - {id};
    }

    /** Serialises header, directory and blob in ascending order of identifiers. */
    method WriteTo() returns (out: Bytes)
      ensures out == Serialised(kind, entries)
    {
      hide Le32, EntryBlob, Blob, Directory, Listed;
      var es := Listed(entries);
      var blob: Bytes := [];
      var directory: Bytes := [];
      assert es[0..] == es;
      for i := 0 to |es|
        invariant blob + Blob(kind, es[i..]) == Blob(kind, es)
        invariant directory + Directory(kind, es[i..], |blob|) == Directory(kind, es, 0)
      {
        var offset := AsU32(|blob|);
        var more := EntryBlob(kind, es[i].payload);
        WriteStep(kind, es, i, |blob|);
        Assoc(blob, more, Blob(kind, es[i + 1..]));
        Assoc(directory, Le32(es[i].id) + Le32(offset), Directory(kind, es[i + 1..], |blob| + |more|));
        directory := directory + (Le32(es[i].id) + Le32(offset));
        blob := blob + more;
      }
      WriteEnd(kind, es, |blob|);
      return Le32(AsU32(|es|)) + (Le32(AsU32(|blob|)) + (directory + blob));
    }
  }

  lemma WriteStep(kind: StringFileKind, es: seq<Entry>, i: nat, at: nat)
    requires i < |es|
    ensures Blob(kind, es[i..]) == EntryBlob(kind, es[i].payload) + Blob(kind, es[i + 1..])
    ensures Directory(kind, es[i..], at)
         == Le32(es[i].id) + Le32(AsU32(at)) + Directory(kind, es[i + 1..], at + |EntryBlob(kind, es[i].payload)|)
  {
    hide Le32, EntryBlob;
    assert es[i..][0] == es[i] && es[i..][1..] == es[i + 1..];
    Assoc(Le32(es[i].id), Le32(AsU32(at)), Directory(kind, es[i + 1..], at + |EntryBlob(kind, es[i].payload)|));
  }

  lemma WriteEnd(kind: StringFileKind, es: seq<Entry>, at: nat)
    ensures Blob(kind, es[|es|..]) == [] && Directory(kind, es[|es|..], at) == []
  {
  }

  /** Parses a table; the next identifier lies behind all that are in use. */
  method FromBytes(bytes: Bytes, kind: StringFileKind) returns (r: Result<StringTable>)
    ensures r.Ok? <==> TableOf(bytes, kind).Ok?
    ensures r.Ok? ==> fresh(r.value) && r.value.Valid() && r.value.kind == kind && r.value.entries == TableOf(bytes, kind).value
    ensures r.Err? ==> TableOf(bytes, kind) == Err(r.error)
  {
    hide U32At, PayloadAt;
    var directory :- ParseDirectory(bytes);
    var blobStart := 8 + |directory| * 8;
    var table := new StringTable(kind);
    for i := 0 to |directory|
      invariant fresh(table) && table.Valid()
      invariant TableOf(bytes, kind) == EntriesFrom(bytes, kind, |directory|, i, table.entries)
    {
      var id, offset := directory[i].0, directory[i].1;
      var payload :- ReadPayload(bytes, blobStart + offset, kind);
      table.Insert(id, payload);
    }
    return Ok(table);
  }
}
