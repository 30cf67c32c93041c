/** Written string tables read back: what survives, exactly when everything does. */
module StringTableFile {
  import opened Wire
  import opened StringTables

  // --------------------------------------------------------------------------
  // What a reader sees of a payload
  // --------------------------------------------------------------------------

  function UpToNul(p: Bytes): (r: Bytes)
    ensures |r| <= |p|
  {
    if p == [] || p[0] == 0 then [] else [p[0]] + UpToNul(p[1..])
  }

  function Kept(kind: StringFileKind, payload: Bytes): Bytes {
    if IsLengthPrefixed(kind) then payload else UpToNul(payload)
  }

  predicate NulFree(p: Bytes) {
    0 !in p
  }

  lemma {:induction false} UpToNulKeeps(p: Bytes)
    ensures UpToNul(p) == p <==> NulFree(p)
    ensures NulFree(UpToNul(p))
    decreases |p|
  {
    if p != [] {
      UpToNulKeeps(p[1..]);
      assert p == [p[0]] + p[1..];
      if p[0] != 0 && UpToNul(p) == p {
        assert UpToNul(p)[1..] == UpToNul(p[1..]);
      }
    }
  }

  lemma {:induction false} ScanFinds(bytes: Bytes, start: nat, p: Bytes)
    requires Holds(bytes, start, p + [0])
    ensures FindNul(bytes, start) == Some(start + |UpToNul(p)|)
    ensures bytes[start..start + |UpToNul(p)|] == UpToNul(p)
    decreases |p|
  {
    var all := p + [0];
    assert bytes[start] == bytes[start..start + |all|][0] == all[0];
    if p != [] && p[0] != 0 {
      HoldsConcat(bytes, start, [p[0]], p[1..] + [0]);
      assert all == [p[0]] + (p[1..] + [0]);
      ScanFinds(bytes, start + 1, p[1..]);
    }
  }

  /** Reading at a written payload yields what is kept of it. */
  lemma PayloadReads(bytes: Bytes, start: nat, kind: StringFileKind, p: Bytes)
    requires Holds(bytes, start, EntryBlob(kind, p)) && |EntryBlob(kind, p)| < 0x1_0000_0000
    ensures PayloadAt(bytes, start, kind) == Ok(Kept(kind, p))
  {
    hide Le32, U32At, FindNul, UpToNul;
    if IsLengthPrefixed(kind) {
      HoldsConcat(bytes, start, Le32(|p| + 1), p + [0]);
      HoldsConcat(bytes, start + 4, p, [0]);
      Word32(bytes, start, |p| + 1);
    } else {
      assert EntryBlob(kind, p) == p + [0];
      ScanFinds(bytes, start, p);
    }
  }

  // --------------------------------------------------------------------------
  // Reading the directory back
  // --------------------------------------------------------------------------

  function AddAll(kind: StringFileKind, es: seq<Entry>, read: Entries): Entries
    decreases |es|
  {
    if es == [] then read else AddAll(kind, es[1..], read[es[0].id := Kept(kind, es[0].payload)])
  }

  lemma DirectoryEntry(bytes: Bytes, p: nat, kind: StringFileKind, es: seq<Entry>, at: U32)
    requires es != [] && Holds(bytes, p, Directory(kind, es, at))
    ensures p + 8 <= |bytes| && U32At(bytes, p) == es[0].id && U32At(bytes, p + 4) == at
    ensures Holds(bytes, p + 8, Directory(kind, es[1..], at + |EntryBlob(kind, es[0].payload)|))
  {
    hide Le32, U32At, EntryBlob;
    var later := Directory(kind, es[1..], at + |EntryBlob(kind, es[0].payload)|);
    HoldsConcat(bytes, p, Le32(es[0].id), Le32(at) + later);
    HoldsConcat(bytes, p + 4, Le32(at), later);
    Word32(bytes, p, es[0].id);
    Word32(bytes, p + 4, at);
  }

  lemma BlobEntry(bytes: Bytes, p: nat, kind: StringFileKind, es: seq<Entry>)
    requires es != [] && Holds(bytes, p, Blob(kind, es)) && |Blob(kind, es)| < 0x1_0000_0000
    ensures PayloadAt(bytes, p, kind) == Ok(Kept(kind, es[0].payload))
    ensures Holds(bytes, p + |EntryBlob(kind, es[0].payload)|, Blob(kind, es[1..]))
    ensures |Blob(kind, es)| == |EntryBlob(kind, es[0].payload)| + |Blob(kind, es[1..])|
  {
    hide EntryBlob, PayloadAt, Kept;
    HoldsConcat(bytes, p, EntryBlob(kind, es[0].payload), Blob(kind, es[1..]));
    PayloadReads(bytes, p, kind, es[0].payload);
  }

  lemma {:induction false} ReadsFrom(bytes: Bytes, kind: StringFileKind, count: nat, i: nat, es: seq<Entry>, at: nat, read: Entries)
    requires i + |es| == count && 8 + 8 * count <= |bytes|
    requires Holds(bytes, 8 + 8 * i, Directory(kind, es, at)) && Holds(bytes, 8 + 8 * count + at, Blob(kind, es))
    requires at + |Blob(kind, es)| < 0x1_0000_0000
    ensures EntriesFrom(bytes, kind, count, i, read) == Ok(AddAll(kind, es, read))
    decreases |es|
  {
    hide U32At, EntryBlob, PayloadAt, Kept, Holds, Directory, Blob;
    if es != [] {
      DirectoryEntry(bytes, 8 + 8 * i, kind, es, at);
      BlobEntry(bytes, 8 + 8 * count + at, kind, es);
      ReadsFrom(bytes, kind, count, i + 1, es[1..], at + |EntryBlob(kind, es[0].payload)|,
                read[es[0].id := Kept(kind, es[0].payload)]);
    }
  }

  /** The payload of the last entry with an identifier. */
  function Find(es: seq<Entry>, k: U32): Option<Bytes> {
    if es == [] then None
    else
      var later := Find(es[1..], k);
      if later.Some? then later else if es[0].id == k then Some(es[0].payload) else None
  }

  lemma {:induction false} FindMeaning(es: seq<Entry>, k: U32)
    ensures Find(es, k).Some? ==> Entry(k, Find(es, k).value) in es
    ensures Find(es, k).None? ==> forall e :: e in es ==> e.id != k
    decreases |es|
  {
    if es != [] {
      FindMeaning(es[1..], k);
      assert es == [es[0]] + es[1..];
    }
  }

  /** The last entry with an identifier decides what is read for it. */
  lemma {:induction false} AddAllAt(kind: StringFileKind, es: seq<Entry>, read: Entries, k: U32)
    ensures var all, found := AddAll(kind, es, read), Find(es, k);
            (k in all <==> found.Some? || k in read)
            && (k in all ==> all[k] == if found.Some? then Kept(kind, found.value) else read[k])
    decreases |es|
  {
    hide Kept;
    if es != [] {
      AddAllAt(kind, es[1..], read[es[0].id := Kept(kind, es[0].payload)], k);
    }
  }

  function KeptAll(kind: StringFileKind, entries: Entries): Entries {
    map k | k in entries :: Kept(kind, entries[k])
  }

  lemma ListedFinds(entries: Entries, k: U32)
    ensures Find(Listed(entries), k) == if k in entries then Some(entries[k]) else None
  {
    hide Ascending, Find;
    AscendingOrder(entries.Keys);
    var ids, es := Ascending(entries.Keys), Listed(entries);
    FindMeaning(es, k);
    if k in entries {
      assert k in ids;
      var i :| 0 <= i < |ids| && ids[i] == k;
      assert es[i] in es;
    }
    if Find(es, k).Some? {
      var i :| 0 <= i < |es| && es[i] == Entry(k, Find(es, k).value);
      assert ids[i] in ids;
    }
  }

  lemma ListedAdds(kind: StringFileKind, entries: Entries)
    ensures AddAll(kind, Listed(entries), map[]) == KeptAll(kind, entries)
  {
    hide Listed, Kept, AddAll, Find;
    var all, kept := AddAll(kind, Listed(entries), map[]), KeptAll(kind, entries);
    forall k: U32
      ensures (k in all <==> k in kept) && (k in all ==> all[k] == kept[k])
    {
      AddAllAt(kind, Listed(entries), map[], k);
      ListedFinds(entries, k);
    }
    assert all.Keys == kept.Keys;
  }

  lemma {:induction false} BlobCovers(kind: StringFileKind, es: seq<Entry>)
    ensures |Blob(kind, es)| >= |es|
    decreases |es|
  {
    hide EntryBlob;
    if es != [] {
      BlobCovers(kind, es[1..]);
    }
  }

  ghost predicate BlobFits(kind: StringFileKind, entries: Entries) {
    |Blob(kind, Listed(entries))| < 0x1_0000_0000
  }

  /** Where the parts of a written table stand. */
  lemma PartsStand(kind: StringFileKind, entries: Entries)
    requires BlobFits(kind, entries)
    ensures var es, bytes := Listed(entries), Serialised(kind, entries);
            && DirectoryCount(bytes) == Ok(|es|)
            && Holds(bytes, 8, Directory(kind, es, 0)) && Holds(bytes, 8 + 8 * |es|, Blob(kind, es))
  {
    hide Le32, U32At, Blob, Directory, Listed;
    var es, bytes := Listed(entries), Serialised(kind, entries);
    var n, blob, directory := |es|, Blob(kind, es), Directory(kind, es, 0);
    BlobCovers(kind, es);
    assert bytes[0..0 + |bytes|] == bytes;
    HoldsConcat(bytes, 0, Le32(n), Le32(|blob|) + (directory + blob));
    HoldsConcat(bytes, 4, Le32(|blob|), directory + blob);
    HoldsConcat(bytes, 8, directory, blob);
    Word32(bytes, 0, n);
  }

  /** Main result: reading a written table yields every identifier with what is kept of its payload. */
  lemma WrittenTableReads(kind: StringFileKind, entries: Entries)
    requires BlobFits(kind, entries)
    ensures TableOf(Serialised(kind, entries), kind) == Ok(KeptAll(kind, entries))
  {
    hide Le32, U32At, Blob, Directory, Listed, EntriesFrom, AddAll, KeptAll, Serialised, DirectoryCount;
    var es := Listed(entries);
    BlobCovers(kind, es);
    PartsStand(kind, entries);
    ReadsFrom(Serialised(kind, entries), kind, |es|, 0, es, 0, map[]);
    ListedAdds(kind, entries);
  }

  /**
   The table that is read is the table that was written exactly when the kind
   stores lengths or no payload contains a NUL.
   */
  lemma RoundTrip(kind: StringFileKind, entries: Entries)
    requires BlobFits(kind, entries)
    ensures TableOf(Serialised(kind, entries), kind) == Ok(entries)
            <==> IsLengthPrefixed(kind) || forall k :: k in entries ==> NulFree(entries[k])
  {
    hide TableOf, Serialised, BlobFits, UpToNul;
    WrittenTableReads(kind, entries);
    var kept := KeptAll(kind, entries);
    forall k | k in entries
      ensures kept[k] == entries[k] <==> IsLengthPrefixed(kind) || NulFree(entries[k])
    {
      UpToNulKeeps(entries[k]);
    }
    if forall k :: k in entries ==> kept[k] == entries[k] {
      assert kept == entries;
    }
  }

  // --------------------------------------------------------------------------
  // Tables that come from files
  // --------------------------------------------------------------------------

  lemma {:induction false} NoNulBefore(bytes: Bytes, p: nat)
    requires FindNul(bytes, p).Some?
    ensures forall i :: p <= i < FindNul(bytes, p).value ==> bytes[i] != 0
    decreases |bytes| - p
  {
    if bytes[p] != 0 {
      NoNulBefore(bytes, p + 1);
    }
  }

  lemma ParsedPayload(bytes: Bytes, start: nat, kind: StringFileKind)
    requires PayloadAt(bytes, start, kind).Ok? && !IsLengthPrefixed(kind)
    ensures NulFree(PayloadAt(bytes, start, kind).value)
  {
    hide FindNul;
    NoNulBefore(bytes, start);
  }

  ghost predicate AllNulFree(entries: Entries) {
    forall k :: k in entries ==> NulFree(entries[k])
  }

  lemma {:induction false} ParsedNulFree(bytes: Bytes, kind: StringFileKind, count: nat, i: nat, read: Entries)
    requires i <= count && 8 + 8 * count <= |bytes| && !IsLengthPrefixed(kind) && AllNulFree(read)
    requires EntriesFrom(bytes, kind, count, i, read).Ok?
    ensures AllNulFree(EntriesFrom(bytes, kind, count, i, read).value)
    decreases count - i
  {
    hide PayloadAt, U32At, NulFree;
    if i < count {
      var start := 8 + 8 * count + U32At(bytes, 12 + 8 * i);
      ParsedPayload(bytes, start, kind);
      var payload := PayloadAt(bytes, start, kind).value;
      ParsedNulFree(bytes, kind, count, i + 1, read[U32At(bytes, 8 + 8 * i) := payload]);
    }
  }

  /** Any table that was parsed from a file can be written and read again without loss. */
  lemma ParsedTableStable(bytes: Bytes, kind: StringFileKind)
    requires TableOf(bytes, kind).Ok? && BlobFits(kind, TableOf(bytes, kind).value)
    ensures TableOf(Serialised(kind, TableOf(bytes, kind).value), kind) == TableOf(bytes, kind)
  {
    hide EntriesFrom, Serialised, BlobFits, U32At;
    if !IsLengthPrefixed(kind) {
      ParsedNulFree(bytes, kind, DirectoryCount(bytes).value, 0, map[]);
    }
    RoundTrip(kind, TableOf(bytes, kind).value);
  }

  // --------------------------------------------------------------------------
  // The layout in literal bytes
  // --------------------------------------------------------------------------

  /**
   A table file is the number of entries, the length of the blob, an identifier
   and a blob offset for each entry, and the blob; only DLSTRINGS and ILSTRINGS
   payloads have their length, with the NUL, in front.
   */
  lemma FileLayout(kind: StringFileKind, entries: Entries)
    ensures var s, es := Serialised(kind, entries), Listed(entries);
            && |s| == 8 + 8 * |es| + |Blob(kind, es)|
            && U32At(s, 0) == |es| % 0x1_0000_0000 && U32At(s, 4) == |Blob(kind, es)| % 0x1_0000_0000
            && s[8 + 8 * |es|..] == Blob(kind, es)
  {
    hide Le32, U32At, Listed, Blob, Directory;
    var s, es := Serialised(kind, entries), Listed(entries);
    assert s[0..4] == Le32(AsU32(|es|)) && s[4..8] == Le32(AsU32(|Blob(kind, es)|));
    Word32(s, 0, AsU32(|es|));
    Word32(s, 4, AsU32(|Blob(kind, es)|));
  }

  /** One payload in the blob, of either kind. */
  lemma PayloadLayout(kind: StringFileKind, payload: Bytes)
    ensures EntryBlob(kind, payload)
         == if kind.Strings? then payload + [0] else Le32((|payload| + 1) % 0x1_0000_0000) + (payload + [0])
  {
    hide Le32;
  }

  // --------------------------------------------------------------------------
  // Reading, in terms of the bytes
  // --------------------------------------------------------------------------

  /** A NUL ends the payload that starts at `start` at `k`. */
  ghost predicate EndsAt(bytes: Bytes, start: nat, k: int) {
    start <= k < |bytes| && bytes[k] == 0 && forall i :: start <= i < k ==> bytes[i] != 0
  }

  /**
   A STRINGS payload goes up to the first NUL, which there must be. The others
   start with the number of bytes that follow, a NUL included; zero stands for nothing.
   */
  lemma PayloadMeaning(bytes: Bytes, start: nat, kind: StringFileKind)
    ensures PayloadAt(bytes, start, kind).Err? ==> PayloadAt(bytes, start, kind).error == InvalidStringTable
    ensures kind.Strings? ==> (PayloadAt(bytes, start, kind).Ok? <==> exists k :: EndsAt(bytes, start, k))
    ensures kind.Strings? ==> forall k :: EndsAt(bytes, start, k) ==> PayloadAt(bytes, start, kind) == Ok(bytes[start..k])
    ensures !kind.Strings? ==>
              if start + 4 > |bytes| then PayloadAt(bytes, start, kind).Err?
              else
                var length := U32At(bytes, start);
                PayloadAt(bytes, start, kind) == if length == 0 then Ok([])
                                                 else if start + 4 + length > |bytes| then Err(InvalidStringTable)
                                                 else Ok(bytes[start + 4..start + 3 + length])
  {
    hide U32At, FindNul;
    FindsFirst(bytes, start);
    if kind.Strings? && FindNul(bytes, start).Some? {
      assert EndsAt(bytes, start, FindNul(bytes, start).value);
    }
  }

  lemma {:induction false} FindsFirst(bytes: Bytes, p: nat)
    ensures FindNul(bytes, p).Some? ==> EndsAt(bytes, p, FindNul(bytes, p).value)
    ensures forall k :: EndsAt(bytes, p, k) ==> FindNul(bytes, p) == Some(k)
    decreases |bytes| - p
  {
    if p < |bytes| && bytes[p] != 0 {
      FindsFirst(bytes, p + 1);
      forall k | EndsAt(bytes, p, k)
        ensures FindNul(bytes, p) == Some(k)
      {
        assert EndsAt(bytes, p + 1, k);
      }
    }
  }

  /** Entry `i` of the directory is the last one for its identifier. */
  ghost predicate LastEntry(bytes: Bytes, count: nat, i: int)
    requires 8 + 8 * count <= |bytes|
  {
    0 <= i < count && forall j :: i < j < count ==> U32At(bytes, 8 + 8 * j) != U32At(bytes, 8 + 8 * i)
  }

  /**
   A table has the identifiers of its directory, and each with the payload that its
   last entry points to, counted from the end of the directory.
   */
  lemma TableMeaning(bytes: Bytes, kind: StringFileKind)
    ensures TableOf(bytes, kind).Ok? ==> |bytes| >= 8 && 8 + 8 * U32At(bytes, 0) <= |bytes|
    ensures TableOf(bytes, kind).Ok? ==>
              var n, table := U32At(bytes, 0), TableOf(bytes, kind).value;
              && (forall k :: k in table ==> exists i :: 0 <= i < n && U32At(bytes, 8 + 8 * i) == k)
              && (forall i :: LastEntry(bytes, n, i) ==>
                    var k := U32At(bytes, 8 + 8 * i);
                    k in table && PayloadAt(bytes, 8 + 8 * n + U32At(bytes, 12 + 8 * i), kind) == Ok(table[k]))
  {
    hide U32At, PayloadAt;
    if TableOf(bytes, kind).Ok? {
      EntriesMeaning(bytes, kind, U32At(bytes, 0), 0, map[]);
    }
  }

  lemma {:induction false} EntriesMeaning(bytes: Bytes, kind: StringFileKind, count: nat, i: nat, read: Entries)
    requires i <= count && 8 + 8 * count <= |bytes| && EntriesFrom(bytes, kind, count, i, read).Ok?
    ensures var table := EntriesFrom(bytes, kind, count, i, read).value;
            && (forall k :: k in table ==> k in read || exists j :: i <= j < count && U32At(bytes, 8 + 8 * j) == k)
            && (forall k :: k in read && (forall j :: i <= j < count ==> U32At(bytes, 8 + 8 * j) != k) ==>
                  k in table && table[k] == read[k])
            && (forall j :: i <= j && LastEntry(bytes, count, j) ==>
                  var k := U32At(bytes, 8 + 8 * j);
                  k in table && PayloadAt(bytes, 8 + 8 * count + U32At(bytes, 12 + 8 * j), kind) == Ok(table[k]))
    decreases count - i
  {
    hide U32At, PayloadAt;
    if i < count {
      var payload := PayloadAt(bytes, 8 + 8 * count + U32At(bytes, 12 + 8 * i), kind).value;
      EntriesMeaning(bytes, kind, count, i + 1, read[U32At(bytes, 8 + 8 * i) := payload]);
    }
  }
}
