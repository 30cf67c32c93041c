/**
 Main records: the 24-byte header, the stored data block, and the parser and
 printer of both.
 */
module Records {
  import opened Wire
  import opened Cursor

  type Signature = s: Bytes | |s| == 4 witness [0, 0, 0, 0]
  type FormId = U32

  const GRUP: Signature := [0x47, 0x52, 0x55, 0x50]
  const TES3: Signature := [0x54, 0x45, 0x53, 0x33]
  const TES4: Signature := [0x54, 0x45, 0x53, 0x34]
  const HEADER_SIZE: nat := 24
  const COMPRESSED: U32 := 0x0004_0000

  /** The file index and object ID bit fields of a raw FormID. */
  function FileIndex(id: FormId): Byte {
    id / 0x100_0000
  }

  function ObjectId(id: FormId): U32 {
    id % 0x100_0000
  }

  /** Whether the single-bit mask `bit` is set in `flags`. */
  predicate HasBit(flags: U32, bit: U32)
    requires bit > 0
  {
    flags / bit % 2 == 1
  }

  datatype RecordHeader = RecordHeader(
    signature: Signature,
    dataSize: U32,
    flags: U32,
    formId: FormId,
    versionControl: U32,
    formVersion: U16,
    unknown: U16)

  /** The stored data block; a compressed one starts with its inflated size. */
  datatype RecordData = Raw(bytes: Bytes) | Compressed(payload: Bytes, decompressedSize: U32)

  datatype Record = Record(header: RecordHeader, range: Option<Range>, data: RecordData)

  function HeaderBytes(h: RecordHeader): (b: Bytes)
    ensures |b| == HEADER_SIZE
  {
    h.signature + (Le32(h.dataSize) + (Le32(h.flags) + (Le32(h.formId)
    + (Le32(h.versionControl) + (Le16(h.formVersion) + Le16(h.unknown))))))
  }

  function DataBytes(d: RecordData): Bytes {
    match d
    case Raw(bytes) => bytes
    case Compressed(payload, size) => Le32(size) + payload
  }

  function RecordBytes(r: Record): Bytes {
    HeaderBytes(r.header) + DataBytes(r.data)
  }

  /** The header and the data block describe each other. */
  ghost predicate RecordOk(r: Record) {
    && r.header.signature != GRUP
    && |DataBytes(r.data)| == r.header.dataSize
    && (r.data.Compressed? <==> HasBit(r.header.flags, COMPRESSED))
  }

  // --------------------------------------------------------------------------
  // What the parser computes
  // --------------------------------------------------------------------------

  function HeaderAt(s: Bytes, p: nat): RecordHeader
    requires p + HEADER_SIZE <= |s|
  {
    RecordHeader(s[p..p + 4], U32At(s, p + 4), U32At(s, p + 8), U32At(s, p + 12),
                 U32At(s, p + 16), U16At(s, p + 20), U16At(s, p + 22))
  }

  function DataOf(flags: U32, raw: Bytes): Result<RecordData> {
    if !HasBit(flags, COMPRESSED) then Ok(Raw(raw))
    else if |raw| < 4 then Err(UnexpectedEof)
    else Ok(Compressed(raw[4..], U32At(raw, 0)))
  }

  /** The record starting at offset `p` and the offset behind it. */
  function RecordAt(s: Bytes, p: nat): (r: Result<(Record, nat)>)
    ensures r.Ok? ==> p + HEADER_SIZE <= r.value.1 <= |s| && r.value.0.range == None
  {
    if p + HEADER_SIZE > |s| then Err(UnexpectedEof)
    else
      var h := HeaderAt(s, p);
      if h.signature == GRUP then Err(InvalidSignature)
      else if p + HEADER_SIZE + h.dataSize > |s| then Err(UnexpectedEof)
      else
        var end := p + HEADER_SIZE + h.dataSize;
        var data :- DataOf(h.flags, s[p + HEADER_SIZE..end]);
        Ok((Record(h, None, data), end))
  }

  /** Reads one header field by field. */
  method ParseRecordHeader(cursor: SliceCursor) returns (r: Result<RecordHeader>)
    requires cursor.Valid()
    modifies cursor
    ensures cursor.Valid()
    ensures r.Ok? <==> old(cursor.pos) + HEADER_SIZE <= |cursor.data|
    ensures r.Ok? ==> r.value == HeaderAt(cursor.data, old(cursor.pos))
                      && cursor.pos == old(cursor.pos) + HEADER_SIZE
    ensures r.Err? ==> r.error == UnexpectedEof
  {
    var signature :- cursor.ReadSlice(4);
    var dataSize :- cursor.ReadU32();
    var flags :- cursor.ReadU32();
    var formId :- cursor.ReadU32();
    var versionControl :- cursor.ReadU32();
    var formVersion :- cursor.ReadU16();
    var unknown :- cursor.ReadU16();
    return Ok(RecordHeader(signature, dataSize, flags, formId, versionControl, formVersion, unknown));
  }

  /** Parses a record header and stores the raw data block behind it. */
  method ParseRecord(cursor: SliceCursor) returns (r: Result<Record>)
    requires cursor.Valid()
    modifies cursor
    ensures cursor.Valid()
    ensures r.Ok? == RecordAt(cursor.data, old(cursor.pos)).Ok?
    ensures r.Ok? ==> RecordAt(cursor.data, old(cursor.pos)) == Ok((r.value, cursor.pos))
    ensures r.Err? ==> RecordAt(cursor.data, old(cursor.pos)) == Err(r.error)
  {
    var header :- ParseRecordHeader(cursor);
    if header.signature == GRUP {
      return Err(InvalidSignature);
    }
    var raw :- cursor.ReadSlice(header.dataSize);
    var data: RecordData;
    if HasBit(header.flags, COMPRESSED) {
      if |raw| < 4 {
        return Err(UnexpectedEof);
      }
      data := Compressed(raw[4..], U32At(raw, 0));
    } else {
      data := Raw(raw);
    }
    return Ok(Record(header, None, data));
  }

  // --------------------------------------------------------------------------
  // Parser and printer are inverse
  // --------------------------------------------------------------------------

  lemma HeaderWords(s: Bytes, p: nat, h: RecordHeader)
    requires p + HEADER_SIZE <= |s|
    ensures Holds(s, p, HeaderBytes(h)) <==> HeaderAt(s, p) == h
  {
    var t5 := Le16(h.formVersion) + Le16(h.unknown);
    var t4 := Le32(h.versionControl) + t5;
    var t3 := Le32(h.formId) + t4;
    var t2 := Le32(h.flags) + t3;
    var t1 := Le32(h.dataSize) + t2;
    HoldsConcat(s, p, h.signature, t1);
    HoldsConcat(s, p + 4, Le32(h.dataSize), t2);
    HoldsConcat(s, p + 8, Le32(h.flags), t3);
    HoldsConcat(s, p + 12, Le32(h.formId), t4);
    HoldsConcat(s, p + 16, Le32(h.versionControl), t5);
    HoldsConcat(s, p + 20, Le16(h.formVersion), Le16(h.unknown));
    Word32(s, p + 4, h.dataSize);
    Word32(s, p + 8, h.flags);
    Word32(s, p + 12, h.formId);
    Word32(s, p + 16, h.versionControl);
    Word16(s, p + 20, h.formVersion);
    Word16(s, p + 22, h.unknown);
  }

  /** Reading a data block and writing it back restores it, and vice versa. */
  lemma DataInverse(flags: U32, raw: Bytes, d: RecordData)
    ensures DataOf(flags, raw) == Ok(d) <==> DataBytes(d) == raw && (d.Compressed? <==> HasBit(flags, COMPRESSED))
  {
    if |raw| >= 4 {
      assert raw == raw[..4] + raw[4..];
      Word32(raw, 0, U32At(raw, 0));
      assert raw[0..4] == raw[..4];
    }
    if d.Compressed? && DataBytes(d) == raw {
      assert raw[..4] == Le32(d.decompressedSize);
      assert raw[4..] == d.payload;
      Word32(raw, 0, d.decompressedSize);
    }
  }

  /** Parsing at `p` yields exactly the well-formed record whose bytes stand there. */
  lemma RecordInverse(s: Bytes, p: nat, r: Record, end: nat)
    requires r.range == None
    ensures RecordAt(s, p) == Ok((r, end))
            <==> RecordOk(r) && Holds(s, p, RecordBytes(r)) && end == p + |RecordBytes(r)|
  {
    hide HeaderAt, HeaderBytes, DataOf, DataBytes, HasBit;
    HoldsConcat(s, p, HeaderBytes(r.header), DataBytes(r.data));
    if p + HEADER_SIZE <= |s| {
      HeaderWords(s, p, r.header);
      if HeaderAt(s, p) == r.header && p + HEADER_SIZE + r.header.dataSize <= |s| {
        DataInverse(r.header.flags, s[p + HEADER_SIZE..p + HEADER_SIZE + r.header.dataSize], r.data);
      }
    }
  }

  /** A record's range plays no part in its bytes or its well-formedness. */
  lemma RecordRangeFree(r: Record, range: Option<Range>)
    ensures RecordBytes(r.(range := range)) == RecordBytes(r)
    ensures RecordOk(r.(range := range)) <==> RecordOk(r)
  {
  }
}
