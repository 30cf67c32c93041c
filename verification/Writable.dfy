/**
 Plugin contents built from scratch: the writer of records and groups, and the
 tree a parser finds in what was written.
 */
module Writable {
  import opened Wire
  import opened Buffer
  import opened Records
  import opened Subrecords
  import opened Groups

  datatype WritableRecord = WritableRecord(
    signature: Signature,
    flags: U32,
    formId: FormId,
    formVersion: U16,
    subrecords: seq<SubRecord>)

  datatype WritableChild = PlainRecord(record: WritableRecord) | NestedGroup(group: WritableGroup)
  datatype WritableGroup = WritableGroup(tag: Signature, groupType: I32, children: seq<WritableChild>)

  // --------------------------------------------------------------------------
  // What is written
  // --------------------------------------------------------------------------

  function WrittenHeader(r: WritableRecord): RecordHeader {
    RecordHeader(r.signature, AsU32(|SubRecordsBytes(r.subrecords)|), r.flags, r.formId, 0, r.formVersion, 0)
  }

  function WrittenRecord(r: WritableRecord): (b: Bytes)
    ensures |b| == 24 + |SubRecordsBytes(r.subrecords)|
  {
    HeaderBytes(WrittenHeader(r)) + SubRecordsBytes(r.subrecords)
  }

  function WrittenChild(c: WritableChild): Bytes
    decreases c, 0
  {
    match c
    case PlainRecord(r) => WrittenRecord(r)
    case NestedGroup(g) => WrittenGroup(g)
  }

  function GroupHead(g: WritableGroup, size: U32): (b: Bytes)
    ensures |b| == 24
  {
    GRUP + (Le32(size) + (g.tag + (Le32(FromI32(g.groupType)) + (Le32(0) + Le32(0)))))
  }

  function WrittenGroup(g: WritableGroup): Bytes
    decreases g, 1
  {
    var body := WrittenChildren(g.children);
    GroupHead(g, AsU32(GROUP_HEADER_SIZE + |body|)) + body
  }

  function WrittenChildren(cs: seq<WritableChild>): Bytes
    decreases cs, 0
  {
    if cs == [] then [] else WrittenChild(cs[0]) + WrittenChildren(cs[1..])
  }

  // --------------------------------------------------------------------------
  // The writer
  // --------------------------------------------------------------------------

  method WriteRecord(r: WritableRecord, buf: ByteBuffer)
    modifies buf
    ensures buf.bytes == old(buf.bytes) + WrittenRecord(r)
  {
    hide Le16, Le32, SubRecordBytes;
    ghost var before := buf.bytes;
    var dataBuf := new ByteBuffer();
    assert r.subrecords[0..] == r.subrecords;
    for i := 0 to |r.subrecords|
      invariant fresh(dataBuf) && buf.bytes == before
      invariant dataBuf.bytes + SubRecordsBytes(r.subrecords[i..]) == SubRecordsBytes(r.subrecords)
    {
      assert r.subrecords[i..][0] == r.subrecords[i] && r.subrecords[i..][1..] == r.subrecords[i + 1..];
      Assoc(dataBuf.bytes, SubRecordBytes(r.subrecords[i]), SubRecordsBytes(r.subrecords[i + 1..]));
      WriteSubRecord(r.subrecords[i], dataBuf);
    }
    assert r.subrecords[|r.subrecords|..] == [];
    assert dataBuf.bytes == SubRecordsBytes(r.subrecords);
    buf.Append(r.signature);
    buf.Append(Le32(AsU32(|dataBuf.bytes|)));
    buf.Append(Le32(r.flags));
    buf.Append(Le32(r.formId));
    buf.Append(Le32(0));
    buf.Append(Le16(r.formVersion));
    buf.Append(Le16(0));
    assert buf.bytes == before + HeaderBytes(WrittenHeader(r));
    buf.Append(dataBuf.bytes);
    Assoc(before, HeaderBytes(WrittenHeader(r)), dataBuf.bytes);
  }

  method WriteGroupHead(g: WritableGroup, groupSize: U32, buf: ByteBuffer)
    modifies buf
    ensures buf.bytes == old(buf.bytes) + GroupHead(g, groupSize)
  {
    hide Le32;
    ghost var before := buf.bytes;
    buf.Append(GRUP);
    buf.Append(Le32(groupSize));
    buf.Append(g.tag);
    buf.Append(Le32(FromI32(g.groupType)));
    buf.Append(Le32(0));
    buf.Append(Le32(0));
    assert buf.bytes == before + GroupHead(g, groupSize);
  }

  method WriteGroup(g: WritableGroup, buf: ByteBuffer)
    modifies buf
    ensures buf.bytes == old(buf.bytes) + WrittenGroup(g)
    decreases g
  {
    hide GroupHead, WrittenRecord;
    ghost var before := buf.bytes;
    var childrenBuf := new ByteBuffer();
    assert g.children[0..] == g.children;
    for i := 0 to |g.children|
      invariant fresh(childrenBuf) && buf.bytes == before
      invariant childrenBuf.bytes + WrittenChildren(g.children[i..]) == WrittenChildren(g.children)
    {
      assert g.children[i..][0] == g.children[i] && g.children[i..][1..] == g.children[i + 1..];
      Assoc(childrenBuf.bytes, WrittenChild(g.children[i]), WrittenChildren(g.children[i + 1..]));
      match g.children[i] {
        case PlainRecord(r) => WriteRecord(r, childrenBuf);
        case NestedGroup(inner) => WriteGroup(inner, childrenBuf);
      }
    }
    assert g.children[|g.children|..] == [];
    var groupSize := AsU32(GROUP_HEADER_SIZE + |childrenBuf.bytes|);
    WriteGroupHead(g, groupSize, buf);
    buf.Append(childrenBuf.bytes);
    Assoc(before, GroupHead(g, groupSize), childrenBuf.bytes);
  }

  // --------------------------------------------------------------------------
  // Reading back
  // --------------------------------------------------------------------------

  /** What can be written so that a parser recovers it. */
  ghost predicate Serializable(c: WritableChild)
    decreases c, 0
  {
    match c
    case PlainRecord(r) =>
      && r.signature != GRUP
      && !HasBit(r.flags, COMPRESSED)
      && (forall i :: 0 <= i < |r.subrecords| ==> r.subrecords[i].signature != XXXX)
    case NestedGroup(g) => TypeFromRaw(g.groupType).Ok? && AllSerializable(g.children)
  }

  ghost predicate AllSerializable(cs: seq<WritableChild>)
    decreases cs, 0
  {
    cs == [] || (Serializable(cs[0]) && AllSerializable(cs[1..]))
  }

  /** The subrecord list that a data block parses to. */
  ghost predicate ReadsAs(data: RecordData, subs: seq<SubRecord>) {
    && data.Raw?
    && FramesOf(data.bytes, [], None).Ok?
    && SubrecordsOf(FramesOf(data.bytes, [], None).value.frames) == subs
  }

  /** A parsed tree with the same fields, nesting, order and subrecord lists. */
  ghost predicate Mirrors(t: Child, c: WritableChild)
    decreases c, 0
  {
    match c
    case PlainRecord(r) =>
      && t.RecordChild?
      && t.record.header.signature == r.signature
      && t.record.header.flags == r.flags
      && t.record.header.formId == r.formId
      && t.record.header.formVersion == r.formVersion
      && ReadsAs(t.record.data, r.subrecords)
    case NestedGroup(g) =>
      && t.GroupChild?
      && TypeToRaw(t.group.header.groupType) == g.groupType
      && LabelBytes(t.group.header.groupLabel) == g.tag
      && AllMirror(t.group.children, g.children)
  }

  ghost predicate AllMirror(ts: seq<Child>, cs: seq<WritableChild>)
    decreases cs, 0
  {
    if cs == [] then ts == [] else ts != [] && Mirrors(ts[0], cs[0]) && AllMirror(ts[1..], cs[1..])
  }

  /** The tree that is written, for serializable contents. */
  ghost function TreeOf(c: WritableChild): Child
    requires Serializable(c)
    decreases c, 0
  {
    match c
    case PlainRecord(r) => RecordChild(Record(WrittenHeader(r), None, Raw(SubRecordsBytes(r.subrecords))))
    case NestedGroup(g) =>
      var t := TypeFromRaw(g.groupType).value;
      GroupChild(Group(GroupHeader(AsU32(GROUP_HEADER_SIZE + |WrittenChildren(g.children)|), LabelFromRaw(g.tag, t), t, 0, 0),
                       None, TreesOf(g.children)))
  }

  ghost function TreesOf(cs: seq<WritableChild>): (ts: seq<Child>)
    requires AllSerializable(cs)
    ensures |ts| == |cs|
    decreases cs, 0
  {
    if cs == [] then [] else [TreeOf(cs[0])] + TreesOf(cs[1..])
  }

  // --------------------------------------------------------------------------
  // The written bytes are the printed tree
  // --------------------------------------------------------------------------

  lemma {:induction false} WrittenTrees(cs: seq<WritableChild>)
    requires AllSerializable(cs) && |WrittenChildren(cs)| < 0x1_0000_0000
    ensures ChildrenBytes(TreesOf(cs)) == WrittenChildren(cs) && ChildrenOk(TreesOf(cs))
    decreases cs, 0
  {
    hide WrittenChild, TreeOf, ChildBytes, ChildOk, Serializable;
    if cs != [] {
      WrittenTree(cs[0]);
      WrittenTrees(cs[1..]);
      assert TreesOf(cs)[0] == TreeOf(cs[0]) && TreesOf(cs)[1..] == TreesOf(cs[1..]);
    }
  }

  lemma {:induction false} WrittenTree(c: WritableChild)
    requires Serializable(c) && |WrittenChild(c)| < 0x1_0000_0000
    ensures ChildBytes(TreeOf(c)) == WrittenChild(c) && ChildOk(TreeOf(c))
    decreases c, 0
  {
    hide HeaderBytes, SubRecordsBytes, LabelBytes, LabelFromRaw, WrittenChildren, ChildrenBytes, ChildrenOk, Le32;
    match c {
      case PlainRecord(r) =>
      case NestedGroup(g) =>
        WrittenTrees(g.children);
        var t := TypeFromRaw(g.groupType).value;
        TypeInverse(g.groupType, t);
        LabelInverse(g.tag, t, LabelFromRaw(g.tag, t));
        assert GroupOk(TreeOf(c).group);
    }
  }

  lemma {:induction false} TreesMirror(cs: seq<WritableChild>, p: nat)
    requires AllSerializable(cs) && |WrittenChildren(cs)| < 0x1_0000_0000
    ensures AllMirror(LocateChildren(TreesOf(cs), p), cs)
    decreases cs, 0
  {
    hide WrittenChild, TreeOf, ChildBytes, Serializable, LocateChild, Mirrors;
    if cs != [] {
      var ts := TreesOf(cs);
      assert ts[0] == TreeOf(cs[0]) && ts[1..] == TreesOf(cs[1..]);
      TreeMirrors(cs[0], p);
      TreesMirror(cs[1..], p + |ChildBytes(ts[0])|);
      assert LocateChildren(ts, p)[1..] == LocateChildren(ts[1..], p + |ChildBytes(ts[0])|);
    }
  }

  lemma {:induction false} TreeMirrors(c: WritableChild, p: nat)
    requires Serializable(c) && |WrittenChild(c)| < 0x1_0000_0000
    ensures Mirrors(LocateChild(TreeOf(c), p), c)
    decreases c, 0
  {
    hide HeaderBytes, LabelBytes, LabelFromRaw, WrittenChildren, ChildrenBytes, LocateChildren, Le32, FramesOf, SubrecordsOf,
         AllMirror, RecordBytes;
    match c {
      case PlainRecord(r) =>
        SubRecordsFit(r.subrecords);
        WrittenSubRecordsParse(r.subrecords);
      case NestedGroup(g) =>
        TreesMirror(g.children, p + 24);
        var t := TypeFromRaw(g.groupType).value;
        TypeInverse(g.groupType, t);
        LabelInverse(g.tag, t, LabelFromRaw(g.tag, t));
    }
  }

  lemma {:induction false} SubRecordsFit(subs: seq<SubRecord>)
    ensures forall i :: 0 <= i < |subs| ==> |subs[i].data| <= |SubRecordsBytes(subs)|
    decreases |subs|
  {
    if subs != [] {
      SubRecordsFit(subs[1..]);
      assert subs == [subs[0]] + subs[1..];
    }
  }

  // --------------------------------------------------------------------------
  // Exactly the serializable contents read back
  // --------------------------------------------------------------------------

  /** No parsed subrecord carries the override signature. */
  lemma {:induction false} OverridesVanish(s: Bytes, lead: Bytes, pending: Option<U32>)
    requires FramesOf(s, lead, pending).Ok?
    ensures var frames := FramesOf(s, lead, pending).value.frames;
            forall i :: 0 <= i < |frames| ==> frames[i].sub.signature != XXXX
    decreases |s|
  {
    match StepOf(s, pending) {
      case Done =>
      case Override(size) => OverridesVanish(s[10..], lead + s[..10], Some(size));
      case Sub(end, sub) =>
        OverridesVanish(s[end..], [], None);
        assert FramesOf(s, lead, pending).value.frames == [Frame(lead + s[..end], sub)] + FramesOf(s[end..], [], None).value.frames;
    }
  }

  lemma {:induction false} MirroredIsSerializable(t: Child, c: WritableChild)
    requires ChildOk(t) && Mirrors(t, c)
    ensures Serializable(c)
    decreases c, 0
  {
    hide RecordBytes, FramesOf, SubrecordsOf, LabelBytes, ChildrenBytes;
    match c {
      case PlainRecord(r) =>
        OverridesVanish(t.record.data.bytes, [], None);
      case NestedGroup(g) =>
        assert GroupOk(t.group);
        TypeInverse(g.groupType, t.group.header.groupType);
        MirroredAreSerializable(t.group.children, g.children);
    }
  }

  lemma {:induction false} MirroredAreSerializable(ts: seq<Child>, cs: seq<WritableChild>)
    requires ChildrenOk(ts) && AllMirror(ts, cs)
    ensures AllSerializable(cs)
    decreases cs, 0
  {
    hide ChildOk, Mirrors, Serializable;
    if cs != [] {
      MirroredIsSerializable(ts[0], cs[0]);
      MirroredAreSerializable(ts[1..], cs[1..]);
    }
  }

  /** The parser finds a tree in `s` at `p` that mirrors `c` and ends with its last byte. */
  ghost predicate RoundTrips(s: Bytes, p: nat, c: WritableChild)
    requires p + 4 <= |s|
  {
    exists t :: ChildAt(s, p) == Ok((t, p + |WrittenChild(c)|)) && Mirrors(t, c)
  }

  /**
   Writing and parsing recovers the tree and every subrecord list exactly when
   the group types are known, no record is called GRUP or flagged compressed,
   and no subrecord is called XXXX; sizes have to fit their 32-bit fields.
   */
  lemma WrittenReadsBack(s: Bytes, p: nat, c: WritableChild)
    requires p + 4 <= |s| && Holds(s, p, WrittenChild(c)) && |WrittenChild(c)| < 0x1_0000_0000
    ensures RoundTrips(s, p, c) <==> Serializable(c)
  {
    hide ChildAt, WrittenChild, Mirrors, ChildBytes, ChildOk, LocateChild, Serializable, TreeOf;
    if Serializable(c) {
      WrittenTree(c);
      TreeMirrors(c, p);
      LocateKeepsChild(TreeOf(c), p);
      ChildInverse(s, p, LocateChild(TreeOf(c), p), p + |WrittenChild(c)|);
    }
    if RoundTrips(s, p, c) {
      var t :| ChildAt(s, p) == Ok((t, p + |WrittenChild(c)|)) && Mirrors(t, c);
      ChildInverse(s, p, t, p + |WrittenChild(c)|);
      MirroredIsSerializable(t, c);
    }
  }

  // --------------------------------------------------------------------------
  // Snapshots of writable records
  // --------------------------------------------------------------------------

  /** The folded size: saturating additions of saturating casts. */
  function FoldedSize(subs: seq<SubRecord>, size: U32): U32
    decreases |subs|
  {
    if subs == [] then size
    else
      var headerSize := if |subs[0].data| > MAX_PLAIN_SIZE then 16 else 6;
      var more := Min(headerSize + |subs[0].data|, U32_MAX);
      FoldedSize(subs[1..], Min(size + more, U32_MAX))
  }

  const U32_MAX: U32 := 0xFFFF_FFFF

  /** A record snapshot: its header and its subrecords, taken over unparsed. */
  function Snapshot(r: WritableRecord): (RecordHeader, seq<SubRecord>) {
    (WrittenHeader(r).(dataSize := FoldedSize(r.subrecords, 0)), r.subrecords)
  }

  /** The folded size is the printed length of the body, up to saturation. */
  lemma {:induction false} FoldedSizeIsPrinted(subs: seq<SubRecord>, size: U32)
    ensures FoldedSize(subs, size) == Min(size + |SubRecordsBytes(subs)|, U32_MAX)
    decreases |subs|
  {
    hide Le16, Le32;
    if subs != [] {
      var headerSize := if |subs[0].data| > MAX_PLAIN_SIZE then 16 else 6;
      assert |SubRecordBytes(subs[0])| == headerSize + |subs[0].data|;
      var more := Min(headerSize + |subs[0].data|, U32_MAX);
      FoldedSizeIsPrinted(subs[1..], Min(size + more, U32_MAX));
    }
  }

  /** A snapshot carries the very header that writing and parsing the record yields. */
  lemma SnapshotHeader(r: WritableRecord)
    requires |SubRecordsBytes(r.subrecords)| < 0x1_0000_0000 && r.signature != GRUP && !HasBit(r.flags, COMPRESSED)
    ensures RecordAt(WrittenRecord(r), 0)
         == Ok((Record(Snapshot(r).0, None, Raw(SubRecordsBytes(r.subrecords))), |WrittenRecord(r)|))
  {
    hide HeaderBytes, SubRecordsBytes, RecordAt;
    var t := Record(WrittenHeader(r), None, Raw(SubRecordsBytes(r.subrecords)));
    FoldedSizeIsPrinted(r.subrecords, 0);
    assert WrittenRecord(r) == RecordBytes(t);
    var b := WrittenRecord(r);
    assert b[0..0 + |b|] == b;
    RecordInverse(b, 0, t, |b|);
  }
}
