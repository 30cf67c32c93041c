/**
 Subrecord framing inside a record's data block, with the XXXX size override.

 A frame is one subrecord together with the XXXX headers in front of it. The
 parser reports offsets; the specification cuts the block into frames, so that
 frames can be kept, replaced and reparsed independently of where they stand.
 */
module Subrecords {
  import opened Wire
  import opened Cursor
  import opened Records
  import opened Buffer

  const XXXX: Signature := [0x58, 0x58, 0x58, 0x58]

  datatype SubRecord = SubRecord(signature: Signature, data: Bytes)

  /** A parsed subrecord whose payload is `start..end` of the data block. */
  datatype BorrowedSubRecord = BorrowedSubRecord(signature: Signature, start: nat, end: nat)

  datatype Frame = Frame(raw: Bytes, sub: SubRecord)

  /** The frames of a block and the override headers that no subrecord follows. */
  datatype Frames = Frames(frames: seq<Frame>, tail: Bytes)

  const XXXX_HEADER: Bytes := XXXX + Le16(4)

  /** What the parser meets next. */
  datatype Step = Done | Bad(error: Error) | Override(size: U32) | Sub(length: nat, sub: SubRecord)

  function StepOf(s: Bytes, pending: Option<U32>): (step: Step)
    ensures step.Done? <==> s == []
    ensures step.Override? ==> |s| >= 10
    ensures step.Sub? ==> 6 <= step.length <= |s| && step.sub.data == s[6..step.length]
  {
    if s == [] then Done
    else if |s| < 6 then Bad(UnexpectedEof)
    else if s[..4] == XXXX then
      if U16At(s, 4) != 4 then Bad(InvalidEncoding)
      else if |s| < 10 then Bad(UnexpectedEof)
      else Override(U32At(s, 6))
    else
      var end := 6 + if pending.Some? then pending.value else U16At(s, 4);
      if |s| < end then Bad(UnexpectedEof) else Sub(end, SubRecord(s[..4], s[6..end]))
  }

  /**
   The frames of `s`, where `lead` holds the override headers already read and
   `pending` the size the last of them announced.
   */
  function FramesOf(s: Bytes, lead: Bytes, pending: Option<U32>): Result<Frames>
    decreases |s|
  {
    match StepOf(s, pending)
    case Done => Ok(Frames([], lead))
    case Bad(error) => Err(error)
    case Override(size) => FramesOf(s[10..], lead + s[..10], Some(size))
    case Sub(end, sub) =>
      var rest :- FramesOf(s[end..], [], None);
      Ok(Frames([Frame(lead + s[..end], sub)] + rest.frames, rest.tail))
  }

  function SubrecordsOf(frames: seq<Frame>): (subs: seq<SubRecord>)
    ensures |subs| == |frames|
    ensures forall i :: 0 <= i < |frames| ==> subs[i] == frames[i].sub
  {
    seq(|frames|, i requires 0 <= i < |frames| => frames[i].sub)
  }

  function RawBytes(frames: seq<Frame>): Bytes {
    if frames == [] then [] else frames[0].raw + RawBytes(frames[1..])
  }

  /** `sub` is frame `i` of a block that starts with the raw bytes of `frames`. */
  ghost predicate LocatedAt(sub: BorrowedSubRecord, frames: seq<Frame>, i: nat)
    requires i < |frames|
  {
    && sub.signature == frames[i].sub.signature
    && sub.end == |RawBytes(frames[..i + 1])|
    && sub.start + |frames[i].sub.data| == sub.end
  }

  ghost predicate AllLocated(subs: seq<BorrowedSubRecord>, frames: seq<Frame>) {
    |subs| == |frames| && forall i :: 0 <= i < |frames| ==> LocatedAt(subs[i], frames, i)
  }

  // --------------------------------------------------------------------------
  // The parser
  // --------------------------------------------------------------------------

  ghost predicate Reports(r: Result<seq<BorrowedSubRecord>>, spec: Result<Frames>) {
    match r
    case Ok(subs) => spec.Ok? && AllLocated(subs, spec.value.frames)
    case Err(e) => spec == Err(e)
  }

  ghost function Continue(done: seq<Frame>, rest: Result<Frames>): Result<Frames> {
    match rest
    case Ok(v) => Ok(Frames(done + v.frames, v.tail))
    case Err(e) => Err(e)
  }

  /** The frames of the block from offset `p` on, the last complete one ending at `offset`. */
  ghost function CutAt(data: Bytes, offset: nat, p: nat, pending: Option<U32>): Result<Frames>
    requires offset <= p <= |data|
  {
    FramesOf(data[p..], data[offset..p], pending)
  }

  method ParseSubrecords(data: Bytes) returns (r: Result<seq<BorrowedSubRecord>>)
    ensures Reports(r, FramesOf(data, [], None))
  {
    hide AllLocated, RawBytes, CutAt, Continue, U16At, U32At;
    var cursor := new SliceCursor(data);
    var subrecords: seq<BorrowedSubRecord> := [];
    var pending: Option<U32> := None;
    ghost var whole := FramesOf(data, [], None);
    ghost var frames: seq<Frame> := [];
    ghost var offset := 0;
    CutAtStart(data);
    ContinueFromNothing(whole);
    NothingLocated();
    while !cursor.IsEmpty()
      invariant cursor.Valid() && cursor.data == data && fresh(cursor)
      invariant offset <= cursor.pos
      invariant AllLocated(subrecords, frames) && offset == |RawBytes(frames)|
      invariant whole == Continue(frames, CutAt(data, offset, cursor.pos, pending))
      decreases |data| - cursor.pos
    {
      ghost var p := cursor.pos;
      CutBad(data, offset, p, pending);
      ContinueToEnd(frames, CutAt(data, offset, p, pending));
      var signature :- cursor.ReadSlice(4);
      var rawSize :- cursor.ReadU16();
      if signature == XXXX {
        if rawSize != 4 {
          return Err(InvalidEncoding);
        }
        var xxxx :- cursor.SubCursor(4);
        var realSize := xxxx.ReadU32();
        CutOverride(data, offset, p, pending);
        pending := Some(realSize.value);
        continue;
      }
      var dataSize: nat := if pending.Some? then pending.value else rawSize;
      var start := cursor.pos;
      var payload :- cursor.ReadSlice(dataSize);
      var end := cursor.pos;
      ghost var frame := Frame(data[offset..end], SubRecord(signature, payload));
      CutSub(data, offset, p, pending, end);
      pending := None;
      ContinueTwice(frames, [frame], CutAt(data, end, end, None));
      LocatedAppend(subrecords, frames, BorrowedSubRecord(signature, start, end), frame);
      subrecords := subrecords + [BorrowedSubRecord(signature, start, end)];
      frames := frames + [frame];
      offset := end;
    }
    CutBad(data, offset, cursor.pos, pending);
    ContinueToEnd(frames, CutAt(data, offset, cursor.pos, pending));
    return Ok(subrecords);
  }

  lemma CutAtStart(data: Bytes)
    ensures CutAt(data, 0, 0, None) == FramesOf(data, [], None)
  {
    assert data[0..] == data && data[0..0] == [];
  }

  /** Where the parser stops: at the end of the block or at a malformed header. */
  lemma CutBad(data: Bytes, offset: nat, p: nat, pending: Option<U32>)
    requires offset <= p <= |data|
    ensures p == |data| ==> CutAt(data, offset, p, pending) == Ok(Frames([], data[offset..p]))
    ensures p < |data| < p + 6 ==> CutAt(data, offset, p, pending) == Err(UnexpectedEof)
    ensures p + 6 <= |data| ==>
              if data[p..p + 4] == XXXX then
                (U16At(data, p + 4) != 4 ==> CutAt(data, offset, p, pending) == Err(InvalidEncoding))
                && (U16At(data, p + 4) == 4 && |data| < p + 10 ==> CutAt(data, offset, p, pending) == Err(UnexpectedEof))
              else
                |data| < p + 6 + (if pending.Some? then pending.value else U16At(data, p + 4)) ==>
                  CutAt(data, offset, p, pending) == Err(UnexpectedEof)
  {
    hide U16At;
    var s := data[p..];
    if p + 6 <= |data| {
      ShiftedHeader(data, p);
    }
  }

  lemma ShiftedHeader(data: Bytes, p: nat)
    requires p + 6 <= |data|
    ensures data[p..][..4] == data[p..p + 4] && U16At(data[p..], 4) == U16At(data, p + 4)
  {
  }

  lemma CutOverride(data: Bytes, offset: nat, p: nat, pending: Option<U32>)
    requires offset <= p && p + 10 <= |data| && data[p..p + 4] == XXXX && U16At(data, p + 4) == 4
    ensures CutAt(data, offset, p, pending)
         == CutAt(data, offset, p + 10, Some(U32At(data[p + 6..p + 10], 0)))
  {
    hide U16At;
    var s := data[p..];
    ShiftedHeader(data, p);
    assert U32At(s, 6) == U32At(data[p + 6..p + 10], 0);
    assert s[10..] == data[p + 10..] && data[offset..p] + s[..10] == data[offset..p + 10];
  }

  lemma CutSub(data: Bytes, offset: nat, p: nat, pending: Option<U32>, end: nat)
    requires offset <= p && p + 6 <= end <= |data| && data[p..p + 4] != XXXX
    requires end == p + 6 + if pending.Some? then pending.value else U16At(data, p + 4)
    ensures CutAt(data, offset, p, pending)
         == Continue([Frame(data[offset..end], SubRecord(data[p..p + 4], data[p + 6..end]))], CutAt(data, end, end, None))
  {
    hide U16At;
    var s, n := data[p..], end - p;
    ShiftedHeader(data, p);
    assert s[6..n] == data[p + 6..end];
    assert s[n..] == data[end..] && data[offset..p] + s[..n] == data[offset..end];
    assert data[end..end] == [];
  }

  lemma NothingLocated()
    ensures AllLocated([], []) && RawBytes([]) == []
  {
  }

  lemma LocatedAppend(subs: seq<BorrowedSubRecord>, frames: seq<Frame>, sub: BorrowedSubRecord, f: Frame)
    requires AllLocated(subs, frames) && sub.signature == f.sub.signature
    requires sub.end == |RawBytes(frames)| + |f.raw| && sub.start + |f.sub.data| == sub.end
    ensures AllLocated(subs + [sub], frames + [f])
    ensures |RawBytes(frames + [f])| == sub.end
  {
    hide RawBytes;
    RawBytesConcat(frames, [f]);
    RawBytesOne(f);
    var all := frames + [f];
    forall i | 0 <= i < |all|
      ensures LocatedAt((subs + [sub])[i], all, i)
    {
      if i < |frames| {
        assert all[..i + 1] == frames[..i + 1];
        assert LocatedAt(subs[i], frames, i);
      } else {
        assert all[..i + 1] == all;
      }
    }
  }

  lemma RawBytesOne(f: Frame)
    ensures RawBytes([f]) == f.raw
  {
    assert RawBytes([f]) == f.raw + RawBytes([]);
  }

  lemma {:induction false} RawBytesConcat(a: seq<Frame>, b: seq<Frame>)
    ensures RawBytes(a + b) == RawBytes(a) + RawBytes(b)
    decreases |a|
  {
    if a == [] {
      assert a + b == b;
    } else {
      var all := a + b;
      assert all[0] == a[0] && all[1..] == a[1..] + b;
      RawBytesConcat(a[1..], b);
      assert RawBytes(all) == a[0].raw + (RawBytes(a[1..]) + RawBytes(b));
      Assoc(a[0].raw, RawBytes(a[1..]), RawBytes(b));
    }
  }

  lemma ContinueFromNothing(rest: Result<Frames>)
    ensures Continue([], rest) == rest
  {
    if rest.Ok? {
      assert [] + rest.value.frames == rest.value.frames;
    }
  }

  lemma ContinueToEnd(done: seq<Frame>, rest: Result<Frames>)
    ensures rest.Err? ==> Continue(done, rest) == rest
    ensures rest.Ok? && rest.value.frames == [] ==> Continue(done, rest) == Ok(Frames(done, rest.value.tail))
  {
    assert done + [] == done;
  }

  lemma ContinueTwice(a: seq<Frame>, b: seq<Frame>, rest: Result<Frames>)
    ensures Continue(a, Continue(b, rest)) == Continue(a + b, rest)
  {
    if rest.Ok? {
      assert a + (b + rest.value.frames) == a + b + rest.value.frames;
    }
  }

  // --------------------------------------------------------------------------
  // Frames are independent of what surrounds them
  // --------------------------------------------------------------------------

  /** A complete step does not look beyond the bytes it takes. */
  lemma StepPrefix(s: Bytes, pending: Option<U32>, b: Bytes)
    ensures var step := StepOf(s, pending);
            (step.Override? ==> StepOf(s[..10] + b, pending) == step)
            && (step.Sub? ==> StepOf(s[..step.length] + b, pending) == step)
  {
    var step := StepOf(s, pending);
    if step.Override? {
      var t := s[..10] + b;
      assert t[..4] == s[..4];
    } else if step.Sub? {
      var t := s[..step.length] + b;
      assert t[..4] == s[..4] && t[6..step.length] == s[6..step.length];
    }
  }

  /** `f.raw` alone parses to exactly the frame `f`. */
  ghost predicate FrameOk(f: Frame) {
    FramesOf(f.raw, [], None) == Ok(Frames([f], []))
  }

  /** Nothing is lost or moved when a block is cut into frames. */
  lemma {:induction false} FramesCover(s: Bytes, lead: Bytes, pending: Option<U32>)
    requires FramesOf(s, lead, pending).Ok?
    ensures var fs := FramesOf(s, lead, pending).value; RawBytes(fs.frames) + fs.tail == lead + s
    decreases |s|
  {
    hide StepOf, RawBytes;
    NothingLocated();
    match StepOf(s, pending) {
      case Done =>
        assert lead + s == lead;
      case Override(size) =>
        FramesCover(s[10..], lead + s[..10], Some(size));
        assert lead + s[..10] + s[10..] == lead + s;
      case Sub(end, sub) =>
        FramesCover(s[end..], [], None);
        var rest := FramesOf(s[end..], [], None).value;
        var first := Frame(lead + s[..end], sub);
        RawBytesConcat([first], rest.frames);
        RawBytesOne(first);
        Assoc(first.raw, RawBytes(rest.frames), rest.tail);
        Assoc(lead, s[..end], s[end..]);
        assert s == s[..end] + s[end..] && [] + s[end..] == s[end..];
    }
  }

  /** A block whose last frame is complete can be followed by any other block. */
  lemma {:induction false} FramesConcat(a: Bytes, lead: Bytes, pending: Option<U32>, b: Bytes)
    requires pending.Some? ==> lead != []
    requires FramesOf(a, lead, pending).Ok? && FramesOf(a, lead, pending).value.tail == []
    ensures FramesOf(a + b, lead, pending)
            == Continue(FramesOf(a, lead, pending).value.frames, FramesOf(b, [], None))
    decreases |a|
  {
    hide StepOf;
    match StepOf(a, pending) {
      case Done =>
        assert a + b == b;
        ContinueFromNothing(FramesOf(b, [], None));
      case Override(size) =>
        assert a + b == a[..10] + (a[10..] + b);
        StepPrefix(a, pending, a[10..] + b);
        assert (a + b)[..10] == a[..10] && (a + b)[10..] == a[10..] + b;
        FramesConcat(a[10..], lead + a[..10], Some(size), b);
      case Sub(end, sub) =>
        assert a + b == a[..end] + (a[end..] + b);
        StepPrefix(a, pending, a[end..] + b);
        assert (a + b)[..end] == a[..end] && (a + b)[end..] == a[end..] + b;
        FramesConcat(a[end..], [], None, b);
        var first := [Frame(lead + a[..end], sub)];
        var rest := FramesOf(a[end..], [], None).value;
        ContinueTwice(first, rest.frames, FramesOf(b, [], None));
    }
  }

  /** Override headers `lead` that end by announcing `pending`. */
  ghost predicate LeadOk(lead: Bytes, pending: Option<U32>) {
    forall x: Bytes :: FramesOf(lead + x, [], None) == FramesOf(x, lead, pending)
  }

  lemma NoLead()
    ensures LeadOk([], None)
  {
    forall x: Bytes
      ensures FramesOf([] + x, [], None) == FramesOf(x, [], None)
    {
      assert [] + x == x;
    }
  }

  lemma LeadStep(lead: Bytes, pending: Option<U32>, s: Bytes)
    requires LeadOk(lead, pending) && StepOf(s, pending).Override?
    ensures LeadOk(lead + s[..10], Some(StepOf(s, pending).size))
  {
    hide StepOf;
    var size := StepOf(s, pending).size;
    forall x: Bytes
      ensures FramesOf(lead + s[..10] + x, [], None) == FramesOf(x, lead + s[..10], Some(size))
    {
      var y := s[..10] + x;
      assert lead + s[..10] + x == lead + y;
      assert FramesOf(lead + y, [], None) == FramesOf(y, lead, pending);
      StepPrefix(s, pending, x);
      assert y[..10] == s[..10] && y[10..] == x;
    }
  }

  /** Every frame and the tail the parser cuts out would parse the same on their own. */
  lemma {:induction false} FramesAreOk(s: Bytes, lead: Bytes, pending: Option<U32>)
    requires LeadOk(lead, pending) && FramesOf(s, lead, pending).Ok?
    ensures var fs := FramesOf(s, lead, pending).value;
            (forall i :: 0 <= i < |fs.frames| ==> FrameOk(fs.frames[i]))
            && FramesOf(fs.tail, [], None) == Ok(Frames([], fs.tail))
    decreases |s|
  {
    hide StepOf, LeadOk;
    match StepOf(s, pending) {
      case Done =>
        LeadAlone(lead, pending, []);
        assert lead + [] == lead;
      case Override(size) =>
        LeadStep(lead, pending, s);
        FramesAreOk(s[10..], lead + s[..10], Some(size));
      case Sub(end, sub) =>
        var x := s[..end];
        StepPrefix(s, pending, []);
        assert x + [] == x && x[end..] == [] && x[..end] == x;
        LeadAlone(lead, pending, x);
        var first := Frame(lead + x, sub);
        assert FramesOf(x, lead, pending) == Ok(Frames([first] + [], []));
        assert [first] + [] == [first];
        assert FrameOk(first);
        NoLead();
        FramesAreOk(s[end..], [], None);
    }
  }

  lemma LeadAlone(lead: Bytes, pending: Option<U32>, x: Bytes)
    requires LeadOk(lead, pending)
    ensures FramesOf(lead + x, [], None) == FramesOf(x, lead, pending)
  {
  }

  /** Well-formed frames in any order, before any block, reparse to themselves. */
  lemma {:induction false} FramesReparse(frames: seq<Frame>, b: Bytes)
    requires forall i :: 0 <= i < |frames| ==> FrameOk(frames[i])
    ensures FramesOf(RawBytes(frames) + b, [], None) == Continue(frames, FramesOf(b, [], None))
    decreases |frames|
  {
    hide FramesOf;
    if frames == [] {
      assert RawBytes(frames) + b == b;
      ContinueFromNothing(FramesOf(b, [], None));
    } else {
      var rest := RawBytes(frames[1..]) + b;
      Assoc(frames[0].raw, RawBytes(frames[1..]), b);
      FramesReparse(frames[1..], b);
      FramesConcat(frames[0].raw, [], None, rest);
      ContinueTwice([frames[0]], frames[1..], FramesOf(b, [], None));
      assert frames == [frames[0]] + frames[1..];
    }
  }

  // --------------------------------------------------------------------------
  // Writing a subrecord
  // --------------------------------------------------------------------------

  const MAX_PLAIN_SIZE: nat := 0xFFFF

  function SubRecordBytes(sub: SubRecord): Bytes {
    var size := |sub.data|;
    (if size > MAX_PLAIN_SIZE
     then XXXX_HEADER + Le32(AsU32(size)) + (sub.signature + Le16(0))
     else sub.signature + Le16(size)) + sub.data
  }

  /** Appends one subrecord, behind an XXXX override if it is too long for a plain header. */
  method WriteSubRecord(sub: SubRecord, buf: ByteBuffer)
    modifies buf
    ensures buf.bytes == old(buf.bytes) + SubRecordBytes(sub)
  {
    hide Le16, Le32;
    ghost var before := buf.bytes;
    var dataLen := |sub.data|;
    ghost var header: Bytes;
    if dataLen > MAX_PLAIN_SIZE {
      buf.Append(XXXX);
      buf.Append(Le16(4));
      buf.Append(Le32(AsU32(dataLen)));
      buf.Append(sub.signature);
      buf.Append(Le16(0));
      header := XXXX_HEADER + Le32(AsU32(dataLen)) + (sub.signature + Le16(0));
    } else {
      buf.Append(sub.signature);
      buf.Append(Le16(dataLen));
      header := sub.signature + Le16(dataLen);
    }
    assert buf.bytes == before + header;
    buf.Append(sub.data);
    Assoc(before, header, sub.data);
  }

  /** A header whose size is known, followed by its payload, is one step. */
  lemma PlainStep(sub: SubRecord, sizeField: U16, pending: Option<U32>)
    requires sub.signature != XXXX
    requires |sub.data| == if pending.Some? then pending.value else sizeField
    ensures StepOf(sub.signature + Le16(sizeField) + sub.data, pending) == Sub(6 + |sub.data|, sub)
  {
    hide Le16, U16At;
    var s := sub.signature + Le16(sizeField) + sub.data;
    assert s[..4] == sub.signature && s[4..6] == Le16(sizeField) && s[6..6 + |sub.data|] == sub.data;
    Word16(s, 4, sizeField);
  }

  lemma OverrideStep(size: U32, t: Bytes)
    ensures StepOf(XXXX_HEADER + Le32(size) + t, None) == Override(size)
  {
    hide Le16, Le32, U16At, U32At;
    var s := XXXX_HEADER + Le32(size) + t;
    assert s[..4] == XXXX && s[4..6] == Le16(4) && s[6..10] == Le32(size);
    Word16(s, 4, 4);
    Word32(s, 6, size);
  }

  /**
   A written subrecord is one frame that reads back as itself, on both sides of
   the override boundary. XXXX itself cannot be the signature.
   */
  lemma WrittenFrame(sub: SubRecord)
    requires sub.signature != XXXX && |sub.data| < 0x1_0000_0000
    ensures FrameOk(Frame(SubRecordBytes(sub), sub))
  {
    hide Le16, Le32, StepOf;
    var s, size := SubRecordBytes(sub), |sub.data|;
    var f := Frame(s, sub);
    assert [f] + [] == [f];
    assert FramesOf([], [], None) == Ok(Frames([], []));
    if size > MAX_PLAIN_SIZE {
      var lead, t := XXXX_HEADER + Le32(size), sub.signature + Le16(0) + sub.data;
      assert s == lead + t;
      OverrideStep(size, t);
      assert s[..10] == lead && s[10..] == t && [] + lead == lead;
      PlainStep(sub, 0, Some(size));
      assert t[..6 + size] == t && t[6 + size..] == [];
      assert FramesOf(t, lead, Some(size)) == Ok(Frames([Frame(lead + t, sub)] + [], []));
      assert FramesOf(s, [], None) == FramesOf(t, lead, Some(size));
    } else {
      PlainStep(sub, size, None);
      assert s[..6 + size] == s && s[6 + size..] == [] && [] + s == s;
    }
  }

  function SubRecordsBytes(subs: seq<SubRecord>): Bytes {
    if subs == [] then [] else SubRecordBytes(subs[0]) + SubRecordsBytes(subs[1..])
  }

  function WrittenFrames(subs: seq<SubRecord>): (frames: seq<Frame>)
    ensures |frames| == |subs|
    ensures forall i :: 0 <= i < |subs| ==> frames[i] == Frame(SubRecordBytes(subs[i]), subs[i])
  {
    seq(|subs|, i requires 0 <= i < |subs| => Frame(SubRecordBytes(subs[i]), subs[i]))
  }

  lemma {:induction false} WrittenRaw(subs: seq<SubRecord>)
    ensures RawBytes(WrittenFrames(subs)) == SubRecordsBytes(subs)
    decreases |subs|
  {
    hide SubRecordBytes;
    if subs != [] {
      assert WrittenFrames(subs)[1..] == WrittenFrames(subs[1..]);
      WrittenRaw(subs[1..]);
    }
  }

  /** A written list of subrecords reads back as exactly that list. */
  lemma WrittenSubRecordsParse(subs: seq<SubRecord>)
    requires forall i :: 0 <= i < |subs| ==> subs[i].signature != XXXX && |subs[i].data| < 0x1_0000_0000
    ensures FramesOf(SubRecordsBytes(subs), [], None) == Ok(Frames(WrittenFrames(subs), []))
    ensures SubrecordsOf(WrittenFrames(subs)) == subs
  {
    hide SubRecordBytes, FrameOk;
    var frames := WrittenFrames(subs);
    forall i | 0 <= i < |frames|
      ensures FrameOk(frames[i])
    {
      WrittenFrame(subs[i]);
    }
    WrittenRaw(subs);
    FramesReparse(frames, []);
    assert RawBytes(frames) + [] == RawBytes(frames);
    assert FramesOf([], [], None) == Ok(Frames([], []));
    assert frames + [] == frames;
  }
}
