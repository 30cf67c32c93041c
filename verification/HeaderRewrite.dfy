/**
 Targeted updates of the TES4/TES3 header record: recomputed HEDR counters,
 replaced masters, description and flags, all other frames kept as they are.
 */
module HeaderRewrite {
  import opened Wire
  import opened Records
  import opened Subrecords
  import opened Buffer
  import opened Groups
  import opened Games
  import opened Plugins
  import opened Traversal

  datatype HeaderPatch = HeaderPatch(
    masters: Option<seq<Bytes>>,
    description: Option<Bytes>,
    flagsSet: Option<U32>,
    flagsClear: Option<U32>)

  const NO_PATCH := HeaderPatch(None, None, None, None)

  // --------------------------------------------------------------------------
  // Counting the tree
  // --------------------------------------------------------------------------

  function Max(a: nat, b: nat): nat {
    if a >= b then a else b
  }

  /** One past the highest object ID of the records whose file index is `own`; 0 if there are none. */
  function OwnedEnd(cs: seq<Child>, own: nat): nat
    decreases cs, 0
  {
    if cs == [] then 0 else Max(ChildOwnedEnd(cs[0], own), OwnedEnd(cs[1..], own))
  }

  function ChildOwnedEnd(c: Child, own: nat): nat
    decreases c, 0
  {
    match c
    case RecordChild(r) => if FileIndex(r.header.formId) == own then ObjectId(r.header.formId) + 1 else 0
    case GroupChild(g) => OwnedEnd(g.children, own)
  }

  function DirectRecords(cs: seq<Child>): seq<Record> {
    if cs == [] then []
    else (if cs[0].RecordChild? then [cs[0].record] else []) + DirectRecords(cs[1..])
  }

  function DirectGroups(cs: seq<Child>): seq<Group> {
    if cs == [] then []
    else (if cs[0].GroupChild? then [cs[0].group] else []) + DirectGroups(cs[1..])
  }

  ghost function GroupsCount(gs: seq<Group>): nat {
    if gs == [] then 0 else 1 + NodeCount(gs[|gs| - 1].children) + GroupsCount(gs[..|gs| - 1])
  }

  ghost function GroupsOwnedEnd(gs: seq<Group>, own: nat): nat {
    if gs == [] then 0 else Max(OwnedEnd(gs[|gs| - 1].children, own), GroupsOwnedEnd(gs[..|gs| - 1], own))
  }

  ghost function RecordsOwnedEnd(rs: seq<Record>, own: nat): nat {
    if rs == [] then 0
    else Max(ChildOwnedEnd(RecordChild(rs[|rs| - 1]), own), RecordsOwnedEnd(rs[..|rs| - 1], own))
  }

  lemma {:induction false} AppendGroups(a: seq<Group>, b: seq<Group>, own: nat)
    ensures GroupsCount(a + b) == GroupsCount(a) + GroupsCount(b)
    ensures GroupsOwnedEnd(a + b, own) == Max(GroupsOwnedEnd(a, own), GroupsOwnedEnd(b, own))
    decreases |b|
  {
    hide NodeCount, OwnedEnd;
    if b == [] {
      assert a + b == a;
    } else {
      var n := |b| - 1;
      var all := a + b;
      assert all[..|all| - 1] == a + b[..n] && all[|all| - 1] == b[n];
      AppendGroups(a, b[..n], own);
    }
  }

  lemma {:induction false} AppendRecords(a: seq<Record>, b: seq<Record>, own: nat)
    ensures RecordsOwnedEnd(a + b, own) == Max(RecordsOwnedEnd(a, own), RecordsOwnedEnd(b, own))
    decreases |b|
  {
    hide ChildOwnedEnd;
    if b == [] {
      assert a + b == a;
    } else {
      var n := |b| - 1;
      var all := a + b;
      assert all[..|all| - 1] == a + b[..n] && all[|all| - 1] == b[n];
      AppendRecords(a, b[..n], own);
    }
  }

  lemma OneRecord(r: Record, own: nat)
    ensures RecordsOwnedEnd([r], own) == ChildOwnedEnd(RecordChild(r), own)
  {
  }

  lemma OneGroup(g: Group, own: nat)
    ensures GroupsCount([g]) == 1 + NodeCount(g.children)
    ensures GroupsOwnedEnd([g], own) == OwnedEnd(g.children, own)
  {
  }

  /** A group's contents are its direct records and its subgroups with theirs. */
  lemma {:induction false} SplitChildren(cs: seq<Child>, own: nat)
    ensures NodeCount(cs) == |DirectRecords(cs)| + GroupsCount(DirectGroups(cs))
    ensures OwnedEnd(cs, own) == Max(RecordsOwnedEnd(DirectRecords(cs), own), GroupsOwnedEnd(DirectGroups(cs), own))
    decreases |cs|
  {
    if cs != [] {
      var records, groups := DirectRecords(cs[1..]), DirectGroups(cs[1..]);
      SplitChildren(cs[1..], own);
      match cs[0] {
        case RecordChild(r) =>
          assert DirectGroups(cs) == groups && DirectRecords(cs) == [r] + records;
          AppendRecords([r], records, own);
          OneRecord(r, own);
        case GroupChild(g) =>
          assert DirectRecords(cs) == records && DirectGroups(cs) == [g] + groups;
          AppendGroups([g], groups, own);
          OneGroup(g, own);
      }
    }
  }

  lemma {:induction false} TopGroups(gs: seq<Group>, own: nat)
    ensures GroupsCount(gs) == NodeCount(AsChildren(gs))
    ensures GroupsOwnedEnd(gs, own) == OwnedEnd(AsChildren(gs), own)
    decreases |gs|
  {
    if gs != [] {
      assert AsChildren(gs)[1..] == AsChildren(gs[1..]);
      TopGroups(gs[1..], own);
      assert gs == [gs[0]] + gs[1..];
      AppendGroups([gs[0]], gs[1..], own);
      OneGroup(gs[0], own);
    }
  }

  const MIN_NEXT_ID: U32 := 0x801

  function NextId(stored: U32, cs: seq<Child>, own: nat): nat {
    Max(Max(stored, MIN_NEXT_ID), OwnedEnd(cs, own))
  }

  lemma {:induction false} OwnedEndBound(cs: seq<Child>, own: nat)
    ensures OwnedEnd(cs, own) <= 0x100_0000
    decreases cs, 0
  {
    if cs != [] {
      ChildOwnedEndBound(cs[0], own);
      OwnedEndBound(cs[1..], own);
    }
  }

  lemma {:induction false} ChildOwnedEndBound(c: Child, own: nat)
    ensures ChildOwnedEnd(c, own) <= 0x100_0000
    decreases c, 0
  {
    if c.GroupChild? {
      OwnedEndBound(c.group.children, own);
    }
  }

  const MAX_COUNT: nat := 0xFFFF_FFFF

  /** Counts the direct records of one group and raises the next ID above the owned ones. */
  method CountRecords(records: seq<Record>, own: nat, count: nat, nextId: nat) returns (r: Result<(nat, nat)>)
    requires count <= MAX_COUNT
    ensures r == (if count + |records| > MAX_COUNT then Err(InvalidEncoding)
                  else Ok((count + |records|, Max(nextId, RecordsOwnedEnd(records, own)))))
  {
    hide FileIndex, ObjectId;
    var recordCount, next := count, nextId;
    assert records[..0] == [];
    for i := 0 to |records|
      invariant recordCount == count + i <= MAX_COUNT
      invariant next == Max(nextId, RecordsOwnedEnd(records[..i], own))
    {
      if recordCount + 1 > MAX_COUNT {
        return Err(InvalidEncoding);
      }
      recordCount := recordCount + 1;
      assert records[..i + 1][..i] == records[..i];
      if FileIndex(records[i].header.formId) == own {
        next := Max(next, ObjectId(records[i].header.formId) + 1);
      }
    }
    assert records[..|records|] == records;
    return Ok((recordCount, next));
  }

  /**
   The worklist scan of the header writer: pops groups from a stack, counts
   each with its direct records, and pushes its subgroups.
   */
  method CountTree(stored: U32, top: seq<Group>, own: nat) returns (r: Result<(U32, U32)>)
    ensures r == (if NodeCount(AsChildren(top)) > MAX_COUNT then Err(InvalidEncoding)
                  else Ok((NodeCount(AsChildren(top)), NextId(stored, AsChildren(top), own))))
  {
    hide NodeCount, OwnedEnd, DirectRecords, DirectGroups, RecordsOwnedEnd;
    OwnedEndBound(AsChildren(top), own);
    TopGroups(top, own);
    var recordCount: nat := 0;
    var nextId: nat := Max(stored, MIN_NEXT_ID);
    var groups := top;
    while groups != []
      invariant recordCount <= MAX_COUNT
      invariant recordCount + GroupsCount(groups) == NodeCount(AsChildren(top))
      invariant Max(nextId, GroupsOwnedEnd(groups, own)) == NextId(stored, AsChildren(top), own)
      decreases GroupsCount(groups)
    {
      var group := groups[|groups| - 1];
      groups := groups[..|groups| - 1];
      SplitChildren(group.children, own);
      AppendGroups(groups, DirectGroups(group.children), own);
      if recordCount + 1 > MAX_COUNT {
        return Err(InvalidEncoding);
      }
      var counted :- CountRecords(DirectRecords(group.children), own, recordCount + 1, nextId);
      recordCount, nextId := counted.0, counted.1;
      groups := groups + DirectGroups(group.children);
    }
    return Ok((recordCount, nextId));
  }

  // --------------------------------------------------------------------------
  // Editing the header's frames
  // --------------------------------------------------------------------------

  /** What the header writer puts into the frames, and how far it has come. */
  datatype FrameEdit = FrameEdit(recordCount: U32, nextId: U32, masters: Option<seq<Bytes>>, description: Option<Bytes>)

  datatype Progress = Progress(hedr: bool, masters: bool, description: bool, followsMaster: bool)

  const START := Progress(false, false, false, false)

  function Zeroes(n: nat): Bytes {
    seq(n, i => 0)
  }

  function StringSub(signature: Signature, text: Bytes): SubRecord {
    SubRecord(signature, text + [0])
  }

  /** A MAST and its eight zero DATA bytes for every master. */
  function MasterSubs(masters: seq<Bytes>): seq<SubRecord> {
    if masters == [] then []
    else [StringSub(MAST, masters[0]), SubRecord(DATA, Zeroes(8))] + MasterSubs(masters[1..])
  }

  /** The HEDR payload with both counters overwritten. */
  function WithCounters(d: Bytes, recordCount: U32, nextId: U32): (r: Bytes)
    requires |d| >= 12
    ensures |r| == |d|
  {
    d[..4] + (Le32(recordCount) + Le32(nextId)) + d[12..]
  }

  function Advance(f: Frame, e: FrameEdit, st: Progress): Progress {
    var follows := f.sub.signature == MAST;
    if f.sub.signature == HEDR && !st.hedr then st.(hedr := true, followsMaster := follows)
    else if follows && e.masters.Some? then st.(masters := true, followsMaster := follows)
    else if st.followsMaster && f.sub.signature == DATA && e.masters.Some? then st.(followsMaster := follows)
    else if f.sub.signature == SNAM && e.description.Some? && !st.description
      then st.(description := true, followsMaster := follows)
    else st.(followsMaster := follows)
  }

  /** The frames that replace one frame. */
  function EditFrame(f: Frame, e: FrameEdit, st: Progress): Result<seq<Frame>> {
    if f.sub.signature == HEDR && !st.hedr then
      if |f.sub.data| < 12 || |f.raw| < |f.sub.data| then Err(InvalidEncoding)
      else
        var d := WithCounters(f.sub.data, e.recordCount, e.nextId);
        Ok([Frame(f.raw[..|f.raw| - |d|] + d, f.sub.(data := d))])
    else if f.sub.signature == MAST && e.masters.Some? then
      Ok(if st.masters then [] else WrittenFrames(MasterSubs(e.masters.value)))
    else if st.followsMaster && f.sub.signature == DATA && e.masters.Some? then Ok([])
    else if f.sub.signature == SNAM && e.description.Some? && !st.description then
      Ok(WrittenFrames([StringSub(SNAM, e.description.value)]))
    else Ok([f])
  }

  /** Descriptions and masters that no existing frame made room for. */
  function Appended(e: FrameEdit, st: Progress): seq<Frame> {
    (if e.description.Some? && !st.description then WrittenFrames([StringSub(SNAM, e.description.value)]) else [])
    + (if e.masters.Some? && !st.masters then WrittenFrames(MasterSubs(e.masters.value)) else [])
  }

  function EditFrames(frames: seq<Frame>, e: FrameEdit, st: Progress): Result<seq<Frame>>
    decreases |frames|
  {
    if frames == [] then
      if st.hedr then Ok(Appended(e, st)) else Err(InvalidEncoding)
    else
      var first :- EditFrame(frames[0], e, st);
      var rest :- EditFrames(frames[1..], e, Advance(frames[0], e, st));
      Ok(first + rest)
  }

  /** The header payload after the update. */
  function UpdatedPayloadOf(env: Env, plugin: Plugin, patch: HeaderPatch): Result<Bytes> {
    var cs := AsChildren(plugin.groups);
    var own := |patch.masters.GetOr(plugin.header.masters)|;
    if NodeCount(cs) > MAX_COUNT then Err(InvalidEncoding)
    else
      OwnedEndBound(cs, own);
      var e := FrameEdit(NodeCount(cs), NextId(plugin.header.nextObjectId, cs, own), patch.masters, patch.description);
      var original :- RawData(env, plugin.header.record);
      var frames :- FramesOf(original, [], None);
      var edited :- EditFrames(frames.frames, e, START);
      Ok(RawBytes(edited) + frames.tail)
  }

  // --------------------------------------------------------------------------
  // The header writer
  // --------------------------------------------------------------------------

  method AppendString(output: ByteBuffer, signature: Signature, value: Bytes)
    modifies output
    ensures output.bytes == old(output.bytes) + RawBytes(WrittenFrames([StringSub(signature, value)]))
  {
    hide SubRecordBytes;
    RawBytesOne(Frame(SubRecordBytes(StringSub(signature, value)), StringSub(signature, value)));
    assert WrittenFrames([StringSub(signature, value)])
        == [Frame(SubRecordBytes(StringSub(signature, value)), StringSub(signature, value))];
    WriteSubRecord(StringSub(signature, value), output);
  }

  method AppendMasters(output: ByteBuffer, masters: seq<Bytes>)
    modifies output
    ensures output.bytes == old(output.bytes) + RawBytes(WrittenFrames(MasterSubs(masters)))
  {
    hide SubRecordBytes, RawBytes;
    ghost var before := output.bytes;
    ghost var all := RawBytes(WrittenFrames(MasterSubs(masters)));
    ghost var done: Bytes := [];
    assert masters[0..] == masters;
    for i := 0 to |masters|
      invariant output.bytes == before + done
      invariant all == done + RawBytes(WrittenFrames(MasterSubs(masters[i..])))
    {
      MasterFramesStep(masters[i..]);
      assert masters[i..][1..] == masters[i + 1..];
      AppendString(output, MAST, masters[i]);
      WriteSubRecord(SubRecord(DATA, Zeroes(8)), output);
      ghost var pair := RawBytes(WrittenFrames([StringSub(MAST, masters[i])])) + SubRecordBytes(SubRecord(DATA, Zeroes(8)));
      Assoc(done, pair, RawBytes(WrittenFrames(MasterSubs(masters[i + 1..]))));
      assert output.bytes == before + (done + pair);
      done := done + pair;
    }
    NothingWritten();
    assert masters[|masters|..] == [];
    assert all == done;
  }

  lemma NothingWritten()
    ensures RawBytes(WrittenFrames(MasterSubs([]))) == []
  {
  }

  lemma WrittenConcat(a: seq<SubRecord>, b: seq<SubRecord>)
    ensures WrittenFrames(a + b) == WrittenFrames(a) + WrittenFrames(b)
    ensures RawBytes(WrittenFrames(a + b)) == RawBytes(WrittenFrames(a)) + RawBytes(WrittenFrames(b))
  {
    hide RawBytes, SubRecordBytes;
    assert WrittenFrames(a + b) == WrittenFrames(a) + WrittenFrames(b);
    RawBytesConcat(WrittenFrames(a), WrittenFrames(b));
  }

  lemma MasterFramesStep(masters: seq<Bytes>)
    requires masters != []
    ensures RawBytes(WrittenFrames(MasterSubs(masters)))
         == RawBytes(WrittenFrames([StringSub(MAST, masters[0])])) + SubRecordBytes(SubRecord(DATA, Zeroes(8)))
            + RawBytes(WrittenFrames(MasterSubs(masters[1..])))
  {
    hide SubRecordBytes;
    var a, b, c := [StringSub(MAST, masters[0])], [SubRecord(DATA, Zeroes(8))], MasterSubs(masters[1..]);
    assert MasterSubs(masters) == a + b + c;
    WrittenConcat(a + b, c);
    WrittenConcat(a, b);
    RawBytesOne(WrittenFrames(b)[0]);
    assert WrittenFrames(b) == [WrittenFrames(b)[0]];
  }

  ghost function PrependFrames(done: seq<Frame>, rest: Result<seq<Frame>>): Result<seq<Frame>> {
    match rest
    case Ok(v) => Ok(done + v)
    case Err(e) => Err(e)
  }

  lemma PrependTwice(a: seq<Frame>, b: seq<Frame>, rest: Result<seq<Frame>>)
    ensures PrependFrames(a, PrependFrames(b, rest)) == PrependFrames(a + b, rest)
  {
    if rest.Ok? {
      assert a + (b + rest.value) == a + b + rest.value;
    }
  }

  lemma EditStep(frames: seq<Frame>, i: nat, e: FrameEdit, st: Progress)
    requires i < |frames|
    ensures EditFrames(frames[i..], e, st)
         == match EditFrame(frames[i], e, st)
            case Err(error) => Err(error)
            case Ok(first) => PrependFrames(first, EditFrames(frames[i + 1..], e, Advance(frames[i], e, st)))
  {
    hide EditFrame, Advance;
    assert frames[i..][1..] == frames[i + 1..];
  }

  /** The bytes of frame `i` within its block. */
  lemma FrameSlice(original: Bytes, fs: Frames, i: nat)
    requires original == RawBytes(fs.frames) + fs.tail && i < |fs.frames|
    ensures var start, end := |RawBytes(fs.frames[..i])|, |RawBytes(fs.frames[..i + 1])|;
            start <= end <= |original| && original[start..end] == fs.frames[i].raw
  {
    hide RawBytes;
    var a, f, b := fs.frames[..i], [fs.frames[i]], fs.frames[i + 1..];
    assert fs.frames == a + f + b && fs.frames[..i + 1] == a + f;
    RawBytesConcat(a + f, b);
    RawBytesConcat(a, f);
    RawBytesOne(fs.frames[i]);
    assert original == RawBytes(a) + fs.frames[i].raw + (RawBytes(b) + fs.tail);
  }

  /** Every frame the parser cuts ends with its payload, behind a header. */
  lemma {:induction false} FramesEndWithPayload(s: Bytes, lead: Bytes, pending: Option<U32>)
    requires FramesOf(s, lead, pending).Ok?
    ensures forall f :: f in FramesOf(s, lead, pending).value.frames ==> EndsWithPayload(f)
    decreases |s|
  {
    hide StepOf;
    match StepOf(s, pending) {
      case Done =>
      case Override(size) => FramesEndWithPayload(s[10..], lead + s[..10], Some(size));
      case Sub(end, sub) =>
        FramesEndWithPayload(s[end..], [], None);
        var f := Frame(lead + s[..end], sub);
        assert f.raw[|f.raw| - |sub.data|..] == s[6..end];
        assert EndsWithPayload(f);
    }
  }

  ghost predicate EndsWithPayload(f: Frame) {
    |f.raw| >= 6 + |f.sub.data| && f.raw[|f.raw| - |f.sub.data|..] == f.sub.data
  }

  lemma CountersInFrame(f: Frame, recordCount: U32, nextId: U32)
    requires EndsWithPayload(f) && |f.sub.data| >= 12
    ensures var p := |f.raw| - |f.sub.data|;
            f.raw[..p] + WithCounters(f.sub.data, recordCount, nextId)
            == f.raw[..p + 4] + (Le32(recordCount) + Le32(nextId)) + f.raw[p + 12..]
  {
    hide Le32;
    var p := |f.raw| - |f.sub.data|;
    assert f.sub.data[..4] == f.raw[p..p + 4] && f.sub.data[12..] == f.raw[p + 12..];
    assert f.raw[..p + 4] == f.raw[..p] + f.raw[p..p + 4];
  }

  /** Emits what replaces one subrecord frame and says how far the update has come. */
  method EmitFrame(output: ByteBuffer, frame: Bytes, payloadOffset: nat, signature: Signature,
                   e: FrameEdit, st: Progress, ghost f: Frame)
    returns (r: Result<Progress>)
    requires EndsWithPayload(f) && frame == f.raw && payloadOffset == |f.raw| - |f.sub.data|
    requires signature == f.sub.signature
    modifies output
    ensures match EditFrame(f, e, st)
            case Err(error) => r == Err(error)
            case Ok(emitted) => r == Ok(Advance(f, e, st)) && output.bytes == old(output.bytes) + RawBytes(emitted)
  {
    hide RawBytes, WrittenFrames, MasterSubs, WithCounters, Le32;
    NothingLocated();
    var masterData := st.followsMaster && signature == DATA;
    var follows := signature == MAST;
    if signature == HEDR && !st.hedr {
      if payloadOffset + 12 > |frame| {
        return Err(InvalidEncoding);
      }
      CountersInFrame(f, e.recordCount, e.nextId);
      output.Append(frame[..payloadOffset + 4] + (Le32(e.recordCount) + Le32(e.nextId)) + frame[payloadOffset + 12..]);
      RawBytesOne(EditFrame(f, e, st).value[0]);
      return Ok(st.(hedr := true, followsMaster := follows));
    }
    if follows && e.masters.Some? {
      if !st.masters {
        AppendMasters(output, e.masters.value);
      }
      return Ok(st.(masters := true, followsMaster := follows));
    }
    if masterData && e.masters.Some? {
      return Ok(st.(followsMaster := follows));
    }
    if signature == SNAM && e.description.Some? && !st.description {
      AppendString(output, SNAM, e.description.value);
      return Ok(st.(description := true, followsMaster := follows));
    }
    output.Append(frame);
    RawBytesOne(f);
    return Ok(st.(followsMaster := follows));
  }

  method EmitAppended(output: ByteBuffer, e: FrameEdit, st: Progress)
    modifies output
    ensures output.bytes == old(output.bytes) + RawBytes(Appended(e, st))
  {
    hide RawBytes, WrittenFrames, MasterSubs;
    ghost var a := if e.description.Some? && !st.description then WrittenFrames([StringSub(SNAM, e.description.value)]) else [];
    ghost var b := if e.masters.Some? && !st.masters then WrittenFrames(MasterSubs(e.masters.value)) else [];
    NothingLocated();
    RawBytesConcat(a, b);
    Assoc(output.bytes, RawBytes(a), RawBytes(b));
    if e.description.Some? && !st.description {
      AppendString(output, SNAM, e.description.value);
    }
    if e.masters.Some? && !st.masters {
      AppendMasters(output, e.masters.value);
    }
  }

  /** The header payload with its counters and the requested fields updated. */
  method UpdatedPayload(env: Env, plugin: Plugin, patch: HeaderPatch) returns (r: Result<Bytes>)
    ensures r == UpdatedPayloadOf(env, plugin, patch)
  {
    hide FramesOf, RawBytes, EditFrame, Advance, Appended, AllLocated;
    var own := |patch.masters.GetOr(plugin.header.masters)|;
    var counted :- CountTree(plugin.header.nextObjectId, plugin.groups, own);
    var original :- RawData(env, plugin.header.record);
    var subrecords :- ParseSubrecords(original);
    var e := FrameEdit(counted.0, counted.1, patch.masters, patch.description);
    ghost var fs := FramesOf(original, [], None).value;
    ghost var whole := EditFrames(fs.frames, e, START);
    ghost var done: seq<Frame> := [];
    FramesCover(original, [], None);
    FramesEndWithPayload(original, [], None);
    assert [] + original == original;
    var output := new ByteBuffer();
    var offset: nat := 0;
    var st := START;
    assert fs.frames[0..] == fs.frames && fs.frames[..0] == [];
    NoFrames(whole);
    LocatedLength(subrecords, fs.frames);
    for i := 0 to |subrecords|
      invariant fresh(output)
      invariant offset == |RawBytes(fs.frames[..i])| <= |original|
      invariant output.bytes == RawBytes(done)
      invariant whole == PrependFrames(done, EditFrames(fs.frames[i..], e, st))
    {
      ghost var f := fs.frames[i];
      FrameSlice(original, fs, i);
      LocatedOne(subrecords, fs.frames, i);
      assert EndsWithPayload(f);
      EditStep(fs.frames, i, e, st);
      var sub := subrecords[i];
      ghost var emitted := EditFrame(f, e, st);
      var next :- EmitFrame(output, original[offset..sub.end], sub.start - offset, sub.signature, e, st, f);
      offset, st := sub.end, next;
      RawBytesConcat(done, emitted.value);
      PrependTwice(done, emitted.value, EditFrames(fs.frames[i + 1..], e, st));
      done := done + emitted.value;
    }
    assert fs.frames[|fs.frames|..] == [] && fs.frames[..|fs.frames|] == fs.frames;
    if !st.hedr {
      return Err(InvalidEncoding);
    }
    EmitAppended(output, e, st);
    RawBytesConcat(done, Appended(e, st));
    assert original[offset..] == fs.tail;
    output.Append(original[offset..]);
    return Ok(output.bytes);
  }

  lemma LocatedLength(subs: seq<BorrowedSubRecord>, frames: seq<Frame>)
    requires AllLocated(subs, frames)
    ensures |subs| == |frames|
  {
  }

  lemma LocatedOne(subs: seq<BorrowedSubRecord>, frames: seq<Frame>, i: nat)
    requires AllLocated(subs, frames) && i < |frames|
    ensures LocatedAt(subs[i], frames, i)
  {
  }

  lemma NoFrames(rest: Result<seq<Frame>>)
    ensures PrependFrames([], rest) == rest && RawBytes([]) == []
  {
    if rest.Ok? {
      assert [] + rest.value == rest.value;
    }
  }
}
