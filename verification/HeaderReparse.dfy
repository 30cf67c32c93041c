/** The updated header record and what a reader finds in it. */
module HeaderReparse {
  import opened Wire
  import opened Buffer
  import opened Records
  import opened Subrecords
  import opened Groups
  import opened Games
  import opened Plugins
  import opened Flags
  import opened HeaderRewrite

  // --------------------------------------------------------------------------
  // The record around the updated payload
  // --------------------------------------------------------------------------

  /** The 24 header bytes with size and flags overwritten. */
  function PatchedHead(head: Bytes, size: U32, flags: U32): (b: Bytes)
    requires |head| == 24
    ensures |b| == 24
  {
    head[..4] + (Le32(size) + Le32(flags)) + head[12..]
  }

  function PatchedFlags(flags: U32, patch: HeaderPatch): U32 {
    ClearFlags(OrFlags(flags, patch.flagsSet), patch.flagsClear)
  }

  /** An unchanged compressed payload is kept as it was stored. */
  predicate KeepsCompressed(env: Env, plugin: Plugin, flags: U32, payload: Bytes) {
    && HasBit(flags, COMPRESSED)
    && HasBit(plugin.header.record.header.flags, COMPRESSED)
    && RawData(env, plugin.header.record) == Ok(payload)
  }

  function UpdatedHeaderOf(env: Env, plugin: Plugin, patch: HeaderPatch): Result<Bytes> {
    var source :- SourceSlice(plugin.source, Some(plugin.headerRange));
    if |source| < 24 then Err(UnexpectedEof)
    else
      var payload :- UpdatedPayloadOf(env, plugin, patch);
      var flags := PatchedFlags(U32At(source, 8), patch);
      var keep := KeepsCompressed(env, plugin, flags, payload);
      var stored := if keep then source[24..] else payload;
      if |stored| > MAX_COUNT then Err(InvalidEncoding)
      else Ok(PatchedHead(source[..24], |stored|, if keep then flags else ClearCompressed(flags)) + stored)
  }

  method WriteUpdated(env: Env, plugin: Plugin, patch: HeaderPatch, writer: ByteBuffer) returns (r: Result<()>)
    modifies writer
    ensures r.Ok? <==> UpdatedHeaderOf(env, plugin, patch).Ok?
    ensures r.Ok? ==> writer.bytes == old(writer.bytes) + UpdatedHeaderOf(env, plugin, patch).value
    ensures r.Err? ==> UpdatedHeaderOf(env, plugin, patch) == Err(r.error) && writer.bytes == old(writer.bytes)
  {
    hide UpdatedPayloadOf, PatchedFlags, HasBit, ClearCompressed, U32At, Le32;
    ghost var before := writer.bytes;
    var source :- SourceSlice(plugin.source, Some(plugin.headerRange));
    if |source| < 24 {
      return Err(UnexpectedEof);
    }
    var payload :- UpdatedPayload(env, plugin, patch);
    var header := source[..24];
    var flags := PatchedFlags(U32At(source, 8), patch);
    if KeepsCompressed(env, plugin, flags, payload) {
      payload := source[24..];
    } else {
      flags := ClearCompressed(flags);
    }
    if |payload| > MAX_COUNT {
      return Err(InvalidEncoding);
    }
    header := header[..4] + Le32(|payload|) + header[8..];
    header := header[..8] + Le32(flags) + header[12..];
    assert header == PatchedHead(source[..24], |payload|, flags);
    writer.Append(header);
    writer.Append(payload);
    Assoc(before, header, payload);
    return Ok(());
  }

  // --------------------------------------------------------------------------
  // The edited frames
  // --------------------------------------------------------------------------

  /** Swapping a payload for one of the same length keeps a frame well-formed. */
  lemma {:induction false} ReplacePayload(s: Bytes, lead: Bytes, pending: Option<U32>, f: Frame, d: Bytes)
    requires FramesOf(s, lead, pending) == Ok(Frames([f], [])) && |d| == |f.sub.data| && |d| <= |s|
    ensures var t := s[..|s| - |d|] + d;
            FramesOf(t, lead, pending) == Ok(Frames([Frame(lead + t, f.sub.(data := d))], []))
    decreases |s|
  {
    hide StepOf;
    var t := s[..|s| - |d|] + d;
    match StepOf(s, pending) {
      case Done =>
      case Override(size) =>
        var rest := s[10..];
        OneFrameLength(rest, lead + s[..10], Some(size), f);
        assert t == s[..10] + (rest[..|rest| - |d|] + d);
        StepPrefix(s, pending, rest[..|rest| - |d|] + d);
        assert t[..10] == s[..10] && t[10..] == rest[..|rest| - |d|] + d;
        ReplacePayload(rest, lead + s[..10], Some(size), f, d);
        assert lead + s[..10] + (rest[..|rest| - |d|] + d) == lead + t;
      case Sub(end, sub) =>
        var after := FramesOf(s[end..], [], None).value;
        assert [Frame(lead + s[..end], sub)] + after.frames == [f];
        assert ([Frame(lead + s[..end], sub)] + after.frames)[0] == [f][0];
        assert |[Frame(lead + s[..end], sub)] + after.frames| == 1 + |after.frames|;
        assert after.frames == [] && f.sub == sub;
        FramesCover(s[end..], [], None);
        assert [] + s[end..] == s[end..] && RawBytes(after.frames) == [];
        assert s[end..] == [];
        assert end == |s|;
        SwappedStep(s, pending, d);
        assert t[..end] == t && t[end..] == [];
        assert FramesOf([], [], None) == Ok(Frames([], []));
        assert [Frame(lead + t, sub.(data := d))] + [] == [Frame(lead + t, sub.(data := d))];
    }
  }

  lemma SwappedStep(s: Bytes, pending: Option<U32>, d: Bytes)
    requires StepOf(s, pending).Sub? && StepOf(s, pending).length == |s| && |d| + 6 == |s|
    ensures StepOf(s[..|s| - |d|] + d, pending) == Sub(|s|, SubRecord(StepOf(s, pending).sub.signature, d))
  {
    var t := s[..6] + d;
    assert t[..4] == s[..4] && U16At(t, 4) == U16At(s, 4) && t[6..] == d;
  }

  lemma {:induction false} OneFrameLength(s: Bytes, lead: Bytes, pending: Option<U32>, f: Frame)
    requires FramesOf(s, lead, pending) == Ok(Frames([f], []))
    ensures |s| >= 6 + |f.sub.data|
    decreases |s|
  {
    hide StepOf;
    match StepOf(s, pending) {
      case Done =>
      case Override(size) => OneFrameLength(s[10..], lead + s[..10], Some(size), f);
      case Sub(end, sub) =>
        var after := FramesOf(s[end..], [], None).value;
        assert ([Frame(lead + s[..end], sub)] + after.frames)[0] == [f][0];
    }
  }

  ghost predicate AllFramesOk(frames: seq<Frame>) {
    forall i :: 0 <= i < |frames| ==> FrameOk(frames[i])
  }

  /** Texts short enough for the 32-bit size fields. */
  ghost predicate TextsFit(masters: Option<seq<Bytes>>, description: Option<Bytes>) {
    && (masters.Some? ==> forall i :: 0 <= i < |masters.value| ==> |masters.value[i]| < MAX_COUNT)
    && (description.Some? ==> |description.value| < MAX_COUNT)
  }

  lemma {:induction false} MasterFramesOk(masters: seq<Bytes>)
    requires forall i :: 0 <= i < |masters| ==> |masters[i]| < MAX_COUNT
    ensures AllFramesOk(WrittenFrames(MasterSubs(masters)))
    decreases |masters|
  {
    hide FrameOk, SubRecordBytes;
    if masters != [] {
      MasterFramesOk(masters[1..]);
      var pair := [StringSub(MAST, masters[0]), SubRecord(DATA, Zeroes(8))];
      WrittenFrame(pair[0]);
      WrittenFrame(pair[1]);
      WrittenConcat(pair, MasterSubs(masters[1..]));
    }
  }

  lemma EditFrameOk(f: Frame, e: FrameEdit, st: Progress)
    requires FrameOk(f) && TextsFit(e.masters, e.description) && EditFrame(f, e, st).Ok?
    ensures AllFramesOk(EditFrame(f, e, st).value)
  {
    hide FramesOf, SubRecordBytes, MasterSubs, WithCounters;
    if f.sub.signature == HEDR && !st.hedr {
      var d := WithCounters(f.sub.data, e.recordCount, e.nextId);
      ReplacePayload(f.raw, [], None, f, d);
      assert [] + (f.raw[..|f.raw| - |d|] + d) == f.raw[..|f.raw| - |d|] + d;
    } else {
      if e.masters.Some? {
        MasterFramesOk(e.masters.value);
      }
      if e.description.Some? {
        WrittenFrame(StringSub(SNAM, e.description.value));
      }
    }
  }

  lemma {:induction false} EditedFramesOk(frames: seq<Frame>, e: FrameEdit, st: Progress)
    requires AllFramesOk(frames) && TextsFit(e.masters, e.description) && EditFrames(frames, e, st).Ok?
    ensures AllFramesOk(EditFrames(frames, e, st).value)
    decreases |frames|
  {
    hide FrameOk, EditFrame, Advance, SubRecordBytes, MasterSubs;
    if frames == [] {
      if e.masters.Some? {
        MasterFramesOk(e.masters.value);
      }
      if e.description.Some? {
        WrittenFrame(StringSub(SNAM, e.description.value));
      }
    } else {
      EditFrameOk(frames[0], e, st);
      EditedFramesOk(frames[1..], e, Advance(frames[0], e, st));
    }
  }

  /** The updated payload reads back as exactly the edited frames. */
  lemma PayloadReparse(original: Bytes, e: FrameEdit)
    requires FramesOf(original, [], None).Ok? && TextsFit(e.masters, e.description)
    requires EditFrames(FramesOf(original, [], None).value.frames, e, START).Ok?
    ensures var fs := FramesOf(original, [], None).value;
            var edited := EditFrames(fs.frames, e, START).value;
            FramesOf(RawBytes(edited) + fs.tail, [], None) == Ok(Frames(edited, fs.tail))
  {
    hide FramesOf, RawBytes, FrameOk;
    var fs := FramesOf(original, [], None).value;
    NoLead();
    FramesAreOk(original, [], None);
    EditedFramesOk(fs.frames, e, START);
    FramesReparse(EditFrames(fs.frames, e, START).value, fs.tail);
    ContinueToEnd(EditFrames(fs.frames, e, START).value, Ok(Frames([], fs.tail)));
  }

  // --------------------------------------------------------------------------
  // What a reader finds
  // --------------------------------------------------------------------------

  lemma SubsConcat(a: seq<Frame>, b: seq<Frame>)
    ensures SubrecordsOf(a + b) == SubrecordsOf(a) + SubrecordsOf(b)
  {
  }

  lemma {:induction false} FirstConcat(a: seq<SubRecord>, b: seq<SubRecord>, signature: Signature)
    ensures First(a + b, signature) == if First(a, signature).Some? then First(a, signature) else First(b, signature)
    decreases |a|
  {
    if a == [] {
      assert a + b == b;
    } else {
      assert (a + b)[1..] == a[1..] + b;
      FirstConcat(a[1..], b, signature);
    }
  }

  lemma {:induction false} TextsConcat(env: Env, a: seq<SubRecord>, b: seq<SubRecord>, signature: Signature)
    ensures Texts(env, a + b, signature) == Texts(env, a, signature) + Texts(env, b, signature)
    decreases |a|
  {
    if a == [] {
      assert a + b == b;
    } else {
      assert (a + b)[0] == a[0] && (a + b)[1..] == a[1..] + b;
      TextsConcat(env, a[1..], b, signature);
    }
  }

  /** A master list holds no other kind of subrecord. */
  lemma {:induction false} MasterSubsFind(masters: seq<Bytes>, signature: Signature)
    requires signature != MAST && signature != DATA
    ensures First(MasterSubs(masters), signature) == None
    decreases |masters|
  {
    if masters != [] {
      var pair := [StringSub(MAST, masters[0]), SubRecord(DATA, Zeroes(8))];
      MasterSubsFind(masters[1..], signature);
      FirstConcat(pair, MasterSubs(masters[1..]), signature);
      assert First(pair[1..], signature) == First([SubRecord(DATA, Zeroes(8))], signature) == None;
    }
  }

  lemma WrittenSubs(subs: seq<SubRecord>)
    ensures SubrecordsOf(WrittenFrames(subs)) == subs
  {
  }

  /** What one frame becomes, as subrecords. */
  function EditedSubs(sub: SubRecord, e: FrameEdit, st: Progress): seq<SubRecord> {
    if sub.signature == HEDR && !st.hedr then
      [if |sub.data| < 12 then sub else sub.(data := WithCounters(sub.data, e.recordCount, e.nextId))]
    else if sub.signature == MAST && e.masters.Some? then
      if st.masters then [] else MasterSubs(e.masters.value)
    else if st.followsMaster && sub.signature == DATA && e.masters.Some? then []
    else if sub.signature == SNAM && e.description.Some? && !st.description then [StringSub(SNAM, e.description.value)]
    else [sub]
  }

  function AppendedSubs(e: FrameEdit, st: Progress): seq<SubRecord> {
    (if e.description.Some? && !st.description then [StringSub(SNAM, e.description.value)] else [])
    + (if e.masters.Some? && !st.masters then MasterSubs(e.masters.value) else [])
  }

  function AdvanceSub(sub: SubRecord, e: FrameEdit, st: Progress): Progress {
    Advance(Frame([], sub), e, st)
  }

  function EditSubs(subs: seq<SubRecord>, e: FrameEdit, st: Progress): seq<SubRecord>
    decreases |subs|
  {
    if subs == [] then AppendedSubs(e, st)
    else EditedSubs(subs[0], e, st) + EditSubs(subs[1..], e, AdvanceSub(subs[0], e, st))
  }

  lemma {:induction false} EditedFramesSubs(frames: seq<Frame>, e: FrameEdit, st: Progress)
    requires EditFrames(frames, e, st).Ok?
    ensures SubrecordsOf(EditFrames(frames, e, st).value) == EditSubs(SubrecordsOf(frames), e, st)
    decreases |frames|
  {
    hide MasterSubs, SubRecordBytes, WithCounters;
    if frames == [] {
      if e.description.Some? {
        WrittenSubs([StringSub(SNAM, e.description.value)]);
      }
      if e.masters.Some? {
        WrittenSubs(MasterSubs(e.masters.value));
      }
      SubsConcat(if e.description.Some? && !st.description then WrittenFrames([StringSub(SNAM, e.description.value)]) else [],
                 if e.masters.Some? && !st.masters then WrittenFrames(MasterSubs(e.masters.value)) else []);
    } else {
      assert SubrecordsOf(frames)[1..] == SubrecordsOf(frames[1..]);
      EditedFrameSubs(frames[0], e, st);
      EditedFramesSubs(frames[1..], e, Advance(frames[0], e, st));
      SubsConcat(EditFrame(frames[0], e, st).value, EditFrames(frames[1..], e, Advance(frames[0], e, st)).value);
    }
  }

  lemma EditedFrameSubs(f: Frame, e: FrameEdit, st: Progress)
    requires EditFrame(f, e, st).Ok?
    ensures SubrecordsOf(EditFrame(f, e, st).value) == EditedSubs(f.sub, e, st)
  {
    hide MasterSubs, SubRecordBytes, WithCounters;
    if e.description.Some? {
      WrittenSubs([StringSub(SNAM, e.description.value)]);
    }
    if e.masters.Some? {
      WrittenSubs(MasterSubs(e.masters.value));
    }
  }

  /** The first HEDR keeps everything but its counters. */
  lemma {:induction false} EditedHedr(subs: seq<SubRecord>, e: FrameEdit, st: Progress)
    requires !st.hedr
    ensures First(EditSubs(subs, e, st), HEDR)
         == match First(subs, HEDR)
            case None => None
            case Some(hedr) =>
              Some(if |hedr.data| < 12 then hedr else hedr.(data := WithCounters(hedr.data, e.recordCount, e.nextId)))
    decreases |subs|
  {
    hide MasterSubs, WithCounters;
    if e.masters.Some? {
      MasterSubsFind(e.masters.value, HEDR);
    }
    if subs == [] {
      FirstConcat(if e.description.Some? && !st.description then [StringSub(SNAM, e.description.value)] else [],
                  if e.masters.Some? && !st.masters then MasterSubs(e.masters.value) else [], HEDR);
    } else {
      FirstConcat(EditedSubs(subs[0], e, st), EditSubs(subs[1..], e, AdvanceSub(subs[0], e, st)), HEDR);
      if subs[0].signature != HEDR {
        EditedHedr(subs[1..], e, AdvanceSub(subs[0], e, st));
      }
    }
  }

  /** The first SNAM is the replacement description, or the one that was there. */
  lemma {:induction false} EditedDescription(subs: seq<SubRecord>, e: FrameEdit, st: Progress)
    requires !st.description
    ensures First(EditSubs(subs, e, st), SNAM)
         == if e.description.Some? then Some(StringSub(SNAM, e.description.value)) else First(subs, SNAM)
    decreases |subs|
  {
    hide MasterSubs, WithCounters;
    if e.masters.Some? {
      MasterSubsFind(e.masters.value, SNAM);
    }
    if subs == [] {
      FirstConcat(if e.description.Some? && !st.description then [StringSub(SNAM, e.description.value)] else [],
                  if e.masters.Some? && !st.masters then MasterSubs(e.masters.value) else [], SNAM);
    } else {
      FirstConcat(EditedSubs(subs[0], e, st), EditSubs(subs[1..], e, AdvanceSub(subs[0], e, st)), SNAM);
      if !(subs[0].signature == SNAM) {
        EditedDescription(subs[1..], e, AdvanceSub(subs[0], e, st));
      }
    }
  }

  lemma TextsOfOne(env: Env, sub: SubRecord)
    ensures sub.signature != MAST ==> Texts(env, [sub], MAST) == []
  {
    assert [sub][1..] == [];
  }

  lemma EditedSubsMasters(env: Env, sub: SubRecord, e: FrameEdit, st: Progress)
    ensures Texts(env, EditedSubs(sub, e, st), MAST)
         == if e.masters.None? then Texts(env, [sub], MAST)
            else if sub.signature == MAST && !st.masters then Texts(env, MasterSubs(e.masters.value), MAST)
            else []
  {
    hide MasterSubs, WithCounters, Texts;
    TextsOfOne(env, sub);
    TextsOfOne(env, sub.(data := if |sub.data| < 12 then sub.data else WithCounters(sub.data, e.recordCount, e.nextId)));
    if e.description.Some? {
      TextsOfOne(env, StringSub(SNAM, e.description.value));
    }
    NoTexts(env);
  }

  lemma NoTexts(env: Env)
    ensures Texts(env, [], MAST) == []
  {
  }

  /** The master list is the replacement, or the one that was there. */
  lemma {:induction false} EditedMasters(env: Env, subs: seq<SubRecord>, e: FrameEdit, st: Progress)
    ensures Texts(env, EditSubs(subs, e, st), MAST)
         == if e.masters.None? then Texts(env, subs, MAST)
            else if st.masters then []
            else Texts(env, MasterSubs(e.masters.value), MAST)
    decreases |subs|
  {
    hide MasterSubs, EditedSubs, Texts;
    NoTexts(env);
    if subs == [] {
      TextsConcat(env, if e.description.Some? && !st.description then [StringSub(SNAM, e.description.value)] else [],
                  if e.masters.Some? && !st.masters then MasterSubs(e.masters.value) else [], MAST);
      if e.description.Some? {
        TextsOfOne(env, StringSub(SNAM, e.description.value));
      }
    } else {
      var next := AdvanceSub(subs[0], e, st);
      EditedSubsMasters(env, subs[0], e, st);
      TextsConcat(env, EditedSubs(subs[0], e, st), EditSubs(subs[1..], e, next), MAST);
      EditedMasters(env, subs[1..], e, next);
      assert subs == [subs[0]] + subs[1..];
      TextsConcat(env, [subs[0]], subs[1..], MAST);
    }
  }

  /** Text that reading back a NUL-terminated string returns unchanged. */
  predicate CleanText(env: Env, t: Bytes) {
    env.validUtf8(t) && (t == [] || t[|t| - 1] != 0)
  }

  lemma {:induction false} TrimmedText(t: Bytes)
    ensures |TrimNuls(t)| <= |t|
    ensures TrimNuls(t) == t <==> t == [] || t[|t| - 1] != 0
  {
    if t != [] && t[|t| - 1] == 0 {
      TrimmedText(t[..|t| - 1]);
    }
  }

  /**
   A replacement master list reads back as itself exactly when every name is
   valid text that does not end in NUL.
   */
  lemma {:induction false} MastersReadBack(env: Env, masters: seq<Bytes>)
    ensures |Texts(env, MasterSubs(masters), MAST)| <= |masters|
    ensures Texts(env, MasterSubs(masters), MAST) == masters
            <==> forall i :: 0 <= i < |masters| ==> CleanText(env, masters[i])
    decreases |masters|
  {
    hide TrimNuls;
    if masters != [] {
      var m, rest := masters[0], MasterSubs(masters[1..]);
      var pair := [StringSub(MAST, m), SubRecord(DATA, Zeroes(8))];
      MastersReadBack(env, masters[1..]);
      TextsConcat(env, pair, rest, MAST);
      OneMaster(env, m);
      var text := ZString(env, m + [0]);
      var head := if text.Some? then [text.value] else [];
      assert Texts(env, MasterSubs(masters), MAST) == head + Texts(env, rest, MAST);
      assert masters == [m] + masters[1..];
      if text.Some? {
        ConcatInjective(head, Texts(env, rest, MAST), [m], masters[1..]);
      }
      assert (forall i :: 0 <= i < |masters| ==> CleanText(env, masters[i]))
             <==> CleanText(env, m) && forall i :: 0 <= i < |masters[1..]| ==> CleanText(env, masters[1..][i]);
    }
  }

  lemma OneMaster(env: Env, m: Bytes)
    ensures Texts(env, [StringSub(MAST, m), SubRecord(DATA, Zeroes(8))], MAST)
         == if ZString(env, m + [0]).Some? then [ZString(env, m + [0]).value] else []
    ensures ZString(env, m + [0]) == Some(m) <==> CleanText(env, m)
  {
    hide TrimNuls;
    var data := [SubRecord(DATA, Zeroes(8))];
    assert [StringSub(MAST, m), SubRecord(DATA, Zeroes(8))][1..] == data;
    assert Texts(env, data, MAST) == Texts(env, data[1..], MAST) == [];
    TrimOne(m);
    TrimmedText(m);
  }

  lemma TrimOne(m: Bytes)
    ensures TrimNuls(m + [0]) == TrimNuls(m)
  {
    assert (m + [0])[..|m + [0]| - 1] == m;
  }

  // --------------------------------------------------------------------------
  // Unrelated frames
  // --------------------------------------------------------------------------

  /** Frames other than the first HEDR, replaced MAST/DATA pairs and a replaced first SNAM. */
  ghost function Unrelated(frames: seq<Frame>, masters: bool, description: bool, st: Progress): seq<Frame>
    decreases |frames|
  {
    if frames == [] then []
    else
      var f := frames[0];
      var signature := f.sub.signature;
      var next := st.(followsMaster := signature == MAST);
      if signature == HEDR && !st.hedr then
        Unrelated(frames[1..], masters, description, next.(hedr := true))
      else if masters && (signature == MAST || (st.followsMaster && signature == DATA)) then
        Unrelated(frames[1..], masters, description, next)
      else if description && signature == SNAM && !st.description then
        Unrelated(frames[1..], masters, description, next.(description := true))
      else [f] + Unrelated(frames[1..], masters, description, next)
  }

  /** Apart from the flags that decide about later frames, progress does not matter. */
  ghost function Plain(st: Progress): Progress {
    Progress(st.hedr, false, st.description, false)
  }

  lemma {:induction false} UnrelatedIgnores(frames: seq<Frame>, masters: bool, description: bool, a: Progress, b: Progress)
    requires a.hedr == b.hedr && a.description == b.description && (masters ==> a.followsMaster == b.followsMaster)
    ensures Unrelated(frames, masters, description, a) == Unrelated(frames, masters, description, b)
    decreases |frames|
  {
    if frames != [] {
      var f := frames[0].sub.signature == MAST;
      UnrelatedIgnores(frames[1..], masters, description, a.(followsMaster := f), b.(followsMaster := f));
      UnrelatedIgnores(frames[1..], masters, description, a.(followsMaster := f, hedr := true), b.(followsMaster := f, hedr := true));
      UnrelatedIgnores(frames[1..], masters, description, a.(followsMaster := f, description := true), b.(followsMaster := f, description := true));
    }
  }

  lemma {:induction false} UnrelatedMasters(ms: seq<Bytes>, rest: seq<Frame>, description: bool, st: Progress)
    requires !st.followsMaster
    ensures Unrelated(WrittenFrames(MasterSubs(ms)) + rest, true, description, st) == Unrelated(rest, true, description, st)
    decreases |ms|
  {
    hide SubRecordBytes;
    if ms == [] {
      assert WrittenFrames(MasterSubs(ms)) + rest == rest;
    } else {
      var tail := WrittenFrames(MasterSubs(ms[1..])) + rest;
      var pair := [StringSub(MAST, ms[0]), SubRecord(DATA, Zeroes(8))];
      WrittenConcat(pair, MasterSubs(ms[1..]));
      var frames := WrittenFrames(MasterSubs(ms)) + rest;
      assert frames == WrittenFrames(pair) + tail;
      assert frames[1..] == [WrittenFrames(pair)[1]] + tail;
      assert frames[1..][1..] == tail;
      UnrelatedMasters(ms[1..], rest, description, st);
      assert Unrelated(frames, true, description, st) == Unrelated(frames[1..], true, description, st.(followsMaster := true));
      assert Unrelated(frames[1..], true, description, st.(followsMaster := true))
          == Unrelated(tail, true, description, st.(followsMaster := false));
      assert st.(followsMaster := false) == st;
    }
  }

  /** The update keeps the bytes and the order of every frame it does not replace. */
  lemma {:induction false} UnrelatedKept(frames: seq<Frame>, e: FrameEdit, st: Progress)
    requires EditFrames(frames, e, st).Ok?
    ensures Unrelated(EditFrames(frames, e, st).value, e.masters.Some?, e.description.Some?, Plain(st))
         == Unrelated(frames, e.masters.Some?, e.description.Some?, st)
    decreases |frames|
  {
    hide MasterSubs, SubRecordBytes, WithCounters;
    var m, d := e.masters.Some?, e.description.Some?;
    if frames == [] {
      UnrelatedAppended(e, st);
    } else {
      var next := Advance(frames[0], e, st);
      UnrelatedKept(frames[1..], e, next);
      UnrelatedStep(frames[0], e, st, EditFrames(frames[1..], e, next).value);
      UnrelatedFirst(frames, e, st);
    }
  }

  lemma UnrelatedAppended(e: FrameEdit, st: Progress)
    ensures Unrelated(Appended(e, st), e.masters.Some?, e.description.Some?, Plain(st)) == []
  {
    hide MasterSubs, SubRecordBytes;
    var b := if e.masters.Some? && !st.masters then WrittenFrames(MasterSubs(e.masters.value)) else [];
    if e.masters.Some? {
      UnrelatedMasters(e.masters.value, [], e.description.Some?, Plain(st));
      UnrelatedMasters(e.masters.value, [], e.description.Some?, Plain(st).(description := true));
      assert b + [] == b;
    }
    if e.description.Some? && !st.description {
      assert Appended(e, st)[1..] == b;
    } else {
      assert Appended(e, st) == b;
    }
  }

  /** Whether the update keeps frame `f` as it is. */
  ghost predicate IsKept(f: Frame, e: FrameEdit, st: Progress) {
    && !(f.sub.signature == HEDR && !st.hedr)
    && !(e.masters.Some? && (f.sub.signature == MAST || (st.followsMaster && f.sub.signature == DATA)))
    && !(e.description.Some? && f.sub.signature == SNAM && !st.description)
  }

  lemma UnrelatedFirst(frames: seq<Frame>, e: FrameEdit, st: Progress)
    requires frames != []
    ensures Unrelated(frames, e.masters.Some?, e.description.Some?, st)
         == (if IsKept(frames[0], e, st) then [frames[0]] else [])
            + Unrelated(frames[1..], e.masters.Some?, e.description.Some?, Advance(frames[0], e, st))
  {
    var f := frames[0].sub.signature == MAST;
    var next := Advance(frames[0], e, st);
    UnrelatedIgnores(frames[1..], e.masters.Some?, e.description.Some?, next, next.(masters := st.masters));
  }

  lemma UnrelatedCons(f: Frame, rest: seq<Frame>, masters: bool, description: bool, st: Progress)
    ensures var next := st.(followsMaster := f.sub.signature == MAST);
            Unrelated([f] + rest, masters, description, st)
            == if f.sub.signature == HEDR && !st.hedr then
                 Unrelated(rest, masters, description, next.(hedr := true))
               else if masters && (f.sub.signature == MAST || (st.followsMaster && f.sub.signature == DATA)) then
                 Unrelated(rest, masters, description, next)
               else if description && f.sub.signature == SNAM && !st.description then
                 Unrelated(rest, masters, description, next.(description := true))
               else [f] + Unrelated(rest, masters, description, next)
  {
    assert ([f] + rest)[1..] == rest;
  }

  lemma UnrelatedStep(f: Frame, e: FrameEdit, st: Progress, rest: seq<Frame>)
    requires EditFrame(f, e, st).Ok?
    ensures Unrelated(EditFrame(f, e, st).value + rest, e.masters.Some?, e.description.Some?, Plain(st))
         == (if IsKept(f, e, st) then [f] else [])
            + Unrelated(rest, e.masters.Some?, e.description.Some?, Plain(Advance(f, e, st)))
  {
    hide MasterSubs, SubRecordBytes, WithCounters;
    var m, d := e.masters.Some?, e.description.Some?;
    var emitted, next := EditFrame(f, e, st).value, Advance(f, e, st);
    hide Unrelated;
    if |emitted| == 1 && !(f.sub.signature == MAST && m) {
      UnrelatedCons(emitted[0], rest, m, d, Plain(st));
      var all := emitted + rest;
      assert all[1..] == rest;
      var after := Plain(next).(followsMaster := emitted[0].sub.signature == MAST);
      UnrelatedIgnores(rest, m, d, Plain(next), after);
    } else {
      if f.sub.signature == MAST && m && !st.masters {
        UnrelatedMasters(e.masters.value, rest, d, Plain(st));
      } else {
        assert emitted + rest == rest;
      }
    }
  }

  /** `after` is `before` with the bytes at `at` replaced by `c`. */
  ghost predicate Overwrites(after: Bytes, before: Bytes, at: nat, c: Bytes) {
    && |after| == |before| && at + |c| <= |before|
    && after[..at] == before[..at] && after[at..at + |c|] == c && after[at + |c|..] == before[at + |c|..]
  }

  lemma OverwritesBehind(x: Bytes, after: Bytes, before: Bytes, at: nat, c: Bytes)
    requires Overwrites(after, before, at, c)
    ensures Overwrites(x + after, x + before, |x| + at, c)
  {
    var n, o := x + after, x + before;
    assert n[..|x| + at] == x + after[..at] && o[..|x| + at] == x + before[..at];
    assert n[|x| + at..|x| + at + |c|] == after[at..at + |c|];
    assert n[|x| + at + |c|..] == after[at + |c|..] && o[|x| + at + |c|..] == before[at + |c|..];
  }

  lemma OverwritesBefore(after: Bytes, before: Bytes, at: nat, c: Bytes, rest: Bytes)
    requires Overwrites(after, before, at, c)
    ensures Overwrites(after + rest, before + rest, at, c)
  {
    var n, o := after + rest, before + rest;
    assert n[..at] == after[..at] && o[..at] == before[..at];
    assert n[at..at + |c|] == after[at..at + |c|];
    assert n[at + |c|..] == after[at + |c|..] + rest && o[at + |c|..] == before[at + |c|..] + rest;
  }

  lemma CountersOverwrite(f: Frame, recordCount: U32, nextId: U32)
    requires EndsWithPayload(f) && |f.sub.data| >= 12
    ensures var p := |f.raw| - |f.sub.data|;
            Overwrites(f.raw[..p] + WithCounters(f.sub.data, recordCount, nextId), f.raw, p + 4,
                       Le32(recordCount) + Le32(nextId))
  {
    hide Le32, WithCounters;
    var p := |f.raw| - |f.sub.data|;
    CountersInFrame(f, recordCount, nextId);
    var a, c, b := f.raw[..p + 4], Le32(recordCount) + Le32(nextId), f.raw[p + 12..];
    var n := a + c + b;
    assert n[..p + 4] == a && n[p + 4..p + 12] == c && n[p + 12..] == b;
  }

  /** Without field patches only the eight counter bytes of the first HEDR can change. */
  lemma {:induction false} CountersOnly(frames: seq<Frame>, tail: Bytes, e: FrameEdit, st: Progress) returns (at: nat)
    requires EditFrames(frames, e, st).Ok? && e.masters.None? && e.description.None?
    requires forall f :: f in frames ==> EndsWithPayload(f)
    ensures var original, out := RawBytes(frames) + tail, RawBytes(EditFrames(frames, e, st).value) + tail;
            if st.hedr then out == original
            else Overwrites(out, original, at, Le32(e.recordCount) + Le32(e.nextId))
    decreases |frames|
  {
    hide Le32, WithCounters, Overwrites;
    at := 0;
    if frames == [] {
      assert st.hedr && EditFrames(frames, e, st).value == [];
    } else {
      var f, next := frames[0], Advance(frames[0], e, st);
      var rest := EditFrames(frames[1..], e, next).value;
      var emitted := EditFrame(f, e, st).value[0];
      var all := EditFrames(frames, e, st).value;
      assert all == [emitted] + rest;
      assert all[1..] == rest;
      var below := CountersOnly(frames[1..], tail, e, next);
      var o, u := RawBytes(frames[1..]) + tail, RawBytes(rest) + tail;
      Assoc(f.raw, RawBytes(frames[1..]), tail);
      Assoc(emitted.raw, RawBytes(rest), tail);
      assert EndsWithPayload(f);
      if f.sub.signature == HEDR && !st.hedr {
        at := |f.raw| - |f.sub.data| + 4;
        CountersOverwrite(f, e.recordCount, e.nextId);
        OverwritesBefore(emitted.raw, f.raw, at, Le32(e.recordCount) + Le32(e.nextId), o);
      } else if !st.hedr {
        at := |f.raw| + below;
        OverwritesBehind(f.raw, u, o, below, Le32(e.recordCount) + Le32(e.nextId));
      }
    }
  }

  // --------------------------------------------------------------------------
  // When the update succeeds, and what it is
  // --------------------------------------------------------------------------

  /** The update needs a first HEDR of at least twelve bytes, and nothing else. */
  lemma {:induction false} EditFramesSucceed(frames: seq<Frame>, e: FrameEdit, st: Progress)
    requires forall f :: f in frames ==> EndsWithPayload(f)
    ensures EditFrames(frames, e, st).Ok? <==>
              st.hedr || (First(SubrecordsOf(frames), HEDR).Some? && |First(SubrecordsOf(frames), HEDR).value.data| >= 12)
    ensures EditFrames(frames, e, st).Err? ==> EditFrames(frames, e, st) == Err(InvalidEncoding)
    decreases |frames|
  {
    hide WithCounters, WrittenFrames, MasterSubs, Appended;
    if frames != [] {
      assert SubrecordsOf(frames)[1..] == SubrecordsOf(frames[1..]);
      assert EndsWithPayload(frames[0]);
      EditFramesSucceed(frames[1..], e, Advance(frames[0], e, st));
    }
  }
}
