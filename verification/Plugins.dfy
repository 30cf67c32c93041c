/** A whole plugin file: the TES4/TES3 header record and the top-level groups. */
module Plugins {
  import opened Wire
  import opened Cursor
  import opened Records
  import opened Subrecords
  import opened Groups
  import opened Games

  const HEDR: Signature := [0x48, 0x45, 0x44, 0x52]
  const MAST: Signature := [0x4D, 0x41, 0x53, 0x54]
  const SNAM: Signature := [0x53, 0x4E, 0x41, 0x4D]
  const DATA: Signature := [0x44, 0x41, 0x54, 0x41]
  const EDID: Signature := [0x45, 0x44, 0x49, 0x44]

  // --------------------------------------------------------------------------
  // Reading a record's subrecords
  // --------------------------------------------------------------------------

  /** The uncompressed data block. */
  function RawData(env: Env, r: Record): Result<Bytes> {
    match r.data
    case Raw(bytes) => Ok(bytes)
    case Compressed(payload, size) => env.inflate(payload, size)
  }

  function SubrecordsIn(env: Env, r: Record): Result<seq<SubRecord>> {
    var raw :- RawData(env, r);
    var frames :- FramesOf(raw, [], None);
    Ok(SubrecordsOf(frames.frames))
  }

  function First(subs: seq<SubRecord>, signature: Signature): Option<SubRecord> {
    if subs == [] then None
    else if subs[0].signature == signature then Some(subs[0])
    else First(subs[1..], signature)
  }

  /** The payload without trailing NUL bytes, if it is valid text. */
  function TrimNuls(b: Bytes): Bytes {
    if b != [] && b[|b| - 1] == 0 then TrimNuls(b[..|b| - 1]) else b
  }

  function ZString(env: Env, b: Bytes): Option<Bytes> {
    var t := TrimNuls(b);
    if env.validUtf8(t) then Some(t) else None
  }

  /** Cuts trailing NULs off by moving an end index, then checks the encoding. */
  method AsZString(env: Env, data: Bytes) returns (r: Result<Bytes>)
    ensures r.Ok? <==> ZString(env, data).Some?
    ensures r.Ok? ==> Some(r.value) == ZString(env, data)
    ensures r.Err? ==> r.error == InvalidEncoding
  {
    var end := |data|;
    assert data[..end] == data;
    while end > 0 && data[end - 1] == 0
      invariant end <= |data|
      invariant TrimNuls(data) == TrimNuls(data[..end])
    {
      assert data[..end][..end - 1] == data[..end - 1];
      end := end - 1;
    }
    var trimmed := data[..end];
    if !env.validUtf8(trimmed) {
      return Err(InvalidEncoding);
    }
    return Ok(trimmed);
  }

  /** The texts of all subrecords `signature` that are valid text, in order. */
  function Texts(env: Env, subs: seq<SubRecord>, signature: Signature): seq<Bytes> {
    if subs == [] then []
    else
      var rest := Texts(env, subs[1..], signature);
      var text := ZString(env, subs[0].data);
      if subs[0].signature == signature && text.Some? then [text.value] + rest else rest
  }

  // --------------------------------------------------------------------------
  // The header record
  // --------------------------------------------------------------------------

  /** `hedrVersion` holds the four bytes of the HEDR float, when there is one. */
  datatype PluginHeader = PluginHeader(
    record: Record,
    hedrVersion: Option<Bytes>,
    recordCount: U32,
    nextObjectId: U32,
    masters: seq<Bytes>,
    description: Option<Bytes>)

  function DescriptionOf(env: Env, subs: seq<SubRecord>): Option<Bytes> {
    var snam := First(subs, SNAM);
    if snam.None? then None
    else
      var text := ZString(env, snam.value.data);
      if text.Some? && text.value != [] then text else None
  }

  function HeaderOf(env: Env, game: Game, record: Record): Result<PluginHeader> {
    if record.header.signature != HeaderSignature(game) then Err(InvalidSignature)
    else
      var subs :- SubrecordsIn(env, record);
      var hedr := First(subs, HEDR);
      var masters := Texts(env, subs, MAST);
      var description := DescriptionOf(env, subs);
      if hedr.Some? && |hedr.value.data| >= 12 then
        var d := hedr.value.data;
        Ok(PluginHeader(record, Some(d[..4]), U32At(d, 4), U32At(d, 8), masters, description))
      else
        Ok(PluginHeader(record, None, 0, 0, masters, description))
  }

  // --------------------------------------------------------------------------
  // The whole file
  // --------------------------------------------------------------------------

  datatype Plugin = Plugin(
    source: Bytes,
    game: Game,
    header: PluginHeader,
    headerRange: Range,
    groups: seq<Group>)

  function TopGroupsAt(s: Bytes, p: nat): Result<seq<Group>>
    requires p <= |s|
    decreases |s| - p
  {
    if p == |s| then Ok([])
    else
      var parsed :- GroupAt(s, p);
      var rest :- TopGroupsAt(s, parsed.1);
      Ok([parsed.0.(range := Some(Range(p, parsed.1)))] + rest)
  }

  function PluginOf(env: Env, game: Game, source: Bytes): Result<Plugin> {
    var parsed :- RecordAt(source, 0);
    var header :- HeaderOf(env, game, parsed.0);
    var groups :- TopGroupsAt(source, parsed.1);
    Ok(Plugin(source, game, header, Range(0, parsed.1), groups))
  }

  ghost function Prepend(done: seq<Group>, rest: Result<seq<Group>>): Result<seq<Group>> {
    match rest
    case Ok(gs) => Ok(done + gs)
    case Err(e) => Err(e)
  }

  method ParsePlugin(env: Env, game: Game, source: Bytes) returns (r: Result<Plugin>)
    ensures r == PluginOf(env, game, source)
  {
    hide GroupAt, RecordAt, HeaderOf;
    var cursor := new SliceCursor(source);
    var record :- ParseRecord(cursor);
    var header :- HeaderOf(env, game, record);
    var headerRange := Range(0, cursor.pos);
    var groups: seq<Group> := [];
    ghost var whole := TopGroupsAt(source, cursor.pos);
    assert whole.Ok? ==> [] + whole.value == whole.value;
    while !cursor.IsEmpty()
      invariant cursor.Valid() && cursor.data == source && fresh(cursor)
      invariant whole == Prepend(groups, TopGroupsAt(source, cursor.pos))
      decreases |source| - cursor.pos
    {
      var start := cursor.pos;
      var group :- ParseGroup(cursor);
      var located := group.(range := Some(Range(start, cursor.pos)));
      PrependStep(groups, located, TopGroupsAt(source, cursor.pos));
      groups := groups + [located];
    }
    assert groups + [] == groups;
    return Ok(Plugin(source, game, header, headerRange, groups));
  }

  lemma PrependStep(done: seq<Group>, g: Group, rest: Result<seq<Group>>)
    ensures Prepend(done, Prepend([g], rest)) == Prepend(done + [g], rest)
  {
    if rest.Ok? {
      assert done + ([g] + rest.value) == done + [g] + rest.value;
    }
  }

  // --------------------------------------------------------------------------
  // Top-level groups as children
  // --------------------------------------------------------------------------

  function AsChildren(gs: seq<Group>): (cs: seq<Child>)
    ensures |cs| == |gs|
    ensures forall i :: 0 <= i < |gs| ==> cs[i] == GroupChild(gs[i])
  {
    seq(|gs|, i requires 0 <= i < |gs| => GroupChild(gs[i]))
  }

  /**
   The top-level parser accepts exactly the printed forms of well-formed groups
   that fill the file, and captures the place of each.
   */
  lemma {:induction false} TopGroupsInverse(s: Bytes, p: nat, gs: seq<Group>)
    requires p <= |s|
    ensures TopGroupsAt(s, p) == Ok(gs)
            <==> AllStandAt(s, p, AsChildren(gs)) && p + |ChildrenBytes(AsChildren(gs))| == |s|
    decreases |s| - p
  {
    hide GroupAt, ChildBytes, StandsAt, AllStandAt;
    if gs == [] {
      NothingStands(s, p);
    } else {
      var cs := AsChildren(gs);
      var next := p + |ChildBytes(cs[0])|;
      assert cs[1..] == AsChildren(gs[1..]);
      assert gs == [gs[0]] + gs[1..];
      StandingList(s, p, cs);
      if AllStandAt(s, p, cs) {
        StandingFits(s, p, cs);
      }
      if p < |s| {
        TopGroupInverse(s, p, gs[0], next);
        if next <= |s| {
          TopGroupsInverse(s, next, gs[1..]);
        }
        var first := GroupAt(s, p);
        if first.Ok? {
          TopGroupInverse(s, p, first.value.0.(range := Some(Range(p, first.value.1))), first.value.1);
        }
      }
    }
  }

  lemma TopGroupInverse(s: Bytes, p: nat, g: Group, end: nat)
    requires p <= |s|
    ensures GroupAt(s, p) == Ok((g.(range := None), end)) && g.range == Some(Range(p, end))
            <==> StandsAt(s, p, GroupChild(g)) && end == p + |ChildBytes(GroupChild(g))|
  {
    hide GroupAt, GroupBytes, GroupOk, LocateChildren;
    GroupInverse(s, p, g.(range := None), end);
    RangeFree(g, None);
    assert LocateChild(GroupChild(g), p) == GroupChild(LocateGroup(g, p));
    assert GroupChild(g) == LocateChild(GroupChild(g), p) <==> g == LocateGroup(g, p);
  }
}
