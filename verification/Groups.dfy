/**
 GRUP blocks: header encoding, the recursive parser with its absolute byte
 ranges, and the printer that inverts it.
 */
module Groups {
  import opened Wire
  import opened Cursor
  import opened Records

  datatype GroupType =
    | Normal
    | WorldChildren
    | InteriorCellBlock
    | InteriorCellSubBlock
    | ExteriorCellBlock
    | ExteriorCellSubBlock
    | CellChildren
    | TopicChildren
    | CellPersistentChildren
    | CellTemporaryChildren
    | CellVisibleDistantChildren

  datatype GroupLabel =
    | SignatureLabel(signature: Signature)
    | FormIdLabel(id: FormId)
    | GridCell(x: I16, y: I16)
    | BlockNumber(n: I32)

  datatype GroupHeader = GroupHeader(
    groupSize: U32,
    groupLabel: GroupLabel,
    groupType: GroupType,
    versionControl: U32,
    unknown: U32)

  datatype Child = RecordChild(record: Record) | GroupChild(group: Group)
  datatype Group = Group(header: GroupHeader, range: Option<Range>, children: seq<Child>)

  const GROUP_HEADER_SIZE: nat := 24

  // --------------------------------------------------------------------------
  // Header encoding
  // --------------------------------------------------------------------------

  function TypeFromRaw(raw: I32): Result<GroupType> {
    if raw == 0 then Ok(Normal)
    else if raw == 1 then Ok(WorldChildren)
    else if raw == 2 then Ok(InteriorCellBlock)
    else if raw == 3 then Ok(InteriorCellSubBlock)
    else if raw == 4 then Ok(ExteriorCellBlock)
    else if raw == 5 then Ok(ExteriorCellSubBlock)
    else if raw == 6 then Ok(CellChildren)
    else if raw == 7 then Ok(TopicChildren)
    else if raw == 8 then Ok(CellPersistentChildren)
    else if raw == 9 then Ok(CellTemporaryChildren)
    else if raw == 10 then Ok(CellVisibleDistantChildren)
    else Err(InvalidGroupType(raw))
  }

  function TypeToRaw(t: GroupType): I32 {
    match t
    case Normal => 0
    case WorldChildren => 1
    case InteriorCellBlock => 2
    case InteriorCellSubBlock => 3
    case ExteriorCellBlock => 4
    case ExteriorCellSubBlock => 5
    case CellChildren => 6
    case TopicChildren => 7
    case CellPersistentChildren => 8
    case CellTemporaryChildren => 9
    case CellVisibleDistantChildren => 10
  }

  /** Interprets the four label bytes; grid cells store Y before X. */
  function LabelFromRaw(raw: Bytes, t: GroupType): GroupLabel
    requires |raw| == 4
  {
    match t
    case Normal => SignatureLabel(raw)
    case WorldChildren | CellChildren | TopicChildren | CellPersistentChildren
       | CellTemporaryChildren | CellVisibleDistantChildren => FormIdLabel(U32At(raw, 0))
    case ExteriorCellBlock | ExteriorCellSubBlock => GridCell(ToI16(U16At(raw, 2)), ToI16(U16At(raw, 0)))
    case InteriorCellBlock | InteriorCellSubBlock => BlockNumber(ToI32(U32At(raw, 0)))
  }

  function LabelBytes(tag: GroupLabel): (b: Bytes)
    ensures |b| == 4
  {
    match tag
    case SignatureLabel(signature) => signature
    case FormIdLabel(id) => Le32(id)
    case GridCell(x, y) => Le16(FromI16(y)) + Le16(FromI16(x))
    case BlockNumber(n) => Le32(FromI32(n))
  }

  /** The label variant that belongs to a group type. */
  predicate LabelFits(tag: GroupLabel, t: GroupType) {
    match t
    case Normal => tag.SignatureLabel?
    case WorldChildren | CellChildren | TopicChildren | CellPersistentChildren
       | CellTemporaryChildren | CellVisibleDistantChildren => tag.FormIdLabel?
    case ExteriorCellBlock | ExteriorCellSubBlock => tag.GridCell?
    case InteriorCellBlock | InteriorCellSubBlock => tag.BlockNumber?
  }

  /** The 24 header bytes of a group whose size field is `size`. */
  function GroupHeaderBytes(h: GroupHeader, size: U32): (b: Bytes)
    ensures |b| == GROUP_HEADER_SIZE
  {
    GRUP + (Le32(size) + (LabelBytes(h.groupLabel) + (Le32(FromI32(TypeToRaw(h.groupType)))
    + (Le32(h.versionControl) + Le32(h.unknown)))))
  }

  function GroupHeaderAt(s: Bytes, p: nat): Result<GroupHeader>
    requires p + GROUP_HEADER_SIZE <= |s|
  {
    var groupType :- TypeFromRaw(ToI32(U32At(s, p + 12)));
    Ok(GroupHeader(U32At(s, p + 4), LabelFromRaw(s[p + 8..p + 12], groupType), groupType,
                   U32At(s, p + 16), U32At(s, p + 20)))
  }

  // --------------------------------------------------------------------------
  // Printing, well-formedness and location of a tree
  // --------------------------------------------------------------------------

  function ChildBytes(c: Child): (b: Bytes)
    ensures |b| >= 24
    decreases c, 0
  {
    match c
    case RecordChild(r) => RecordBytes(r)
    case GroupChild(g) => GroupBytes(g)
  }

  function GroupBytes(g: Group): (b: Bytes)
    ensures |b| >= 24
    decreases g, 1
  {
    GroupHeaderBytes(g.header, g.header.groupSize) + ChildrenBytes(g.children)
  }

  function ChildrenBytes(cs: seq<Child>): Bytes
    decreases cs, 0
  {
    if cs == [] then [] else ChildBytes(cs[0]) + ChildrenBytes(cs[1..])
  }

  /** Sizes, labels and data blocks of the whole tree agree with its contents. */
  ghost predicate ChildOk(c: Child)
    decreases c, 0
  {
    match c
    case RecordChild(r) => RecordOk(r)
    case GroupChild(g) => GroupOk(g)
  }

  ghost predicate GroupOk(g: Group)
    decreases g, 1
  {
    && g.header.groupSize == |GroupBytes(g)|
    && LabelFits(g.header.groupLabel, g.header.groupType)
    && ChildrenOk(g.children)
  }

  ghost predicate ChildrenOk(cs: seq<Child>)
    decreases cs, 0
  {
    cs == [] || (ChildOk(cs[0]) && ChildrenOk(cs[1..]))
  }

  /** The same tree with every byte range set as if printed at offset `p`. */
  ghost function LocateChild(c: Child, p: nat): (l: Child)
    decreases c, 0
  {
    match c
    case RecordChild(r) => RecordChild(r.(range := Some(Range(p, p + |RecordBytes(r)|))))
    case GroupChild(g) => GroupChild(LocateGroup(g, p))
  }

  ghost function LocateGroup(g: Group, p: nat): (l: Group)
    decreases g, 1
  {
    g.(range := Some(Range(p, p + |GroupBytes(g)|)), children := LocateChildren(g.children, p + 24))
  }

  ghost function LocateChildren(cs: seq<Child>, p: nat): (l: seq<Child>)
    decreases cs, 0
  {
    if cs == [] then [] else [LocateChild(cs[0], p)] + LocateChildren(cs[1..], p + |ChildBytes(cs[0])|)
  }

  /** The source bytes of a captured range, if there is one within the source. */
  function SourceSlice(source: Bytes, range: Option<Range>): Result<Bytes> {
    if range.Some? && range.value.start <= range.value.end <= |source|
    then Ok(source[range.value.start..range.value.end])
    else Err(UnexpectedEof)
  }

  // --------------------------------------------------------------------------
  // What the parser computes
  // --------------------------------------------------------------------------

  /** The group starting at `p`, its own range still unset, and the offset behind it. */
  function GroupAt(s: Bytes, p: nat): (r: Result<(Group, nat)>)
    ensures r.Ok? ==> p + 24 <= r.value.1 <= |s| && s[p..p + 4] == GRUP && r.value.0.range == None
    decreases |s| - p, 1
  {
    if p + 4 > |s| then Err(UnexpectedEof)
    else if s[p..p + 4] != GRUP then Err(InvalidSignature)
    else if p + GROUP_HEADER_SIZE > |s| then Err(UnexpectedEof)
    else
      var header :- GroupHeaderAt(s, p);
      var parsed :- ChildrenAt(s, p + GROUP_HEADER_SIZE, p + header.groupSize);
      Ok((Group(header, None, parsed.0), parsed.1))
  }

  /** Children from `p` up to `end`, which they must meet exactly. */
  function ChildrenAt(s: Bytes, p: nat, end: nat): (r: Result<(seq<Child>, nat)>)
    requires p <= |s|
    ensures r.Ok? ==> p <= r.value.1 == end <= |s|
    decreases |s| - p, 3
  {
    if p >= end || p + 4 > |s| then
      if p == end then Ok(([], p)) else Err(UnexpectedEof)
    else
      var first :- ChildAt(s, p);
      var rest :- ChildrenAt(s, first.1, end);
      Ok(([first.0] + rest.0, rest.1))
  }

  /** One child, with its range, and the offset behind it. */
  function ChildAt(s: Bytes, p: nat): (r: Result<(Child, nat)>)
    requires p + 4 <= |s|
    ensures r.Ok? ==> p + 24 <= r.value.1 <= |s|
    decreases |s| - p, 2
  {
    if s[p..p + 4] == GRUP then
      var parsed :- GroupAt(s, p);
      Ok((GroupChild(parsed.0.(range := Some(Range(p, parsed.1)))), parsed.1))
    else
      var parsed :- RecordAt(s, p);
      Ok((RecordChild(parsed.0.(range := Some(Range(p, parsed.1)))), parsed.1))
  }

  // --------------------------------------------------------------------------
  // The parser itself
  // --------------------------------------------------------------------------

  /** `r` is the result a parser computed that started at `start` and stopped at the cursor. */
  ghost predicate Agrees<T>(r: Result<T>, spec: Result<(T, nat)>, pos: nat) {
    match r
    case Ok(v) => spec == Ok((v, pos))
    case Err(e) => spec == Err(e)
  }

  method ParseGroup(cursor: SliceCursor) returns (r: Result<Group>)
    requires cursor.Valid()
    modifies cursor
    ensures cursor.Valid()
    ensures Agrees(r, GroupAt(cursor.data, old(cursor.pos)), cursor.pos)
    decreases |cursor.data| - cursor.pos, 1
  {
    hide ChildrenAt, TypeFromRaw, LabelFromRaw, U32At;
    var start := cursor.pos;
    var signature :- cursor.ReadSlice(4);
    if signature != GRUP {
      return Err(InvalidSignature);
    }
    var groupSize :- cursor.ReadU32();
    var labelRaw :- cursor.ReadSlice(4);
    var typeRaw :- cursor.ReadU32();
    var versionControl :- cursor.ReadU32();
    var unknown :- cursor.ReadU32();
    var groupType :- TypeFromRaw(ToI32(typeRaw));
    var header := GroupHeader(groupSize, LabelFromRaw(labelRaw, groupType), groupType, versionControl, unknown);
    var children :- ParseChildren(cursor, start + groupSize);
    return Ok(Group(header, None, children));
  }

  /** Already-parsed children in front of the result for the remaining ones. */
  ghost function After(done: seq<Child>, rest: Result<(seq<Child>, nat)>): Result<(seq<Child>, nat)> {
    match rest
    case Ok(v) => Ok((done + v.0, v.1))
    case Err(e) => Err(e)
  }

  method ParseChildren(cursor: SliceCursor, end: nat) returns (r: Result<seq<Child>>)
    requires cursor.Valid()
    modifies cursor
    ensures cursor.Valid()
    ensures Agrees(r, ChildrenAt(cursor.data, old(cursor.pos), end), cursor.pos)
    decreases |cursor.data| - cursor.pos, 2
  {
    hide GroupAt, RecordAt;
    ghost var whole := ChildrenAt(cursor.data, cursor.pos, end);
    var children: seq<Child> := [];
    AfterNothing(whole);
    while cursor.pos < end
      invariant cursor.Valid() && old(cursor.pos) <= cursor.pos
      invariant whole == After(children, ChildrenAt(cursor.data, cursor.pos, end))
      decreases |cursor.data| - cursor.pos
    {
      var start := cursor.pos;
      var peeked := cursor.PeekBytes(4);
      if peeked == None {
        break;
      }
      ghost var rest := ChildrenAt(cursor.data, start, end);
      ghost var done := children;
      if peeked.value == GRUP {
        var group :- ParseGroup(cursor);
        children := children + [GroupChild(group.(range := Some(Range(start, cursor.pos))))];
      } else {
        var record :- ParseRecord(cursor);
        children := children + [RecordChild(record.(range := Some(Range(start, cursor.pos))))];
      }
      AfterStep(done, children[|done|], ChildrenAt(cursor.data, cursor.pos, end));
    }
    if cursor.pos != end {
      return Err(UnexpectedEof);
    }
    assert children + [] == children;
    return Ok(children);
  }

  lemma AfterNothing(rest: Result<(seq<Child>, nat)>)
    ensures After([], rest) == rest
  {
    if rest.Ok? {
      assert [] + rest.value.0 == rest.value.0;
    }
  }

  lemma AfterStep(done: seq<Child>, c: Child, rest: Result<(seq<Child>, nat)>)
    ensures After(done, After([c], rest)) == After(done + [c], rest)
  {
    if rest.Ok? {
      assert done + ([c] + rest.value.0) == done + [c] + rest.value.0;
    }
  }

  // --------------------------------------------------------------------------
  // Parser and printer are inverse
  // --------------------------------------------------------------------------

  /** Type codes and labels survive the trip through their raw bytes, both ways. */
  lemma TypeInverse(raw: I32, t: GroupType)
    ensures TypeFromRaw(raw) == Ok(t) <==> TypeToRaw(t) == raw
  {
  }

  lemma LabelInverse(raw: Bytes, t: GroupType, tag: GroupLabel)
    requires |raw| == 4
    ensures LabelFromRaw(raw, t) == tag <==> LabelFits(tag, t) && LabelBytes(tag) == raw
  {
    hide Le16, Le32, U16At, U32At;
    assert raw == raw[0..4] == raw[0..2] + raw[2..4];
    match tag {
      case SignatureLabel(_) =>
      case FormIdLabel(id) => Word32(raw, 0, id);
      case BlockNumber(n) => Word32(raw, 0, FromI32(n));
      case GridCell(x, y) =>
        Word16(raw, 0, FromI16(y));
        Word16(raw, 2, FromI16(x));
        ConcatInjective(raw[0..2], raw[2..4], Le16(FromI16(y)), Le16(FromI16(x)));
    }
  }

  lemma GroupHeaderInverse(s: Bytes, p: nat, h: GroupHeader)
    requires p + GROUP_HEADER_SIZE <= |s|
    ensures s[p..p + 4] == GRUP && GroupHeaderAt(s, p) == Ok(h)
            <==> Holds(s, p, GroupHeaderBytes(h, h.groupSize)) && LabelFits(h.groupLabel, h.groupType)
  {
    var typeRaw := FromI32(TypeToRaw(h.groupType));
    var t4 := Le32(h.versionControl) + Le32(h.unknown);
    var t3 := Le32(typeRaw) + t4;
    var t2 := LabelBytes(h.groupLabel) + t3;
    var t1 := Le32(h.groupSize) + t2;
    HoldsConcat(s, p, GRUP, t1);
    HoldsConcat(s, p + 4, Le32(h.groupSize), t2);
    HoldsConcat(s, p + 8, LabelBytes(h.groupLabel), t3);
    HoldsConcat(s, p + 12, Le32(typeRaw), t4);
    HoldsConcat(s, p + 16, Le32(h.versionControl), Le32(h.unknown));
    Word32(s, p + 4, h.groupSize);
    Word32(s, p + 12, typeRaw);
    Word32(s, p + 16, h.versionControl);
    Word32(s, p + 20, h.unknown);
    TypeInverse(ToI32(U32At(s, p + 12)), h.groupType);
    LabelInverse(s[p + 8..p + 12], h.groupType, h.groupLabel);
  }

  /** `c` is well-formed, stands in `s` at `p`, and carries the ranges of that place. */
  ghost predicate StandsAt(s: Bytes, p: nat, c: Child) {
    ChildOk(c) && Holds(s, p, ChildBytes(c)) && c == LocateChild(c, p)
  }

  ghost predicate AllStandAt(s: Bytes, p: nat, cs: seq<Child>) {
    ChildrenOk(cs) && Holds(s, p, ChildrenBytes(cs)) && cs == LocateChildren(cs, p)
  }

  lemma StandingList(s: Bytes, p: nat, cs: seq<Child>)
    requires cs != []
    ensures AllStandAt(s, p, cs) <==> StandsAt(s, p, cs[0]) && AllStandAt(s, p + |ChildBytes(cs[0])|, cs[1..])
  {
    hide ChildBytes, ChildOk, LocateChild;
    HoldsConcat(s, p, ChildBytes(cs[0]), ChildrenBytes(cs[1..]));
    LocatedTail(cs, p);
  }

  lemma {:induction false} GroupInverse(s: Bytes, p: nat, g: Group, end: nat)
    requires p <= |s| && g.range == None
    ensures GroupAt(s, p) == Ok((g, end))
            <==> GroupOk(g) && Holds(s, p, GroupBytes(g)) && g.children == LocateChildren(g.children, p + 24)
                 && end == p + |GroupBytes(g)|
    decreases |s| - p, 1
  {
    hide GroupHeaderAt, GroupHeaderBytes, ChildrenAt, ChildrenBytes, ChildrenOk, LocateChildren;
    HoldsConcat(s, p, GroupHeaderBytes(g.header, g.header.groupSize), ChildrenBytes(g.children));
    if p + GROUP_HEADER_SIZE <= |s| {
      GroupHeaderInverse(s, p, g.header);
      ChildrenInverse(s, p + 24, g.children, p + g.header.groupSize);
    }
  }

  /** A group's own range plays no part in its bytes or its well-formedness. */
  lemma RangeFree(g: Group, range: Option<Range>)
    ensures GroupBytes(g.(range := range)) == GroupBytes(g)
    ensures GroupOk(g.(range := range)) <==> GroupOk(g)
  {
  }

  lemma StartsWithSignature(s: Bytes, p: nat, c: Child)
    requires p + 4 <= |s| && Holds(s, p, ChildBytes(c)) && ChildOk(c)
    ensures s[p..p + 4] == GRUP <==> c.GroupChild?
  {
    var b := ChildBytes(c);
    assert b == b[..4] + b[4..];
    HoldsConcat(s, p, b[..4], b[4..]);
    assert b[..4] == if c.GroupChild? then GRUP else c.record.header.signature;
  }

  lemma {:induction false} ChildInverse(s: Bytes, p: nat, c: Child, end: nat)
    requires p + 4 <= |s|
    ensures ChildAt(s, p) == Ok((c, end)) <==> StandsAt(s, p, c) && end == p + |ChildBytes(c)|
    decreases |s| - p, 2
  {
    hide RecordAt, RecordBytes, RecordOk, GroupAt, GroupBytes, GroupOk, LocateChildren;
    if Holds(s, p, ChildBytes(c)) && ChildOk(c) {
      StartsWithSignature(s, p, c);
    }
    match c {
      case RecordChild(r) =>
        RecordInverse(s, p, r.(range := None), end);
        RecordRangeFree(r, None);
        assert r.range == Some(Range(p, end)) ==> r == r.(range := None).(range := Some(Range(p, end)));
      case GroupChild(g) =>
        GroupInverse(s, p, g.(range := None), end);
        RangeFree(g, None);
        assert LocateChild(c, p) == GroupChild(LocateGroup(g, p)) && c == GroupChild(g);
        assert c == LocateChild(c, p) <==> g == LocateGroup(g, p);
        assert StandsAt(s, p, c) <==>
               GroupOk(g) && Holds(s, p, GroupBytes(g)) && g.children == LocateChildren(g.children, p + 24)
               && g.range == Some(Range(p, p + |GroupBytes(g)|));
        assert g.range == Some(Range(p, end)) ==> g == g.(range := None).(range := Some(Range(p, end)));
    }
  }

  /**
   The parser accepts exactly the printed forms of well-formed children, and
   the ranges it captures are the places where they stand.
   */
  lemma {:induction false} ChildrenInverse(s: Bytes, p: nat, cs: seq<Child>, end: nat)
    requires p <= |s|
    ensures ChildrenAt(s, p, end) == Ok((cs, end)) <==> AllStandAt(s, p, cs) && end == p + |ChildrenBytes(cs)|
    decreases |s| - p, 3
  {
    hide ChildAt, ChildBytes, StandsAt, AllStandAt;
    if cs == [] {
      NothingStands(s, p);
    } else {
      var next := p + |ChildBytes(cs[0])|;
      StandingList(s, p, cs);
      assert cs == [cs[0]] + cs[1..];
      if p + 4 <= |s| {
        ChildInverse(s, p, cs[0], next);
        if next <= |s| {
          ChildrenInverse(s, next, cs[1..], end);
        }
        var first := ChildAt(s, p);
        if first.Ok? {
          ChildInverse(s, p, first.value.0, first.value.1);
        }
      }
      if AllStandAt(s, p, cs) {
        StandingFits(s, p, cs);
      }
    }
  }

  lemma NothingStands(s: Bytes, p: nat)
    requires p <= |s|
    ensures AllStandAt(s, p, []) && ChildrenBytes([]) == []
  {
  }

  lemma StandingFits(s: Bytes, p: nat, cs: seq<Child>)
    requires AllStandAt(s, p, cs) && cs != []
    ensures p + |ChildBytes(cs[0])| <= p + |ChildrenBytes(cs)| <= |s|
  {
    hide ChildBytes;
  }

  lemma LocatedTail(cs: seq<Child>, p: nat)
    requires cs != []
    ensures cs == LocateChildren(cs, p)
            <==> cs[0] == LocateChild(cs[0], p) && cs[1..] == LocateChildren(cs[1..], p + |ChildBytes(cs[0])|)
  {
    var first := [LocateChild(cs[0], p)];
    ConcatInjective([cs[0]], cs[1..], first, LocateChildren(cs[1..], p + |ChildBytes(cs[0])|));
    assert cs == [cs[0]] + cs[1..];
  }

  // --------------------------------------------------------------------------
  // Reparsing what was printed
  // --------------------------------------------------------------------------

  /** Setting ranges changes neither bytes nor well-formedness, and setting them twice is setting them once. */
  lemma {:induction false} LocateKeeps(cs: seq<Child>, p: nat)
    ensures |LocateChildren(cs, p)| == |cs|
    ensures ChildrenBytes(LocateChildren(cs, p)) == ChildrenBytes(cs)
    ensures ChildrenOk(LocateChildren(cs, p)) <==> ChildrenOk(cs)
    ensures LocateChildren(LocateChildren(cs, p), p) == LocateChildren(cs, p)
    decreases cs, 0
  {
    hide ChildBytes, ChildOk, LocateChild;
    if cs != [] {
      LocateKeepsChild(cs[0], p);
      LocateKeeps(cs[1..], p + |ChildBytes(cs[0])|);
      var l := LocateChildren(cs, p);
      assert l[0] == LocateChild(cs[0], p) && l[1..] == LocateChildren(cs[1..], p + |ChildBytes(cs[0])|);
    }
  }

  lemma {:induction false} LocateKeepsChild(c: Child, p: nat)
    ensures ChildBytes(LocateChild(c, p)) == ChildBytes(c)
    ensures ChildOk(LocateChild(c, p)) <==> ChildOk(c)
    ensures LocateChild(LocateChild(c, p), p) == LocateChild(c, p)
    decreases c, 0
  {
    match c {
      case RecordChild(r) =>
        hide RecordBytes, RecordOk;
        RecordRangeFree(r, Some(Range(p, p + |RecordBytes(r)|)));
      case GroupChild(g) =>
        hide GroupHeaderBytes, ChildrenBytes, ChildrenOk, LocateChildren;
        LocateKeeps(g.children, p + 24);
        var l := LocateGroup(g, p);
        assert GroupBytes(l) == GroupBytes(g);
        assert GroupOk(l) <==> GroupOk(g);
        assert LocateGroup(l, p) == l;
    }
  }

  /** Printing any well-formed children and parsing the bytes gives them back, located. */
  lemma PrintedChildrenParse(s: Bytes, p: nat, cs: seq<Child>)
    requires ChildrenOk(cs) && Holds(s, p, ChildrenBytes(cs))
    ensures ChildrenAt(s, p, p + |ChildrenBytes(cs)|) == Ok((LocateChildren(cs, p), p + |ChildrenBytes(cs)|))
  {
    hide ChildrenAt, ChildrenBytes, ChildrenOk, LocateChildren;
    LocateKeeps(cs, p);
    ChildrenInverse(s, p, LocateChildren(cs, p), p + |ChildrenBytes(cs)|);
  }

  // --------------------------------------------------------------------------
  // Places of the parts of a standing tree
  // --------------------------------------------------------------------------

  lemma StandingGroup(s: Bytes, p: nat, g: Group)
    requires StandsAt(s, p, GroupChild(g))
    ensures g.range == Some(Range(p, p + |GroupBytes(g)|))
    ensures AllStandAt(s, p + 24, g.children)
    ensures g.header.groupSize == |GroupBytes(g)| == 24 + |ChildrenBytes(g.children)|
    ensures GroupBytes(g) == GroupHeaderBytes(g.header, g.header.groupSize) + ChildrenBytes(g.children)
    ensures SourceSlice(s, g.range) == Ok(GroupBytes(g))
  {
    hide GroupHeaderBytes, ChildrenBytes, ChildrenOk, LocateChildren;
    HoldsConcat(s, p, GroupHeaderBytes(g.header, g.header.groupSize), ChildrenBytes(g.children));
    assert LocateChild(GroupChild(g), p) == GroupChild(LocateGroup(g, p));
    assert g == LocateGroup(g, p);
    assert GroupOk(g);
  }

  lemma StandingRecord(s: Bytes, p: nat, r: Record)
    requires StandsAt(s, p, RecordChild(r))
    ensures r.range == Some(Range(p, p + |RecordBytes(r)|))
    ensures SourceSlice(s, r.range) == Ok(RecordBytes(r)) && RecordOk(r)
  {
    hide RecordBytes, RecordOk;
    assert LocateChild(RecordChild(r), p) == RecordChild(r.(range := Some(Range(p, p + |RecordBytes(r)|))));
  }
}
