/**
 The byte stream behind structural addresses. Feeding functions take the bytes
 that follow as an argument, so that peeling equal streams apart from the front
 decodes them.
 */
module StructureHash {
  import opened Wire
  import opened Records

  datatype FieldValue =
    | Int(number: int)
    | UInt(natural: nat)
    | Float(bits: Bytes)
    | String(text: Bytes)
    | FormIdValue(id: FormId, targets: seq<Signature>)
    | Enumeration(enumerator: int, name: Option<Bytes>)
    | Flags(mask: nat, active: seq<Bytes>)
    | BytesValue(bytes: Bytes)
    | Struct(fields: seq<NamedValue>)
    | Array(items: seq<FieldValue>)
    | Absent

  datatype NamedValue = NamedValue(
    path: Bytes, nodeId: U32, effectivePath: Option<Bytes>, name: Bytes, span: Range, value: FieldValue)

  datatype RepeatScope = RepeatScope(path: Bytes, occurrence: U32)

  datatype ValueSelection = ValueSelection(schemaPath: Bytes, arrayIndices: seq<nat>, effectivePath: Bytes)

  datatype Field = Field(
    subrecordIndex: nat,
    path: Bytes,
    effectivePath: Option<Bytes>,
    nodeId: U32,
    subrecordSignature: Signature,
    repeatScopes: seq<RepeatScope>,
    valueSelections: seq<ValueSelection>,
    name: Bytes,
    occurrence: nat,
    span: Range,
    value: FieldValue)

  // --------------------------------------------------------------------------
  // Skeletons: what an address depends on
  // --------------------------------------------------------------------------

  /** The shape of a value: kinds all the way down, struct members with their identity, no scalars. */
  datatype Shape = Leaf(kind: Byte) | StructShape(members: seq<Member>) | ArrayShape(elements: seq<Shape>)
  datatype Member = Member(path: Bytes, nodeId: U32, effectivePath: Bytes, shape: Shape)

  datatype Skeleton = Skeleton(
    subrecordIndex: nat,
    path: Bytes,
    effectivePath: Bytes,
    nodeId: U32,
    subrecordSignature: Signature,
    repeatScopes: seq<RepeatScope>,
    valueSelections: seq<ValueSelection>,
    shape: Shape)

  const STRUCT_KIND: Byte := 8
  const ARRAY_KIND: Byte := 9

  function KindOf(v: FieldValue): Byte {
    match v
    case Int(_) => 0
    case UInt(_) => 1
    case Float(_) => 2
    case String(_) => 3
    case FormIdValue(_, _) => 4
    case Enumeration(_, _) => 5
    case Flags(_, _) => 6
    case BytesValue(_) => 7
    case Struct(_) => STRUCT_KIND
    case Array(_) => ARRAY_KIND
    case Absent => 10
  }

  function ShapeOf(v: FieldValue): Shape
    decreases v, 0
  {
    match v
    case Struct(fields) => StructShape(MembersOf(fields))
    case Array(items) => ArrayShape(ShapesOf(items))
    case _ => Leaf(KindOf(v))
  }

  function MembersOf(fs: seq<NamedValue>): (ms: seq<Member>)
    ensures |ms| == |fs|
    decreases fs, 0
  {
    if fs == [] then []
    else [Member(fs[0].path, fs[0].nodeId, fs[0].effectivePath.GetOr([]), ShapeOf(fs[0].value))] + MembersOf(fs[1..])
  }

  function ShapesOf(vs: seq<FieldValue>): (ss: seq<Shape>)
    ensures |ss| == |vs|
    decreases vs, 0
  {
    if vs == [] then [] else [ShapeOf(vs[0])] + ShapesOf(vs[1..])
  }

  function SkeletonOf(f: Field): Skeleton {
    Skeleton(f.subrecordIndex, f.path, f.effectivePath.GetOr([]), f.nodeId, f.subrecordSignature, f.repeatScopes,
             f.valueSelections, ShapeOf(f.value))
  }

  function SkeletonsOf(fs: seq<Field>): (ss: seq<Skeleton>)
    ensures |ss| == |fs|
    ensures forall i :: 0 <= i < |fs| ==> ss[i] == SkeletonOf(fs[i])
  {
    seq(|fs|, i requires 0 <= i < |fs| => SkeletonOf(fs[i]))
  }

  // --------------------------------------------------------------------------
  // The stream
  // --------------------------------------------------------------------------

  const U64_END: nat := 0x1_0000_0000_0000_0000
  const DOMAIN: Bytes := [98, 101, 116, 104, 107, 105, 116, 45, 102, 105, 101, 108, 100, 45, 97, 100, 100, 114, 101, 115, 115,
                          45, 118, 49]

  function FeedUsize(n: nat, rest: Bytes): Bytes {
    Le64(n % U64_END) + rest
  }

  function FeedText(t: Bytes, rest: Bytes): Bytes {
    FeedUsize(|t|, t + rest)
  }

  function FeedShape(s: Shape, rest: Bytes): Bytes
    decreases s, 0
  {
    match s
    case Leaf(kind) => [kind] + rest
    case StructShape(ms) => [STRUCT_KIND] + FeedUsize(|ms|, FeedMembers(ms, rest))
    case ArrayShape(ss) => [ARRAY_KIND] + FeedUsize(|ss|, FeedShapes(ss, rest))
  }

  function FeedMembers(ms: seq<Member>, rest: Bytes): Bytes
    decreases ms, 0
  {
    if ms == [] then rest
    else
      var m := ms[0];
      FeedText(m.path, Le32(m.nodeId) + FeedText(m.effectivePath, FeedShape(m.shape, FeedMembers(ms[1..], rest))))
  }

  function FeedShapes(ss: seq<Shape>, rest: Bytes): Bytes
    decreases ss, 0
  {
    if ss == [] then rest else FeedShape(ss[0], FeedShapes(ss[1..], rest))
  }

  function FeedScopes(scopes: seq<RepeatScope>, rest: Bytes): Bytes {
    if scopes == [] then rest
    else FeedText(scopes[0].path, Le32(scopes[0].occurrence) + FeedScopes(scopes[1..], rest))
  }

  function FeedIndices(indices: seq<nat>, rest: Bytes): Bytes {
    if indices == [] then rest else FeedUsize(indices[0], FeedIndices(indices[1..], rest))
  }

  function FeedSelections(ss: seq<ValueSelection>, rest: Bytes): Bytes {
    if ss == [] then rest
    else
      var s := ss[0];
      FeedText(s.schemaPath, FeedUsize(|s.arrayIndices|, FeedIndices(s.arrayIndices,
               FeedText(s.effectivePath, FeedSelections(ss[1..], rest)))))
  }

  function FeedSkeleton(s: Skeleton, rest: Bytes): Bytes {
    FeedUsize(s.subrecordIndex, FeedText(s.path, FeedText(s.effectivePath, Le32(s.nodeId) + (s.subrecordSignature
    + FeedUsize(|s.repeatScopes|, FeedScopes(s.repeatScopes,
      FeedUsize(|s.valueSelections|, FeedSelections(s.valueSelections, FeedShape(s.shape, rest)))))))))
  }

  function FeedSkeletons(ss: seq<Skeleton>, rest: Bytes): Bytes {
    if ss == [] then rest else FeedSkeleton(ss[0], FeedSkeletons(ss[1..], rest))
  }

  /** Everything fed to the digest for a list of fields. */
  function Stream(ss: seq<Skeleton>): Bytes {
    DOMAIN + FeedUsize(|ss|, FeedSkeletons(ss, []))
  }

  // --------------------------------------------------------------------------
  // The hashing methods
  // --------------------------------------------------------------------------

  class Digest {
    var fed: Bytes

    constructor ()
      ensures fed == []
    {
      fed := [];
    }

    /** `rest` is whatever will be fed afterwards. */
    method Update(more: Bytes, ghost rest: Bytes)
      modifies this
      ensures fed + rest == old(fed) + (more + rest)
    {
      Assoc(fed, more, rest);
      fed := fed + more;
    }
  }

  method HashUsize(digest: Digest, n: nat, ghost rest: Bytes)
    modifies digest
    ensures digest.fed + rest == old(digest.fed) + FeedUsize(n, rest)
  {
    digest.Update(Le64(n % U64_END), rest);
  }

  method HashText(digest: Digest, t: Bytes, ghost rest: Bytes)
    modifies digest
    ensures digest.fed + rest == old(digest.fed) + FeedText(t, rest)
  {
    hide FeedUsize;
    HashUsize(digest, |t|, t + rest);
    digest.Update(t, rest);
  }

  method HashValue(digest: Digest, v: FieldValue, ghost rest: Bytes)
    modifies digest
    ensures digest.fed + rest == old(digest.fed) + FeedShape(ShapeOf(v), rest)
    decreases v
  {
    hide FeedUsize, FeedText, FeedMembers, FeedShapes, MembersOf, ShapesOf;
    ghost var before := digest.fed;
    match v {
      case Struct(fields) =>
        ghost var ms := MembersOf(fields);
        digest.Update([STRUCT_KIND], FeedUsize(|ms|, FeedMembers(ms, rest)));
        HashUsize(digest, |fields|, FeedMembers(ms, rest));
        assert fields[0..] == fields;
        for i := 0 to |fields|
          invariant digest.fed + FeedMembers(MembersOf(fields[i..]), rest) == before + FeedShape(ShapeOf(v), rest)
        {
          MemberStep(fields, i, rest);
          var field := fields[i];
          ghost var after := FeedMembers(MembersOf(fields[i + 1..]), rest);
          ghost var shape := FeedShape(ShapeOf(field.value), after);
          ghost var tail := FeedText(field.effectivePath.GetOr([]), shape);
          HashText(digest, field.path, Le32(field.nodeId) + tail);
          digest.Update(Le32(field.nodeId), tail);
          HashText(digest, field.effectivePath.GetOr([]), shape);
          HashValue(digest, field.value, after);
        }
        NoMembers(fields, rest);
      case Array(items) =>
        ghost var ss := ShapesOf(items);
        digest.Update([ARRAY_KIND], FeedUsize(|ss|, FeedShapes(ss, rest)));
        HashUsize(digest, |items|, FeedShapes(ss, rest));
        assert items[0..] == items;
        for i := 0 to |items|
          invariant digest.fed + FeedShapes(ShapesOf(items[i..]), rest) == before + FeedShape(ShapeOf(v), rest)
        {
          ShapeStep(items, i, rest);
          HashValue(digest, items[i], FeedShapes(ShapesOf(items[i + 1..]), rest));
        }
        NoShapes(items, rest);
      case _ =>
        digest.Update([KindOf(v)], rest);
    }
  }

  lemma MemberStep(fs: seq<NamedValue>, i: nat, rest: Bytes)
    requires i < |fs|
    ensures var f := fs[i];
            FeedMembers(MembersOf(fs[i..]), rest)
            == FeedText(f.path, Le32(f.nodeId) + FeedText(f.effectivePath.GetOr([]), FeedShape(ShapeOf(f.value),
                 FeedMembers(MembersOf(fs[i + 1..]), rest))))
  {
    hide FeedText, FeedShape, ShapeOf;
    assert fs[i..][0] == fs[i] && fs[i..][1..] == fs[i + 1..];
    var ms := MembersOf(fs[i..]);
    assert ms[1..] == MembersOf(fs[i + 1..]);
  }

  lemma NoMembers(fs: seq<NamedValue>, rest: Bytes)
    ensures FeedMembers(MembersOf(fs[|fs|..]), rest) == rest
  {
  }

  lemma ShapeStep(vs: seq<FieldValue>, i: nat, rest: Bytes)
    requires i < |vs|
    ensures FeedShapes(ShapesOf(vs[i..]), rest) == FeedShape(ShapeOf(vs[i]), FeedShapes(ShapesOf(vs[i + 1..]), rest))
  {
    hide FeedShape, ShapeOf;
    assert vs[i..][0] == vs[i] && vs[i..][1..] == vs[i + 1..];
    assert ShapesOf(vs[i..])[1..] == ShapesOf(vs[i + 1..]);
  }

  lemma NoShapes(vs: seq<FieldValue>, rest: Bytes)
    ensures FeedShapes(ShapesOf(vs[|vs|..]), rest) == rest
  {
  }

  method HashScopes(digest: Digest, scopes: seq<RepeatScope>, ghost rest: Bytes)
    modifies digest
    ensures digest.fed + rest == old(digest.fed) + FeedUsize(|scopes|, FeedScopes(scopes, rest))
  {
    hide FeedUsize, FeedText, Le32;
    ghost var before := digest.fed;
    HashUsize(digest, |scopes|, FeedScopes(scopes, rest));
    assert scopes[0..] == scopes;
    for i := 0 to |scopes|
      invariant digest.fed + FeedScopes(scopes[i..], rest) == before + FeedUsize(|scopes|, FeedScopes(scopes, rest))
    {
      assert scopes[i..][0] == scopes[i] && scopes[i..][1..] == scopes[i + 1..];
      ghost var after := FeedScopes(scopes[i + 1..], rest);
      HashText(digest, scopes[i].path, Le32(scopes[i].occurrence) + after);
      digest.Update(Le32(scopes[i].occurrence), after);
    }
    assert scopes[|scopes|..] == [];
  }

  method HashIndices(digest: Digest, indices: seq<nat>, ghost rest: Bytes)
    modifies digest
    ensures digest.fed + rest == old(digest.fed) + FeedUsize(|indices|, FeedIndices(indices, rest))
  {
    hide FeedUsize;
    ghost var before := digest.fed;
    HashUsize(digest, |indices|, FeedIndices(indices, rest));
    assert indices[0..] == indices;
    for i := 0 to |indices|
      invariant digest.fed + FeedIndices(indices[i..], rest) == before + FeedUsize(|indices|, FeedIndices(indices, rest))
    {
      assert indices[i..][0] == indices[i] && indices[i..][1..] == indices[i + 1..];
      HashUsize(digest, indices[i], FeedIndices(indices[i + 1..], rest));
    }
    assert indices[|indices|..] == [];
  }

  method HashSelections(digest: Digest, ss: seq<ValueSelection>, ghost rest: Bytes)
    modifies digest
    ensures digest.fed + rest == old(digest.fed) + FeedUsize(|ss|, FeedSelections(ss, rest))
  {
    hide FeedUsize, FeedText, FeedIndices;
    ghost var before := digest.fed;
    HashUsize(digest, |ss|, FeedSelections(ss, rest));
    assert ss[0..] == ss;
    for i := 0 to |ss|
      invariant digest.fed + FeedSelections(ss[i..], rest) == before + FeedUsize(|ss|, FeedSelections(ss, rest))
    {
      assert ss[i..][0] == ss[i] && ss[i..][1..] == ss[i + 1..];
      var s := ss[i];
      ghost var after := FeedSelections(ss[i + 1..], rest);
      ghost var path := FeedText(s.effectivePath, after);
      HashText(digest, s.schemaPath, FeedUsize(|s.arrayIndices|, FeedIndices(s.arrayIndices, path)));
      HashIndices(digest, s.arrayIndices, path);
      HashText(digest, s.effectivePath, after);
    }
    assert ss[|ss|..] == [];
  }

  method HashField(digest: Digest, f: Field, ghost rest: Bytes)
    modifies digest
    ensures digest.fed + rest == old(digest.fed) + FeedSkeleton(SkeletonOf(f), rest)
  {
    hide FeedUsize, FeedText, FeedScopes, FeedSelections, FeedShape, Le32;
    ghost var value := FeedShape(ShapeOf(f.value), rest);
    ghost var selections := FeedUsize(|f.valueSelections|, FeedSelections(f.valueSelections, value));
    ghost var scopes := FeedUsize(|f.repeatScopes|, FeedScopes(f.repeatScopes, selections));
    ghost var node := Le32(f.nodeId) + (f.subrecordSignature + scopes);
    ghost var effective := FeedText(f.effectivePath.GetOr([]), node);
    HashUsize(digest, f.subrecordIndex, FeedText(f.path, effective));
    HashText(digest, f.path, effective);
    HashText(digest, f.effectivePath.GetOr([]), node);
    digest.Update(Le32(f.nodeId), f.subrecordSignature + scopes);
    digest.Update(f.subrecordSignature, scopes);
    HashScopes(digest, f.repeatScopes, selections);
    HashSelections(digest, f.valueSelections, value);
    HashValue(digest, f.value, rest);
  }

  /** Feeds the digest exactly the stream of the fields' skeletons. */
  method FeedFields(fields: seq<Field>) returns (fed: Bytes)
    ensures fed == Stream(SkeletonsOf(fields))
  {
    hide FeedUsize, FeedSkeleton, SkeletonOf;
    var digest := new Digest();
    ghost var all := SkeletonsOf(fields);
    digest.Update(DOMAIN, FeedUsize(|all|, FeedSkeletons(all, [])));
    HashUsize(digest, |fields|, FeedSkeletons(all, []));
    assert all[0..] == all;
    for i := 0 to |fields|
      invariant fresh(digest)
      invariant digest.fed + FeedSkeletons(all[i..], []) == Stream(all)
    {
      assert all[i..][0] == all[i] && all[i..][1..] == all[i + 1..];
      HashField(digest, fields[i], FeedSkeletons(all[i + 1..], []));
    }
    assert all[|fields|..] == [];
    assert digest.fed + [] == digest.fed;
    return digest.fed;
  }

  /** Lowercase hexadecimal, two characters a byte. */
  function HexDigit(n: nat): char
    requires n < 16
  {
    "0123456789abcdef"[n]
  }

  function Hex(digest: Bytes): (s: string)
    ensures |s| == 2 * |digest|
  {
    if digest == [] then [] else [HexDigit(digest[0] / 16), HexDigit(digest[0] % 16)] + Hex(digest[1..])
  }

  /** The structure hash of a field list, for a digest function `sha`. */
  method StructureHash(sha: Bytes -> Bytes, fields: seq<Field>) returns (hash: string)
    ensures hash == Hex(sha(Stream(SkeletonsOf(fields))))
  {
    var fed := FeedFields(fields);
    return Hex(sha(fed));
  }
}
