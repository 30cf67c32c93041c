/**
 The structure hash identifies structure: the digest stream can be decoded in
 only one way, and says nothing about scalar values.
 */
module StructureIdentity {
  import opened Wire
  import opened StructureHash

  // --------------------------------------------------------------------------
  // Sizes that a 64-bit machine can have
  // --------------------------------------------------------------------------

  predicate TextFits(t: Bytes) {
    |t| < U64_END
  }

  predicate ShapeFits(s: Shape)
    decreases s, 0
  {
    match s
    case Leaf(kind) => kind != STRUCT_KIND && kind != ARRAY_KIND
    case StructShape(ms) => |ms| < U64_END && MembersFit(ms)
    case ArrayShape(ss) => |ss| < U64_END && ShapesFit(ss)
  }

  predicate MembersFit(ms: seq<Member>)
    decreases ms, 0
  {
    ms == []
    || (TextFits(ms[0].path) && TextFits(ms[0].effectivePath) && ShapeFits(ms[0].shape) && MembersFit(ms[1..]))
  }

  predicate ShapesFit(ss: seq<Shape>)
    decreases ss, 0
  {
    ss == [] || (ShapeFits(ss[0]) && ShapesFit(ss[1..]))
  }

  predicate ScopesFit(scopes: seq<RepeatScope>) {
    forall i :: 0 <= i < |scopes| ==> TextFits(scopes[i].path)
  }

  predicate SelectionFits(s: ValueSelection) {
    && TextFits(s.schemaPath) && TextFits(s.effectivePath) && |s.arrayIndices| < U64_END
    && (forall i :: 0 <= i < |s.arrayIndices| ==> s.arrayIndices[i] < U64_END)
  }

  predicate SkeletonFits(s: Skeleton) {
    && s.subrecordIndex < U64_END && TextFits(s.path) && TextFits(s.effectivePath)
    && |s.repeatScopes| < U64_END && ScopesFit(s.repeatScopes)
    && |s.valueSelections| < U64_END && (forall i :: 0 <= i < |s.valueSelections| ==> SelectionFits(s.valueSelections[i]))
    && ShapeFits(s.shape)
  }

  predicate SkeletonsFit(ss: seq<Skeleton>) {
    |ss| < U64_END && forall i :: 0 <= i < |ss| ==> SkeletonFits(ss[i])
  }

  // --------------------------------------------------------------------------
  // Peeling equal streams apart
  // --------------------------------------------------------------------------

  lemma UsizePeels(a: nat, b: nat, r: Bytes, t: Bytes)
    requires a < U64_END && b < U64_END && FeedUsize(a, r) == FeedUsize(b, t)
    ensures a == b && r == t
  {
    hide Le64, U64At;
    ConcatInjective(Le64(a), r, Le64(b), t);
    Word64(Le64(a), 0, a);
    Word64(Le64(a), 0, b);
    assert Le64(a)[0..8] == Le64(a);
  }

  lemma Word32Peels(a: U32, b: U32, r: Bytes, t: Bytes)
    requires Le32(a) + r == Le32(b) + t
    ensures a == b && r == t
  {
    hide Le32, U32At;
    ConcatInjective(Le32(a), r, Le32(b), t);
    Word32(Le32(a), 0, a);
    Word32(Le32(a), 0, b);
    assert Le32(a)[0..4] == Le32(a);
  }

  lemma TextPeels(a: Bytes, b: Bytes, r: Bytes, t: Bytes)
    requires TextFits(a) && TextFits(b) && FeedText(a, r) == FeedText(b, t)
    ensures a == b && r == t
  {
    hide FeedUsize;
    UsizePeels(|a|, |b|, a + r, b + t);
    ConcatInjective(a, r, b, t);
  }

  lemma {:induction false} ShapePeels(a: Shape, b: Shape, r: Bytes, t: Bytes)
    requires ShapeFits(a) && ShapeFits(b) && FeedShape(a, r) == FeedShape(b, t)
    ensures a == b && r == t
    decreases a, 0
  {
    hide FeedUsize, FeedMembers, FeedShapes, MembersFit, ShapesFit;
    match (a, b) {
      case (StructShape(ms), StructShape(ns)) =>
        ConcatInjective([STRUCT_KIND], FeedUsize(|ms|, FeedMembers(ms, r)), [STRUCT_KIND], FeedUsize(|ns|, FeedMembers(ns, t)));
        UsizePeels(|ms|, |ns|, FeedMembers(ms, r), FeedMembers(ns, t));
        MembersPeel(ms, ns, r, t);
      case (ArrayShape(ss), ArrayShape(us)) =>
        ConcatInjective([ARRAY_KIND], FeedUsize(|ss|, FeedShapes(ss, r)), [ARRAY_KIND], FeedUsize(|us|, FeedShapes(us, t)));
        UsizePeels(|ss|, |us|, FeedShapes(ss, r), FeedShapes(us, t));
        ShapesPeel(ss, us, r, t);
      case (Leaf(k), Leaf(j)) =>
        ConcatInjective([k], r, [j], t);
        assert [k][0] == [j][0];
      case _ =>
        FirstByte(a, r);
        FirstByte(b, t);
        assert false;
    }
  }

  /** The first byte of a value's stream tells structs, arrays and scalars apart. */
  lemma FirstByte(s: Shape, r: Bytes)
    requires ShapeFits(s)
    ensures FeedShape(s, r) != []
    ensures FeedShape(s, r)[0] == STRUCT_KIND <==> s.StructShape?
    ensures FeedShape(s, r)[0] == ARRAY_KIND <==> s.ArrayShape?
  {
    hide FeedUsize, FeedMembers, FeedShapes, MembersFit, ShapesFit;
  }

  lemma {:induction false} MembersPeel(a: seq<Member>, b: seq<Member>, r: Bytes, t: Bytes)
    requires |a| == |b| && MembersFit(a) && MembersFit(b) && FeedMembers(a, r) == FeedMembers(b, t)
    ensures a == b && r == t
    decreases a, 0
  {
    hide FeedText, FeedShape, TextFits, ShapeFits, Le32;
    if a != [] {
      var m, n := a[0], b[0];
      var restA, restB := FeedMembers(a[1..], r), FeedMembers(b[1..], t);
      var shapeA, shapeB := FeedShape(m.shape, restA), FeedShape(n.shape, restB);
      var effA, effB := FeedText(m.effectivePath, shapeA), FeedText(n.effectivePath, shapeB);
      TextPeels(m.path, n.path, Le32(m.nodeId) + effA, Le32(n.nodeId) + effB);
      Word32Peels(m.nodeId, n.nodeId, effA, effB);
      TextPeels(m.effectivePath, n.effectivePath, shapeA, shapeB);
      ShapePeels(m.shape, n.shape, restA, restB);
      MembersPeel(a[1..], b[1..], r, t);
      assert a == [m] + a[1..] && b == [n] + b[1..];
    }
  }

  lemma {:induction false} ShapesPeel(a: seq<Shape>, b: seq<Shape>, r: Bytes, t: Bytes)
    requires |a| == |b| && ShapesFit(a) && ShapesFit(b) && FeedShapes(a, r) == FeedShapes(b, t)
    ensures a == b && r == t
    decreases a, 0
  {
    hide FeedShape, ShapeFits;
    if a != [] {
      ShapePeels(a[0], b[0], FeedShapes(a[1..], r), FeedShapes(b[1..], t));
      ShapesPeel(a[1..], b[1..], r, t);
      assert a == [a[0]] + a[1..] && b == [b[0]] + b[1..];
    }
  }

  lemma {:induction false} ScopesPeel(a: seq<RepeatScope>, b: seq<RepeatScope>, r: Bytes, t: Bytes)
    requires |a| == |b| && ScopesFit(a) && ScopesFit(b) && FeedScopes(a, r) == FeedScopes(b, t)
    ensures a == b && r == t
    decreases |a|
  {
    hide FeedText, Le32, TextFits;
    if a != [] {
      var restA, restB := FeedScopes(a[1..], r), FeedScopes(b[1..], t);
      TextPeels(a[0].path, b[0].path, Le32(a[0].occurrence) + restA, Le32(b[0].occurrence) + restB);
      Word32Peels(a[0].occurrence, b[0].occurrence, restA, restB);
      assert forall i :: 0 <= i < |a[1..]| ==> a[1..][i] == a[i + 1] && b[1..][i] == b[i + 1];
      ScopesPeel(a[1..], b[1..], r, t);
      assert a == [a[0]] + a[1..] && b == [b[0]] + b[1..];
    }
  }

  lemma {:induction false} IndicesPeel(a: seq<nat>, b: seq<nat>, r: Bytes, t: Bytes)
    requires |a| == |b| && FeedIndices(a, r) == FeedIndices(b, t)
    requires forall i :: 0 <= i < |a| ==> a[i] < U64_END && b[i] < U64_END
    ensures a == b && r == t
    decreases |a|
  {
    hide FeedUsize;
    if a != [] {
      UsizePeels(a[0], b[0], FeedIndices(a[1..], r), FeedIndices(b[1..], t));
      IndicesPeel(a[1..], b[1..], r, t);
      assert a == [a[0]] + a[1..] && b == [b[0]] + b[1..];
    }
  }

  lemma SelectionPeels(a: ValueSelection, b: ValueSelection, r: Bytes, t: Bytes)
    requires SelectionFits(a) && SelectionFits(b)
    requires FeedSelections([a], r) == FeedSelections([b], t)
    ensures a == b && r == t
  {
    hide FeedText, FeedUsize, FeedIndices;
    assert FeedSelections([a][1..], r) == r && FeedSelections([b][1..], t) == t;
    var effA, effB := FeedText(a.effectivePath, r), FeedText(b.effectivePath, t);
    var idxA, idxB := FeedIndices(a.arrayIndices, effA), FeedIndices(b.arrayIndices, effB);
    TextPeels(a.schemaPath, b.schemaPath, FeedUsize(|a.arrayIndices|, idxA), FeedUsize(|b.arrayIndices|, idxB));
    UsizePeels(|a.arrayIndices|, |b.arrayIndices|, idxA, idxB);
    IndicesPeel(a.arrayIndices, b.arrayIndices, effA, effB);
    TextPeels(a.effectivePath, b.effectivePath, r, t);
  }

  lemma OneSelection(ss: seq<ValueSelection>, r: Bytes)
    requires ss != []
    ensures FeedSelections(ss, r) == FeedSelections([ss[0]], FeedSelections(ss[1..], r))
  {
    hide FeedText, FeedUsize, FeedIndices;
    assert FeedSelections([ss[0]][1..], FeedSelections(ss[1..], r)) == FeedSelections(ss[1..], r);
  }

  lemma {:induction false} SelectionsPeel(a: seq<ValueSelection>, b: seq<ValueSelection>, r: Bytes, t: Bytes)
    requires |a| == |b| && FeedSelections(a, r) == FeedSelections(b, t)
    requires forall i :: 0 <= i < |a| ==> SelectionFits(a[i]) && SelectionFits(b[i])
    ensures a == b && r == t
    decreases |a|
  {
    if a == [] {
    } else {
      hide FeedSelections, SelectionFits;
      OneSelection(a, r);
      OneSelection(b, t);
      SelectionPeels(a[0], b[0], FeedSelections(a[1..], r), FeedSelections(b[1..], t));
      SelectionsPeel(a[1..], b[1..], r, t);
      assert a == [a[0]] + a[1..] && b == [b[0]] + b[1..];
    }
  }

  lemma SkeletonPeels(a: Skeleton, b: Skeleton, r: Bytes, t: Bytes)
    requires SkeletonFits(a) && SkeletonFits(b) && FeedSkeleton(a, r) == FeedSkeleton(b, t)
    ensures a == b && r == t
  {
    hide FeedUsize, FeedText, FeedShape, FeedScopes, FeedSelections, ShapeFits, ScopesFit, SelectionFits, Le32;
    var shapeA, shapeB := FeedShape(a.shape, r), FeedShape(b.shape, t);
    var selA, selB := FeedSelections(a.valueSelections, shapeA), FeedSelections(b.valueSelections, shapeB);
    var selsA, selsB := FeedUsize(|a.valueSelections|, selA), FeedUsize(|b.valueSelections|, selB);
    var scoA, scoB := FeedScopes(a.repeatScopes, selsA), FeedScopes(b.repeatScopes, selsB);
    var scosA, scosB := FeedUsize(|a.repeatScopes|, scoA), FeedUsize(|b.repeatScopes|, scoB);
    var nodeA, nodeB := Le32(a.nodeId) + (a.subrecordSignature + scosA), Le32(b.nodeId) + (b.subrecordSignature + scosB);
    var effA, effB := FeedText(a.effectivePath, nodeA), FeedText(b.effectivePath, nodeB);
    UsizePeels(a.subrecordIndex, b.subrecordIndex, FeedText(a.path, effA), FeedText(b.path, effB));
    TextPeels(a.path, b.path, effA, effB);
    TextPeels(a.effectivePath, b.effectivePath, nodeA, nodeB);
    Word32Peels(a.nodeId, b.nodeId, a.subrecordSignature + scosA, b.subrecordSignature + scosB);
    ConcatInjective(a.subrecordSignature, scosA, b.subrecordSignature, scosB);
    UsizePeels(|a.repeatScopes|, |b.repeatScopes|, scoA, scoB);
    ScopesPeel(a.repeatScopes, b.repeatScopes, selsA, selsB);
    UsizePeels(|a.valueSelections|, |b.valueSelections|, selA, selB);
    SelectionsPeel(a.valueSelections, b.valueSelections, shapeA, shapeB);
    ShapePeels(a.shape, b.shape, r, t);
  }

  lemma {:induction false} SkeletonsPeel(a: seq<Skeleton>, b: seq<Skeleton>, r: Bytes, t: Bytes)
    requires |a| == |b| && FeedSkeletons(a, r) == FeedSkeletons(b, t)
    requires forall i :: 0 <= i < |a| ==> SkeletonFits(a[i]) && SkeletonFits(b[i])
    ensures a == b && r == t
    decreases |a|
  {
    hide FeedSkeleton, SkeletonFits;
    if a != [] {
      SkeletonPeels(a[0], b[0], FeedSkeletons(a[1..], r), FeedSkeletons(b[1..], t));
      SkeletonsPeel(a[1..], b[1..], r, t);
      assert a == [a[0]] + a[1..] && b == [b[0]] + b[1..];
    }
  }

  lemma StreamsPeel(a: seq<Skeleton>, b: seq<Skeleton>)
    requires SkeletonsFit(a) && SkeletonsFit(b) && Stream(a) == Stream(b)
    ensures a == b
  {
    hide FeedUsize, FeedSkeletons, SkeletonFits;
    ConcatInjective(DOMAIN, FeedUsize(|a|, FeedSkeletons(a, [])), DOMAIN, FeedUsize(|b|, FeedSkeletons(b, [])));
    UsizePeels(|a|, |b|, FeedSkeletons(a, []), FeedSkeletons(b, []));
    SkeletonsPeel(a, b, [], []);
  }

  // --------------------------------------------------------------------------
  // Fields
  // --------------------------------------------------------------------------

  /** The lists and texts inside a value have lengths that fit 64 bits. */
  predicate ValueFits(v: FieldValue)
    decreases v, 0
  {
    match v
    case Struct(fields) => |fields| < U64_END && NamedFit(fields)
    case Array(items) => |items| < U64_END && ValuesFit(items)
    case _ => true
  }

  predicate NamedFit(fs: seq<NamedValue>)
    decreases fs, 0
  {
    fs == []
    || (TextFits(fs[0].path) && TextFits(fs[0].effectivePath.GetOr([])) && ValueFits(fs[0].value) && NamedFit(fs[1..]))
  }

  predicate ValuesFit(vs: seq<FieldValue>)
    decreases vs, 0
  {
    vs == [] || (ValueFits(vs[0]) && ValuesFit(vs[1..]))
  }

  predicate FieldFits(f: Field) {
    && f.subrecordIndex < U64_END && TextFits(f.path) && TextFits(f.effectivePath.GetOr([]))
    && |f.repeatScopes| < U64_END && ScopesFit(f.repeatScopes)
    && |f.valueSelections| < U64_END && (forall i :: 0 <= i < |f.valueSelections| ==> SelectionFits(f.valueSelections[i]))
    && ValueFits(f.value)
  }

  predicate FieldsFit(fs: seq<Field>) {
    |fs| < U64_END && forall i :: 0 <= i < |fs| ==> FieldFits(fs[i])
  }

  /** The shape of a value fits exactly if the value does; no scalar has the kind of a struct or an array. */
  lemma {:induction false} ShapeOfFits(v: FieldValue)
    ensures ShapeFits(ShapeOf(v)) <==> ValueFits(v)
    decreases v, 0
  {
    match v {
      case Struct(fields) => MembersOfFit(fields);
      case Array(items) => ShapesOfFit(items);
      case _ =>
    }
  }

  lemma {:induction false} MembersOfFit(fs: seq<NamedValue>)
    ensures MembersFit(MembersOf(fs)) <==> NamedFit(fs)
    decreases fs, 0
  {
    hide ShapeOf, ShapeFits, ValueFits, TextFits;
    if fs != [] {
      ShapeOfFits(fs[0].value);
      MembersOfFit(fs[1..]);
      assert MembersOf(fs)[1..] == MembersOf(fs[1..]);
    }
  }

  lemma {:induction false} ShapesOfFit(vs: seq<FieldValue>)
    ensures ShapesFit(ShapesOf(vs)) <==> ValuesFit(vs)
    decreases vs, 0
  {
    hide ShapeOf, ShapeFits, ValueFits;
    if vs != [] {
      ShapeOfFits(vs[0]);
      ShapesOfFit(vs[1..]);
      assert ShapesOf(vs)[1..] == ShapesOf(vs[1..]);
    }
  }

  lemma SkeletonsOfFit(fs: seq<Field>)
    requires FieldsFit(fs)
    ensures SkeletonsFit(SkeletonsOf(fs))
  {
    hide ShapeOf, ShapeFits, ValueFits, TextFits, SelectionFits, ScopesFit;
    forall i | 0 <= i < |fs|
      ensures SkeletonFits(SkeletonOf(fs[i]))
    {
      ShapeOfFits(fs[i].value);
    }
  }

  // --------------------------------------------------------------------------
  // Structure, as a relation between fields
  // --------------------------------------------------------------------------

  /** Scalars of one kind, or structs or arrays that are similar part by part; struct members keep their identity. */
  ghost predicate Similar(v: FieldValue, w: FieldValue)
    decreases v, 0
  {
    match v
    case Int(_) => w.Int?
    case UInt(_) => w.UInt?
    case Float(_) => w.Float?
    case String(_) => w.String?
    case FormIdValue(_, _) => w.FormIdValue?
    case Enumeration(_, _) => w.Enumeration?
    case Flags(_, _) => w.Flags?
    case BytesValue(_) => w.BytesValue?
    case Struct(fs) => w.Struct? && SimilarMembers(fs, w.fields)
    case Array(vs) => w.Array? && AllSimilar(vs, w.items)
    case Absent => w.Absent?
  }

  ghost predicate SimilarMembers(fs: seq<NamedValue>, gs: seq<NamedValue>)
    decreases fs, 0
  {
    if fs == [] then gs == []
    else gs != [] && fs[0].path == gs[0].path && fs[0].nodeId == gs[0].nodeId
         && SamePath(fs[0].effectivePath, gs[0].effectivePath) && Similar(fs[0].value, gs[0].value)
         && SimilarMembers(fs[1..], gs[1..])
  }

  ghost predicate AllSimilar(vs: seq<FieldValue>, ws: seq<FieldValue>)
    decreases vs, 0
  {
    if vs == [] then ws == [] else ws != [] && Similar(vs[0], ws[0]) && AllSimilar(vs[1..], ws[1..])
  }

  /** No effective path counts as an empty one. */
  predicate SamePath(a: Option<Bytes>, b: Option<Bytes>) {
    a == b || (a in {None, Some([])} && b in {None, Some([])})
  }

  /** Same place, same schema node, same scopes and selections, and similar values; names, offsets and scalars do not matter. */
  ghost predicate SameStructure(f: Field, g: Field) {
    && f.subrecordIndex == g.subrecordIndex && f.path == g.path && SamePath(f.effectivePath, g.effectivePath)
    && f.nodeId == g.nodeId && f.subrecordSignature == g.subrecordSignature
    && f.repeatScopes == g.repeatScopes && f.valueSelections == g.valueSelections
    && Similar(f.value, g.value)
  }

  lemma {:induction false} ShapeTells(v: FieldValue, w: FieldValue)
    ensures ShapeOf(v) == ShapeOf(w) <==> Similar(v, w)
    decreases v, 0
  {
    hide MembersOf, ShapesOf, SimilarMembers, AllSimilar;
    match v {
      case Struct(fs) =>
        if w.Struct? {
          MembersTell(fs, w.fields);
        }
      case Array(vs) =>
        if w.Array? {
          ShapesTell(vs, w.items);
        }
      case _ =>
    }
  }

  lemma {:induction false} MembersTell(fs: seq<NamedValue>, gs: seq<NamedValue>)
    ensures MembersOf(fs) == MembersOf(gs) <==> SimilarMembers(fs, gs)
    decreases fs, 0
  {
    hide ShapeOf, Similar;
    if fs != [] && gs != [] {
      ShapeTells(fs[0].value, gs[0].value);
      MembersTell(fs[1..], gs[1..]);
      var a, b := MembersOf(fs), MembersOf(gs);
      assert a == [a[0]] + MembersOf(fs[1..]) && b == [b[0]] + MembersOf(gs[1..]);
      ConcatInjective([a[0]], MembersOf(fs[1..]), [b[0]], MembersOf(gs[1..]));
      assert a[0] == b[0] <==> [a[0]] == [b[0]] by {
        assert [a[0]][0] == a[0] && [b[0]][0] == b[0];
      }
    }
  }

  lemma {:induction false} ShapesTell(vs: seq<FieldValue>, ws: seq<FieldValue>)
    ensures ShapesOf(vs) == ShapesOf(ws) <==> AllSimilar(vs, ws)
    decreases vs, 0
  {
    hide ShapeOf, Similar;
    if vs != [] && ws != [] {
      ShapeTells(vs[0], ws[0]);
      ShapesTell(vs[1..], ws[1..]);
      var a, b := ShapesOf(vs), ShapesOf(ws);
      assert a == [a[0]] + ShapesOf(vs[1..]) && b == [b[0]] + ShapesOf(ws[1..]);
      ConcatInjective([a[0]], ShapesOf(vs[1..]), [b[0]], ShapesOf(ws[1..]));
      assert a[0] == b[0] <==> [a[0]] == [b[0]] by {
        assert [a[0]][0] == a[0] && [b[0]][0] == b[0];
      }
    }
  }

  ghost predicate AllSameStructure(a: seq<Field>, b: seq<Field>) {
    |a| == |b| && forall i :: 0 <= i < |a| ==> SameStructure(a[i], b[i])
  }

  lemma SkeletonsTell(a: seq<Field>, b: seq<Field>)
    ensures SkeletonsOf(a) == SkeletonsOf(b) <==> AllSameStructure(a, b)
  {
    hide ShapeOf, Similar;
    var s, t := SkeletonsOf(a), SkeletonsOf(b);
    assert |s| == |a| && |t| == |b|;
    if |a| == |b| {
      forall i | 0 <= i < |a|
        ensures s[i] == t[i] <==> SameStructure(a[i], b[i])
      {
        ShapeTells(a[i].value, b[i].value);
      }
      if AllSameStructure(a, b) {
        assert forall i :: 0 <= i < |s| ==> s[i] == t[i];
      }
    }
  }

  /**
   Main result: two field lists feed the digest the same bytes exactly when they
   have the same structure, field by field.
   */
  lemma StreamIdentifiesStructure(a: seq<Field>, b: seq<Field>)
    requires FieldsFit(a) && FieldsFit(b)
    ensures Stream(SkeletonsOf(a)) == Stream(SkeletonsOf(b)) <==> AllSameStructure(a, b)
  {
    hide Stream, SkeletonOf, SkeletonsFit, FieldsFit, AllSameStructure;
    SkeletonsOfFit(a);
    SkeletonsOfFit(b);
    SkeletonsTell(a, b);
    if Stream(SkeletonsOf(a)) == Stream(SkeletonsOf(b)) {
      StreamsPeel(SkeletonsOf(a), SkeletonsOf(b));
    }
  }

  // --------------------------------------------------------------------------
  // Scalar edits and shape changes
  // --------------------------------------------------------------------------

  /** Replaces the value reached by member and item positions. */
  function Replaced(v: FieldValue, steps: seq<nat>, w: FieldValue): FieldValue
    decreases |steps|
  {
    if steps == [] then w
    else
      match v
      case Struct(fs) =>
        if steps[0] < |fs| then Struct(fs[steps[0] := fs[steps[0]].(value := Replaced(fs[steps[0]].value, steps[1..], w))]) else v
      case Array(vs) =>
        if steps[0] < |vs| then Array(vs[steps[0] := Replaced(vs[steps[0]], steps[1..], w)]) else v
      case _ => v
  }

  function At(v: FieldValue, steps: seq<nat>): Option<FieldValue>
    decreases |steps|
  {
    if steps == [] then Some(v)
    else
      match v
      case Struct(fs) => if steps[0] < |fs| then At(fs[steps[0]].value, steps[1..]) else None
      case Array(vs) => if steps[0] < |vs| then At(vs[steps[0]], steps[1..]) else None
      case _ => None
  }

  lemma {:induction false} MembersAt(fs: seq<NamedValue>)
    ensures forall i :: 0 <= i < |fs| ==>
              MembersOf(fs)[i] == Member(fs[i].path, fs[i].nodeId, fs[i].effectivePath.GetOr([]), ShapeOf(fs[i].value))
    decreases |fs|
  {
    hide ShapeOf;
    if fs != [] {
      MembersAt(fs[1..]);
    }
  }

  lemma {:induction false} ShapesAt(vs: seq<FieldValue>)
    ensures forall i :: 0 <= i < |vs| ==> ShapesOf(vs)[i] == ShapeOf(vs[i])
    decreases |vs|
  {
    hide ShapeOf;
    if vs != [] {
      ShapesAt(vs[1..]);
    }
  }

  /**
   Editing one value anywhere in a tree keeps the shape of the tree exactly when
   the new value has the shape of the old one; any two scalars of one kind do.
   */
  lemma {:induction false} EditKeepsShape(v: FieldValue, steps: seq<nat>, w: FieldValue)
    requires At(v, steps).Some?
    ensures ShapeOf(Replaced(v, steps, w)) == ShapeOf(v) <==> ShapeOf(w) == ShapeOf(At(v, steps).value)
    decreases |steps|
  {
    if steps != [] {
      hide ShapeOf, MembersOf, ShapesOf;
      var k := steps[0];
      match v {
        case Struct(fs) =>
          EditKeepsShape(fs[k].value, steps[1..], w);
          var gs := fs[k := fs[k].(value := Replaced(fs[k].value, steps[1..], w))];
          ListShape(v, fs, []);
          ListShape(Replaced(v, steps, w), gs, []);
          MembersAt(fs);
          MembersAt(gs);
          if ShapeOf(gs[k].value) == ShapeOf(fs[k].value) {
            assert MembersOf(gs) == MembersOf(fs);
          } else {
            assert MembersOf(gs)[k] != MembersOf(fs)[k];
          }
        case Array(vs) =>
          EditKeepsShape(vs[k], steps[1..], w);
          var us := vs[k := Replaced(vs[k], steps[1..], w)];
          ListShape(v, [], vs);
          ListShape(Replaced(v, steps, w), [], us);
          ShapesAt(vs);
          ShapesAt(us);
          if ShapeOf(us[k]) == ShapeOf(vs[k]) {
            assert ShapesOf(us) == ShapesOf(vs);
          } else {
            assert ShapesOf(us)[k] != ShapesOf(vs)[k];
          }
      }
    }
  }

  lemma ListShape(v: FieldValue, fs: seq<NamedValue>, vs: seq<FieldValue>)
    ensures v == Struct(fs) ==> ShapeOf(v) == StructShape(MembersOf(fs))
    ensures v == Array(vs) ==> ShapeOf(v) == ArrayShape(ShapesOf(vs))
  {
    hide MembersOf, ShapesOf;
  }

  // --------------------------------------------------------------------------
  // Hexadecimal form
  // --------------------------------------------------------------------------

  lemma HexDigitsDiffer(m: nat, n: nat)
    requires m < 16 && n < 16 && HexDigit(m) == HexDigit(n)
    ensures m == n
  {
  }

  /** Equal hexadecimal forms come from equal digests. */
  lemma {:induction false} HexInjective(a: Bytes, b: Bytes)
    ensures Hex(a) == Hex(b) <==> a == b
    decreases |a|
  {
    hide HexDigit;
    if Hex(a) == Hex(b) && a != [] {
      assert |a| == |b|;
      var s, t := Hex(a), Hex(b);
      assert s[0] == HexDigit(a[0] / 16) && s[1] == HexDigit(a[0] % 16);
      assert t[0] == HexDigit(b[0] / 16) && t[1] == HexDigit(b[0] % 16);
      HexDigitsDiffer(a[0] / 16, b[0] / 16);
      HexDigitsDiffer(a[0] % 16, b[0] % 16);
      assert s[2..] == Hex(a[1..]) && t[2..] == Hex(b[1..]);
      HexInjective(a[1..], b[1..]);
      assert a == [a[0]] + a[1..] && b == [b[0]] + b[1..];
    }
  }

  /** Two structure hashes are equal exactly for equal structure, unless the digest function collides on the two streams. */
  lemma HashIdentifiesStructure(sha: Bytes -> Bytes, a: seq<Field>, b: seq<Field>)
    requires FieldsFit(a) && FieldsFit(b)
    ensures Hex(sha(Stream(SkeletonsOf(a)))) == Hex(sha(Stream(SkeletonsOf(b))))
            <==> AllSameStructure(a, b)
                 || (Stream(SkeletonsOf(a)) != Stream(SkeletonsOf(b)) && sha(Stream(SkeletonsOf(a))) == sha(Stream(SkeletonsOf(b))))
  {
    hide Stream, SkeletonOf, FieldsFit, Hex, AllSameStructure;
    StreamIdentifiesStructure(a, b);
    HexInjective(sha(Stream(SkeletonsOf(a))), sha(Stream(SkeletonsOf(b))));
  }

  // --------------------------------------------------------------------------
  // The stream in literal bytes
  // --------------------------------------------------------------------------

  /** Every stream starts with the name of its format. */
  lemma DomainName(ss: seq<Skeleton>)
    ensures var name := "bethkit-field-address-v1";
            |Stream(ss)| >= |name| && forall i :: 0 <= i < |name| ==> Stream(ss)[i] == name[i] as int
  {
    hide FeedUsize, FeedSkeletons;
  }

  /** The kinds of values are numbered; only structs and arrays have anything behind their kind. */
  lemma KindBytes(v: FieldValue, rest: Bytes)
    ensures var fed := FeedShape(ShapeOf(v), rest);
            && (v.Int? ==> fed == [0] + rest)
            && (v.UInt? ==> fed == [1] + rest)
            && (v.Float? ==> fed == [2] + rest)
            && (v.String? ==> fed == [3] + rest)
            && (v.FormIdValue? ==> fed == [4] + rest)
            && (v.Enumeration? ==> fed == [5] + rest)
            && (v.Flags? ==> fed == [6] + rest)
            && (v.BytesValue? ==> fed == [7] + rest)
            && (v.Struct? ==> fed == [8] + (Le64(|v.fields| % 0x1_0000_0000_0000_0000) + FeedMembers(MembersOf(v.fields), rest)))
            && (v.Array? ==> fed == [9] + (Le64(|v.items| % 0x1_0000_0000_0000_0000) + FeedShapes(ShapesOf(v.items), rest)))
            && (v.Absent? ==> fed == [10] + rest)
  {
    hide Le64, FeedMembers, FeedShapes, MembersOf, ShapesOf;
  }

  lemma DigitCode(n: nat)
    requires n < 16
    ensures HexDigit(n) as int == n + (if n < 10 then 48 else 87)
  {
  }

  /** Digits and letters of the hexadecimal form. */
  lemma {:induction false} HexDigits(d: Bytes, i: nat)
    requires i < |d|
    ensures var high, low := d[i] as int / 16, d[i] as int % 16;
            Hex(d)[2 * i] as int == high + (if high < 10 then 48 else 87)
            && Hex(d)[2 * i + 1] as int == low + (if low < 10 then 48 else 87)
    decreases i
  {
    hide HexDigit;
    if i > 0 {
      HexDigits(d[1..], i - 1);
      assert Hex(d)[2..] == Hex(d[1..]);
    } else {
      DigitCode(d[0] as int / 16);
      DigitCode(d[0] as int % 16);
    }
  }
}
