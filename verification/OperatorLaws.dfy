/**
 What schema expressions compute, operator by operator, in terms of the values
 of their operands: laws that determine each result without computing it the
 same way.
 */
module OperatorLaws {
  import opened Wire
  import opened Records
  import opened Expression
  import Flags

  const MIN: int := -0x8000_0000_0000_0000
  const MAX: int := 0x7FFF_FFFF_FFFF_FFFF

  function On(op: Operator, l: Expression, r: Expression, ctx: Context): Outcome<EvalValue> {
    Eval(Binary(op, l, r), ctx)
  }

  ghost predicate HasInts(l: Expression, r: Expression, ctx: Context, a: I64, b: I64) {
    Eval(l, ctx) == Val(Int(a)) && Eval(r, ctx) == Val(Int(b))
  }

  /** One step of evaluation for operands that are known integers. */
  lemma Unfolds(op: Operator, l: Expression, r: Expression, ctx: Context, a: I64, b: I64)
    requires HasInts(l, r, ctx, a, b)
    ensures On(op, l, r, ctx) == Apply(op, Int(a), Int(b))
  {
    OneOperand(op, l, ctx, Int(a));
    OneOperand(op, r, ctx, Int(b));
    hide Apply, Operand;
  }

  lemma OneOperand(op: Operator, e: Expression, ctx: Context, v: EvalValue)
    requires Eval(e, ctx) == Val(v)
    ensures Operand(op, e, ctx) == if NeedsInts(op) && v.Bool? then Fails(ExpectedInt) else Val(v)
  {
    hide Eval;
  }

  // --------------------------------------------------------------------------
  // Comparison
  // --------------------------------------------------------------------------

  predicate ShortBy(a: int, d: int, b: int) {
    d > 0 && a + d == b
  }

  /** Less means that something positive is missing. */
  lemma LessThanLaw(l: Expression, r: Expression, ctx: Context, a: I64, b: I64)
    requires HasInts(l, r, ctx, a, b)
    ensures On(LessThan, l, r, ctx) == Val(Bool(true)) <==> exists d :: ShortBy(a, d, b)
    ensures On(LessThan, l, r, ctx) == Val(Bool(false)) <==> a == b || exists d :: ShortBy(b, d, a)
  {
    Unfolds(LessThan, l, r, ctx, a, b);
    if a < b {
      assert ShortBy(a, b - a, b);
    } else {
      assert a == b || ShortBy(b, a - b, a);
    }
  }

  /** Equality holds exactly between values of one type with one content; inequality is its opposite. */
  lemma EqualityLaw(l: Expression, r: Expression, ctx: Context, a: EvalValue, b: EvalValue)
    requires Eval(l, ctx) == Val(a) && Eval(r, ctx) == Val(b)
    ensures On(Equal, l, r, ctx) == Val(Bool(true))
            <==> (a.Int? && b.Int? && a.number == b.number) || (a.Bool? && b.Bool? && (a.flag <==> b.flag))
    ensures On(Equal, l, r, ctx) == Val(Bool(true)) <==> On(NotEqual, l, r, ctx) == Val(Bool(false))
    ensures On(Equal, l, r, ctx) == Val(Bool(false)) <==> On(NotEqual, l, r, ctx) == Val(Bool(true))
    ensures On(Equal, l, r, ctx) in {Val(Bool(true)), Val(Bool(false))}
  {
    OneOperand(Equal, l, ctx, a);
    OneOperand(Equal, r, ctx, b);
    OneOperand(NotEqual, l, ctx, a);
    OneOperand(NotEqual, r, ctx, b);
    hide Operand;
  }

  // --------------------------------------------------------------------------
  // Sums, differences, products
  // --------------------------------------------------------------------------

  /** A sum is the one integer from which taking `b` leaves `a`; it overflows if 64 bits hold no such integer. */
  lemma SumLaw(l: Expression, r: Expression, ctx: Context, a: I64, b: I64)
    requires HasInts(l, r, ctx, a, b)
    ensures forall n: I64 :: On(Add, l, r, ctx) == Val(Int(n)) <==> n as int - b == a
    ensures On(Add, l, r, ctx) == Fails(Overflow) <==> !(MIN <= a as int + b <= MAX)
    ensures On(Add, l, r, ctx) == On(Add, r, l, ctx)
  {
    Unfolds(Add, l, r, ctx, a, b);
    Unfolds(Add, r, l, ctx, b, a);
  }

  /** A difference is the one integer that, added to `b`, gives `a`. */
  lemma DifferenceLaw(l: Expression, r: Expression, ctx: Context, a: I64, b: I64)
    requires HasInts(l, r, ctx, a, b)
    ensures forall n: I64 :: On(Subtract, l, r, ctx) == Val(Int(n)) <==> n as int + b == a
    ensures On(Subtract, l, r, ctx) == Fails(Overflow) <==> !(exists n: I64 :: On(Subtract, l, r, ctx) == Val(Int(n)))
  {
    Unfolds(Subtract, l, r, ctx, a, b);
    if MIN <= a as int - b <= MAX {
      var n: I64 := a as int - b;
      assert On(Subtract, l, r, ctx) == Val(Int(n));
    }
  }

  /** `a`, added up `times` times. */
  function AddedUp(a: int, times: nat): int {
    if times == 0 then 0 else a + AddedUp(a, times - 1)
  }

  lemma {:induction false} AddedUpIsProduct(a: int, times: nat)
    ensures AddedUp(a, times) == a * times
    decreases times
  {
    if times > 0 {
      AddedUpIsProduct(a, times - 1);
      assert a * times == a * (times - 1) + a;
    }
  }

  function Abs(n: int): nat {
    if n < 0 then -n else n
  }

  /** What a product has to be: repeated addition, negated for a negative factor. */
  function Repeated(a: int, b: int): int {
    if b < 0 then -AddedUp(a, Abs(b)) else AddedUp(a, Abs(b))
  }

  lemma RepeatedIsProduct(a: int, b: int)
    ensures Repeated(a, b) == a * b
  {
    AddedUpIsProduct(a, Abs(b));
    assert a * -b == -(a * b);
  }

  lemma ProductLaw(l: Expression, r: Expression, ctx: Context, a: I64, b: I64)
    requires HasInts(l, r, ctx, a, b)
    ensures forall n: I64 :: On(Multiply, l, r, ctx) == Val(Int(n)) <==> n as int == Repeated(a, b)
    ensures On(Multiply, l, r, ctx) == Fails(Overflow) <==> !(MIN <= Repeated(a, b) <= MAX)
  {
    hide Repeated;
    Unfolds(Multiply, l, r, ctx, a, b);
    RepeatedIsProduct(a, b);
  }

  // --------------------------------------------------------------------------
  // Quotients
  // --------------------------------------------------------------------------

  /** `q` is `a` by `b`, cut off toward zero. */
  predicate CutOff(a: int, b: int, q: int) {
    && Abs(q) * Abs(b) <= Abs(a) < Abs(q) * Abs(b) + Abs(b)
    && (q > 0 ==> (a > 0 <==> b > 0))
    && (q < 0 ==> (a > 0 <==> b < 0))
  }

  lemma TruncIsCutOff(a: int, b: int)
    requires b != 0
    ensures CutOff(a, b, TruncDiv(a, b))
    ensures Abs(TruncDiv(a, b)) == Abs(a) / Abs(b)
  {
    var x, y := Abs(a), Abs(b);
    EuclidOfNegative(x, y);
    var t, m := x / y, x % y;
    assert x == y * t + m;
    assert t * y == y * t;
  }

  /** Dividing a natural number by a negative one negates the quotient. */
  lemma EuclidOfNegative(x: int, y: int)
    requires x >= 0 && y > 0
    ensures x / -y == -(x / y)
  {
    var q, m := x / -y, x % -y;
    assert x == -y * q + m;
    assert -y * q == y * -q;
    Flags.Quotient(x, y, -q, m);
  }

  lemma CutOffUnique(a: int, b: int, q: int)
    requires b != 0 && CutOff(a, b, q)
    ensures q == TruncDiv(a, b)
  {
    TruncIsCutOff(a, b);
    var t := TruncDiv(a, b);
    assert Abs(q) * Abs(b) == Abs(b) * Abs(q);
    Flags.Quotient(Abs(a), Abs(b), Abs(q), Abs(a) - Abs(b) * Abs(q));
    assert Abs(q) == Abs(t);
  }

  /** A quotient is cut off toward zero; there is none for zero, and one that 64 bits do not hold. */
  lemma QuotientLaw(l: Expression, r: Expression, ctx: Context, a: I64, b: I64)
    requires HasInts(l, r, ctx, a, b)
    ensures forall q: I64 :: On(Divide, l, r, ctx) == Val(Int(q)) <==> b != 0 && CutOff(a, b, q)
    ensures On(Divide, l, r, ctx) == Fails(Overflow) <==> b == 0 || (a as int == MIN && b == -1)
  {
    hide TruncDiv, CutOff;
    Unfolds(Divide, l, r, ctx, a, b);
    if b != 0 {
      TruncIsCutOff(a, b);
      forall q: I64 | CutOff(a, b, q)
        ensures q as int == TruncDiv(a, b)
      {
        CutOffUnique(a, b, q);
      }
      QuotientRange(a, b);
    }
  }

  lemma QuotientRange(a: I64, b: I64)
    requires b != 0
    ensures MIN <= TruncDiv(a, b) <= MAX <==> !(a as int == MIN && b == -1)
  {
    TruncIsCutOff(a, b);
    Smaller(Abs(TruncDiv(a, b)), Abs(b), Abs(a));
  }

  lemma Smaller(q: nat, y: nat, x: nat)
    requires q * y <= x < q * y + y
    ensures y == 1 ==> q == x
    ensures y > 1 ==> 2 * q <= x
  {
    if y > 1 {
      assert q * y == 2 * q + q * (y - 2);
    }
  }

  /** Multiplying a sum is adding products, as long as all of them are in range. */
  lemma Distributes(l: Expression, r: Expression, x: Expression, ctx: Context, a: I64, b: I64, c: I64)
    requires HasInts(l, r, ctx, a, b) && Eval(x, ctx) == Val(Int(c))
    requires On(Add, l, r, ctx).Val? && On(Multiply, l, x, ctx).Val? && On(Multiply, r, x, ctx).Val?
    ensures On(Multiply, Binary(Add, l, r), x, ctx) == On(Add, Binary(Multiply, l, x), Binary(Multiply, r, x), ctx)
  {
    hide Eval;
    Unfolds(Add, l, r, ctx, a, b);
    Unfolds(Multiply, l, x, ctx, a, c);
    Unfolds(Multiply, r, x, ctx, b, c);
    var s, p, q := On(Add, l, r, ctx).value.number, On(Multiply, l, x, ctx).value.number, On(Multiply, r, x, ctx).value.number;
    Unfolds(Multiply, Binary(Add, l, r), x, ctx, s, c);
    Unfolds(Add, Binary(Multiply, l, x), Binary(Multiply, r, x), ctx, p, q);
    assert s * c == a * c + b * c;
  }

  /** An operand that fails, or a truth value where a number is needed, is reported, the left one first. */
  lemma OperandFaults(op: Operator, l: Expression, r: Expression, ctx: Context)
    ensures var number := op in {LessThan, Add, Subtract, Multiply, Divide};
            var bad := (v: Outcome<EvalValue>) => v.Fails? || (number && v.value.Bool?);
            var fault := (v: Outcome<EvalValue>) => if v.Fails? then v.fault else ExpectedInt;
            && (bad(Eval(l, ctx)) ==> On(op, l, r, ctx) == Fails(fault(Eval(l, ctx))))
            && (!bad(Eval(l, ctx)) && bad(Eval(r, ctx)) ==> On(op, l, r, ctx) == Fails(fault(Eval(r, ctx))))
  {
    OperandIs(op, l, ctx);
    OperandIs(op, r, ctx);
    hide Operand, Apply;
  }

  lemma OperandIs(op: Operator, e: Expression, ctx: Context)
    ensures Operand(op, e, ctx) == match Eval(e, ctx)
                                   case Fails(f) => Fails(f)
                                   case Val(v) => if NeedsInts(op) && v.Bool? then Fails(ExpectedInt) else Val(v)
  {
    hide Eval;
  }

  // --------------------------------------------------------------------------
  // Truth values and branches
  // --------------------------------------------------------------------------

  lemma BoolIs(e: Expression, ctx: Context)
    ensures BoolOf(e, ctx) == match Eval(e, ctx)
                              case Fails(f) => Fails(f)
                              case Val(Bool(b)) => Val(b)
                              case Val(Int(_)) => Fails(ExpectedBool)
  {
    hide Eval;
  }

  lemma IntIs(e: Expression, ctx: Context)
    ensures IntOf(e, ctx) == match Eval(e, ctx)
                             case Fails(f) => Fails(f)
                             case Val(Int(n)) => Val(n)
                             case Val(Bool(_)) => Fails(ExpectedInt)
  {
    hide Eval;
  }

  /** Negation swaps the truth values, branching takes the side its condition names; neither accepts a number. */
  lemma BranchLaw(c: Expression, t: Expression, f: Expression, ctx: Context)
    ensures Eval(c, ctx) == Val(Bool(true)) ==> Eval(Select(c, t, f), ctx) == Eval(t, ctx) && Eval(Not(c), ctx) == Val(Bool(false))
    ensures Eval(c, ctx) == Val(Bool(false)) ==> Eval(Select(c, t, f), ctx) == Eval(f, ctx) && Eval(Not(c), ctx) == Val(Bool(true))
    ensures Eval(c, ctx).Val? && Eval(c, ctx).value.Int? ==>
              Eval(Select(c, t, f), ctx) == Fails(ExpectedBool) && Eval(Not(c), ctx) == Fails(ExpectedBool)
    ensures Eval(c, ctx).Fails? ==> Eval(Select(c, t, f), ctx) == Eval(Not(c), ctx) == Eval(c, ctx)
  {
    BoolIs(c, ctx);
    hide BoolOf;
  }

  ghost predicate AllBools(vs: seq<Expression>, ctx: Context) {
    forall i :: 0 <= i < |vs| ==> Eval(vs[i], ctx) in {Val(Bool(true)), Val(Bool(false))}
  }

  /** A conjunction of truth values is true if all are, a disjunction if one is. */
  lemma JunctionLaw(vs: seq<Expression>, ctx: Context)
    requires AllBools(vs, ctx)
    ensures Eval(And(vs), ctx) == Val(Bool(forall i :: 0 <= i < |vs| ==> Eval(vs[i], ctx) == Val(Bool(true))))
    ensures Eval(Or(vs), ctx) == Val(Bool(exists i :: 0 <= i < |vs| && Eval(vs[i], ctx) == Val(Bool(true))))
  {
    AllOperands(vs, ctx, true);
    AllOperands(vs, ctx, false);
    hide EvalAll;
  }

  lemma {:induction false} AllOperands(vs: seq<Expression>, ctx: Context, neutral: bool)
    requires AllBools(vs, ctx)
    ensures EvalAll(vs, ctx, neutral)
         == Val(Bool(if neutral then forall i :: 0 <= i < |vs| ==> Eval(vs[i], ctx) == Val(Bool(true))
                     else exists i :: 0 <= i < |vs| && Eval(vs[i], ctx) == Val(Bool(true))))
    decreases |vs|
  {
    hide Eval, BoolOf;
    if vs != [] {
      BoolIs(vs[0], ctx);
      assert forall i :: 0 <= i < |vs| - 1 ==> vs[1..][i] == vs[i + 1];
      AllOperands(vs[1..], ctx, neutral);
      if exists i :: 0 <= i < |vs[1..]| && Eval(vs[1..][i], ctx) == Val(Bool(true)) {
        var i :| 0 <= i < |vs[1..]| && Eval(vs[1..][i], ctx) == Val(Bool(true));
        assert Eval(vs[i + 1], ctx) == Val(Bool(true));
      }
    }
  }

  // --------------------------------------------------------------------------
  // Bits and tables
  // --------------------------------------------------------------------------

  /** Bit `bit` is the binary digit of that weight, negative numbers in two's complement; there are 64 of them. */
  lemma BitLaw(v: Expression, ctx: Context, n: I64, bit: Byte)
    requires Eval(v, ctx) == Val(Int(n))
    ensures Eval(BitSet(v, bit), ctx) == if bit < 64 then Val(Bool(n as int / Flags.Pow2(bit) % 2 == 1)) else Fails(BadBitIndex)
  {
    IntIs(v, ctx);
    hide IntOf, Flags.Bit, Flags.Pow2;
    if bit < 64 {
      SixtyFour();
      if n >= 0 {
        Flags.BitIsDigit(n, bit);
      } else {
        Flags.ComplementDigit(n, 64, bit);
      }
    }
  }

  /** How many of the lowest `width` bit tests of `v` succeed. */
  function BitsFound(v: Expression, ctx: Context, width: nat): nat
    requires width <= 64
  {
    if width == 0 then 0
    else BitsFound(v, ctx, width - 1) + if Eval(BitSet(v, width - 1), ctx) == Val(Bool(true)) then 1 else 0
  }

  /** Counting bits counts the bit tests that succeed. */
  lemma BitCountLaw(v: Expression, ctx: Context, n: I64)
    requires Eval(v, ctx) == Val(Int(n))
    ensures BitsFound(v, ctx, 64) <= 64 && Eval(BitCount(v), ctx) == Val(Int(BitsFound(v, ctx, 64)))
  {
    IntIs(v, ctx);
    hide IntOf, Flags.Bit, Flags.Pow2, Ones, BitsFound;
    SixtyFour();
    PatternOnes(n);
    OnesAreBits(Pattern(n), 64);
    FoundAreSet(v, ctx, n, 64);
  }

  lemma {:induction false} FoundAreSet(v: Expression, ctx: Context, n: I64, width: nat)
    requires Eval(v, ctx) == Val(Int(n)) && width <= 64
    ensures BitsFound(v, ctx, width) == BitsSet(Pattern(n), width)
    decreases width
  {
    hide Flags.Bit, Pattern;
    if width > 0 {
      OneBitTest(v, ctx, n, width - 1);
      FoundAreSet(v, ctx, n, width - 1);
    }
  }

  lemma OneBitTest(v: Expression, ctx: Context, n: I64, bit: Byte)
    requires Eval(v, ctx) == Val(Int(n)) && bit < 64
    ensures Eval(BitSet(v, bit), ctx) == Val(Bool(Flags.Bit(Pattern(n), bit)))
  {
    IntIs(v, ctx);
    hide IntOf, Flags.Bit, Pattern;
  }

  /** No case before `k` has the key. */
  ghost predicate NoneBefore(cases: seq<LookupCase>, key: I64, k: int) {
    forall j :: 0 <= j < k && j < |cases| ==> cases[j].input != key
  }

  /** A table yields the output of its first case for the key, or the default if there is none. */
  lemma LookupLaw(v: Expression, cases: seq<LookupCase>, default: I64, ctx: Context, key: I64, k: nat)
    requires Eval(v, ctx) == Val(Int(key)) && k <= |cases| && NoneBefore(cases, key, k)
    requires k < |cases| ==> cases[k].input == key
    ensures Eval(IntegerLookup(v, cases, default), ctx) == Val(Int(if k < |cases| then cases[k].output else default))
  {
    IntIs(v, ctx);
    hide IntOf, NoneBefore;
    FirstCase(cases, key, default, k);
    hide LookUp;
  }

  lemma {:induction false} FirstCase(cases: seq<LookupCase>, key: I64, default: I64, k: nat)
    requires k <= |cases| && NoneBefore(cases, key, k) && (k < |cases| ==> cases[k].input == key)
    ensures LookUp(cases, key, default) == if k < |cases| then cases[k].output else default
    decreases k
  {
    if k > 0 {
      assert forall i :: 0 <= i < |cases| - 1 ==> cases[1..][i] == cases[i + 1];
      FirstCase(cases[1..], key, default, k - 1);
    }
  }

  // --------------------------------------------------------------------------
  // Reading the payload
  // --------------------------------------------------------------------------

  /** The weight of the `k`-th byte. */
  function Weight(k: nat): nat
    ensures Weight(k) > 0
  {
    if k == 0 then 1 else 0x100 * Weight(k - 1)
  }

  /** The digits above the lowest one are those of the rest. */
  lemma HigherDigit(low: Byte, rest: nat, d: nat)
    requires d > 0
    ensures (low + 0x100 * rest) / (0x100 * d) == rest / d
  {
    var q, r := rest / d, rest % d;
    assert rest == d * q + r;
    assert 0x100 * (d * q) == (0x100 * d) * q;
    Flags.Quotient(low + 0x100 * rest, 0x100 * d, q, 0x100 * r + low);
  }

  lemma {:induction false} BelowWeight(b: Bytes)
    ensures LeValue(b) < Weight(|b|)
    decreases |b|
  {
    if b != [] {
      BelowWeight(b[1..]);
    }
  }

  lemma {:induction false} DigitsOf(b: Bytes, k: nat)
    requires k < |b|
    ensures LeValue(b) / Weight(k) % 0x100 == b[k]
    decreases |b|
  {
    if k > 0 {
      DigitsOf(b[1..], k - 1);
      HigherDigit(b[0], LeValue(b[1..]), Weight(k - 1));
    }
  }

  /**
   Reading `width` bytes yields the number whose base-256 digits are those bytes,
   the first one least significant. It fails beyond the payload, for a width that
   is not 1, 2, 4 or 8, and for a number beyond 63 bits, in that order.
   */
  lemma ReadLaw(ctx: Context, offset: U32, width: Byte)
    ensures var r, inside := Eval(ReadUnsigned(offset, width), ctx), offset as int + width as int <= |ctx.payload|;
            && (r.Val? ==> inside && width in {1, 2, 4, 8} && r.value.Int? && 0 <= r.value.number as int < Weight(width)
                           && forall k :: 0 <= k < width ==> r.value.number as int / Weight(k) % 0x100 == ctx.payload[offset + k])
            && (r == Fails(ReadOutOfRange) <==> !inside)
            && (r == Fails(UnsupportedWidth) <==> inside && width !in {1, 2, 4, 8})
            && (r == Fails(TooLarge) <==> inside && width == 8 && ctx.payload[offset + 7] >= 0x80)
            && (r.Fails? ==> r.fault in {ReadOutOfRange, UnsupportedWidth, TooLarge})
  {
    hide LeValue, Weight;
    if offset as int + width as int <= |ctx.payload| && width in {1, 2, 4, 8} {
      var b := ctx.payload[offset..offset as int + width as int];
      forall k | 0 <= k < width
        ensures LeValue(b) / Weight(k) % 0x100 == ctx.payload[offset + k]
      {
        DigitsOf(b, k);
      }
      BelowWeight(b);
      TopByte(b);
    }
  }

  lemma TopByte(b: Bytes)
    requires |b| in {1, 2, 4, 8}
    ensures LeValue(b) > MAX <==> |b| == 8 && b[7] >= 0x80
    ensures LeValue(b) < 0x1_0000_0000_0000_0000
  {
    hide LeValue, Weight;
    DigitsOf(b, |b| - 1);
    BelowWeight(b);
    Weights();
  }

  lemma Weights()
    ensures Weight(1) == 0x100 && Weight(2) == 0x1_0000 && Weight(3) == 0x100_0000 && Weight(4) == 0x1_0000_0000
    ensures Weight(7) == 0x100_0000_0000_0000 && Weight(8) == 0x1_0000_0000_0000_0000
  {
    assert Weight(5) == 0x100_0000_0000 && Weight(6) == 0x1_0000_0000_0000;
  }

  /** Literals and context values. */
  lemma LeafLaw(ctx: Context, n: I64, b: bool, path: string, s: Signature)
    ensures Eval(IntLiteral(n), ctx) == Val(Int(n)) && Eval(BoolLiteral(b), ctx) == Val(Bool(b))
    ensures Eval(FormVersion, ctx) == Val(Int(ctx.formVersion))
    ensures Eval(PayloadLength, ctx) == if |ctx.payload| <= MAX then Val(Int(|ctx.payload|)) else Fails(TooLarge)
    ensures Eval(ReadField(path), ctx) == if path in ctx.fields then Val(Int(ctx.fields[path])) else Fails(FieldUnavailable)
    ensures Eval(RecordSignature(s), ctx) == Val(Bool(s == ctx.signature))
  {
  }
}
