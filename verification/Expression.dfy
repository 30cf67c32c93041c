/**
 Schema conditions: the unbounded meaning of an expression, what evaluating it
 costs, and the budgeted evaluator that must agree with both.
 */
module Expression {
  import opened Wire
  import opened Records
  import F = Flags

  type I64 = n: int | -0x8000_0000_0000_0000 <= n < 0x8000_0000_0000_0000

  const I64_END: int := 0x8000_0000_0000_0000

  datatype EvalValue = Bool(flag: bool) | Int(number: I64)

  datatype Fault =
    | BudgetExhausted
    | ExpectedBool
    | ExpectedInt
    | FieldUnavailable
    | ReadOutOfRange
    | UnsupportedWidth
    | TooLarge
    | BadBitIndex
    | Overflow

  datatype Outcome<+T> = Val(value: T) | Fails(fault: Fault) {
    predicate IsFailure() {
      Fails?
    }

    function PropagateFailure<U>(): Outcome<U>
      requires Fails?
    {
      Fails(fault)
    }

    function Extract(): T
      requires Val?
    {
      value
    }
  }

  datatype LookupCase = LookupCase(input: I64, output: I64)

  datatype Operator = Equal | NotEqual | LessThan | Add | Subtract | Multiply | Divide

  datatype Expression =
    | BoolLiteral(flag: bool)
    | IntLiteral(number: I64)
    | PayloadLength
    | FormVersion
    | ReadUnsigned(offset: U32, width: Byte)
    | ReadField(path: string)
    | RecordSignature(signature: Signature)
    | Binary(operator: Operator, left: Expression, right: Expression)
    | BitSet(operand: Expression, bit: Byte)
    | And(values: seq<Expression>)
    | Or(values: seq<Expression>)
    | Not(operand: Expression)
    | BitCount(operand: Expression)
    | IntegerLookup(operand: Expression, cases: seq<LookupCase>, default: I64)
    | Select(condition: Expression, ifTrue: Expression, ifFalse: Expression)

  datatype Context = Context(payload: Bytes, fields: map<string, I64>, formVersion: U16, signature: Signature)

  // --------------------------------------------------------------------------
  // Primitive operations
  // --------------------------------------------------------------------------

  function AsBool(v: EvalValue): Outcome<bool> {
    match v
    case Bool(b) => Val(b)
    case Int(_) => Fails(ExpectedBool)
  }

  function AsInt(v: EvalValue): Outcome<I64> {
    match v
    case Int(n) => Val(n)
    case Bool(_) => Fails(ExpectedInt)
  }

  /** The checked result of an operation on 64-bit integers. */
  function Checked(n: int): Outcome<EvalValue> {
    if -I64_END <= n < I64_END then Val(Int(n)) else Fails(Overflow)
  }

  /** Division that truncates toward zero. */
  function TruncDiv(a: int, b: int): int
    requires b != 0
  {
    if a >= 0 then a / b else -((-a) / b)
  }

  function CheckedDiv(a: int, b: int): Outcome<EvalValue> {
    if b == 0 then Fails(Overflow) else Checked(TruncDiv(a, b))
  }

  /** The 64-bit two's-complement pattern of an integer. */
  function Pattern(n: I64): U64 {
    if n >= 0 then n else n + 2 * I64_END
  }

  function Ones(n: nat): nat {
    if n == 0 then 0 else n % 2 + Ones(n / 2)
  }

  /** The little-endian value of a byte string. */
  function LeValue(b: Bytes): nat {
    if b == [] then 0 else b[0] as int + 0x100 * LeValue(b[1..])
  }

  function ReadValue(payload: Bytes, offset: U32, width: Byte): Outcome<EvalValue> {
    var start, end := offset as int, offset as int + width as int;
    if end > |payload| then Fails(ReadOutOfRange)
    else if width !in {1, 2, 4, 8} then Fails(UnsupportedWidth)
    else
      var value := LeValue(payload[start..end]);
      if value < I64_END then Val(Int(value)) else Fails(TooLarge)
  }

  // --------------------------------------------------------------------------
  // Meaning and cost
  // --------------------------------------------------------------------------

  /** All nodes of an expression and all its lookup cases. */
  function Size(e: Expression): (n: nat)
    ensures n >= 1
    decreases e, 0
  {
    match e
    case Binary(_, l, r) => 1 + Size(l) + Size(r)
    case BitSet(v, _) => 1 + Size(v)
    case BitCount(v) => 1 + Size(v)
    case Not(v) => 1 + Size(v)
    case And(vs) => 1 + SizeAll(vs)
    case Or(vs) => 1 + SizeAll(vs)
    case IntegerLookup(v, cases, _) => 1 + Size(v) + |cases|
    case Select(c, t, f) => 1 + Size(c) + Size(t) + Size(f)
    case _ => 1
  }

  function SizeAll(vs: seq<Expression>): nat
    decreases vs, 0
  {
    if vs == [] then 0 else Size(vs[0]) + SizeAll(vs[1..])
  }

  function IntOf(e: Expression, ctx: Context): Outcome<I64>
    decreases Size(e), 1
  {
    var v :- Eval(e, ctx);
    AsInt(v)
  }

  function BoolOf(e: Expression, ctx: Context): Outcome<bool>
    decreases Size(e), 1
  {
    var v :- Eval(e, ctx);
    AsBool(v)
  }

  predicate NeedsInts(op: Operator) {
    op != Equal && op != NotEqual
  }

  /** An operand; all operators but the two equalities insist on an integer before they go on. */
  function Operand(op: Operator, e: Expression, ctx: Context): (r: Outcome<EvalValue>)
    ensures r.Val? && NeedsInts(op) ==> r.value.Int?
    decreases Size(e), 1
  {
    var v :- Eval(e, ctx);
    if NeedsInts(op) && v.Bool? then Fails(ExpectedInt) else Val(v)
  }

  function Apply(op: Operator, a: EvalValue, b: EvalValue): Outcome<EvalValue>
    requires NeedsInts(op) ==> a.Int? && b.Int?
  {
    match op
    case Equal => Val(Bool(a == b))
    case NotEqual => Val(Bool(a != b))
    case LessThan => Val(Bool(a.number < b.number))
    case Add => Checked(a.number as int + b.number as int)
    case Subtract => Checked(a.number as int - b.number as int)
    case Multiply => Checked(a.number as int * b.number as int)
    case Divide => CheckedDiv(a.number, b.number)
  }

  predicate IsLeaf(e: Expression) {
    e.BoolLiteral? || e.IntLiteral? || e.PayloadLength? || e.FormVersion? || e.ReadUnsigned? || e.ReadField? || e.RecordSignature?
  }

  function EvalLeaf(e: Expression, ctx: Context): Outcome<EvalValue>
    requires IsLeaf(e)
  {
    match e
    case BoolLiteral(b) => Val(Bool(b))
    case IntLiteral(n) => Val(Int(n))
    case PayloadLength => if |ctx.payload| < I64_END then Val(Int(|ctx.payload|)) else Fails(TooLarge)
    case FormVersion => Val(Int(ctx.formVersion))
    case ReadUnsigned(offset, width) => ReadValue(ctx.payload, offset, width)
    case ReadField(path) => if path in ctx.fields then Val(Int(ctx.fields[path])) else Fails(FieldUnavailable)
    case RecordSignature(signature) => Val(Bool(signature == ctx.signature))
  }

  /** The value of an expression when there is no limit on operations. */
  function Eval(e: Expression, ctx: Context): Outcome<EvalValue>
    decreases Size(e), 0
  {
    if IsLeaf(e) then EvalLeaf(e, ctx)
    else
      match e
      case Binary(op, l, r) => var a :- Operand(op, l, ctx); var b :- Operand(op, r, ctx); Apply(op, a, b)
      case BitSet(v, bit) => if bit >= 64 then Fails(BadBitIndex) else var a :- IntOf(v, ctx); Val(Bool(F.Bit(Pattern(a), bit)))
      case And(vs) => EvalAll(vs, ctx, true)
      case Or(vs) => EvalAll(vs, ctx, false)
      case Not(v) => var a :- BoolOf(v, ctx); Val(Bool(!a))
      case BitCount(v) => var a :- IntOf(v, ctx); PatternOnes(a); Val(Int(Ones(Pattern(a))))
      case IntegerLookup(v, cases, default) => var a :- IntOf(v, ctx); Val(Int(LookUp(cases, a, default)))
      case Select(c, t, f) => var a :- BoolOf(c, ctx); if a then Eval(t, ctx) else Eval(f, ctx)
  }

  /** The operands in order, as long as they are `neutral`; the first other one decides. */
  function EvalAll(vs: seq<Expression>, ctx: Context, neutral: bool): Outcome<EvalValue>
    decreases SizeAll(vs), 2
  {
    if vs == [] then Val(Bool(neutral))
    else
      var a :- BoolOf(vs[0], ctx);
      if a == neutral then EvalAll(vs[1..], ctx, neutral) else Val(Bool(a))
  }

  function LookUp(cases: seq<LookupCase>, key: I64, default: I64): I64 {
    if cases == [] then default else if cases[0].input == key then cases[0].output else LookUp(cases[1..], key, default)
  }

  function Scanned(cases: seq<LookupCase>, key: I64): nat {
    if cases == [] then 0 else if cases[0].input == key then 1 else 1 + Scanned(cases[1..], key)
  }

  /** The number of operations evaluation takes: nodes visited plus lookup cases compared. */
  function Cost(e: Expression, ctx: Context): (c: nat)
    ensures c >= 1
    decreases Size(e), 0
  {
    match e
    case Binary(op, l, r) => 1 + Cost(l, ctx) + if Operand(op, l, ctx).Val? then Cost(r, ctx) else 0
    case BitSet(v, bit) => if bit >= 64 then 1 else 1 + Cost(v, ctx)
    case BitCount(v) => 1 + Cost(v, ctx)
    case Not(v) => 1 + Cost(v, ctx)
    case And(vs) => 1 + CostAll(vs, ctx, true)
    case Or(vs) => 1 + CostAll(vs, ctx, false)
    case IntegerLookup(v, cases, _) =>
      1 + Cost(v, ctx) + if IntOf(v, ctx).Val? then Scanned(cases, IntOf(v, ctx).value) else 0
    case Select(c, t, f) =>
      1 + Cost(c, ctx) + if BoolOf(c, ctx).Val? then if BoolOf(c, ctx).value then Cost(t, ctx) else Cost(f, ctx) else 0
    case _ => 1
  }

  function CostAll(vs: seq<Expression>, ctx: Context, neutral: bool): nat
    decreases SizeAll(vs), 2
  {
    if vs == [] then 0
    else Cost(vs[0], ctx) + if BoolOf(vs[0], ctx) == Val(neutral) then CostAll(vs[1..], ctx, neutral) else 0
  }

  lemma {:induction false} OnesFit(n: nat, width: nat)
    requires n < F.Pow2(width)
    ensures Ones(n) <= width
    decreases width
  {
    if n > 0 {
      OnesFit(n / 2, width - 1);
    }
  }

  lemma PatternOnes(n: I64)
    ensures Ones(Pattern(n)) <= 64
  {
    hide Ones, F.Pow2;
    SixtyFour();
    OnesFit(Pattern(n), 64);
  }

  lemma SixtyFour()
    ensures F.Pow2(64) == 2 * I64_END
  {
    assert F.Pow2(8) == 0x100;
    assert F.Pow2(16) == 0x1_0000;
    assert F.Pow2(24) == 0x100_0000;
    assert F.Pow2(32) == 0x1_0000_0000;
    assert F.Pow2(40) == 0x100_0000_0000;
    assert F.Pow2(48) == 0x1_0000_0000_0000;
    assert F.Pow2(56) == 0x100_0000_0000_0000;
  }

  // --------------------------------------------------------------------------
  // The budgeted evaluator
  // --------------------------------------------------------------------------

  class Budget {
    var remaining: nat

    constructor (operations: nat)
      ensures remaining == operations
    {
      remaining := operations;
    }

    method Spend() returns (r: Outcome<()>)
      modifies this
      ensures old(remaining) == 0 ==> r == Fails(BudgetExhausted) && remaining == 0
      ensures old(remaining) > 0 ==> r == Val(()) && remaining == old(remaining) - 1
    {
      if remaining == 0 {
        return Fails(BudgetExhausted);
      }
      remaining := remaining - 1;
      return Val(());
    }
  }

  /** `r` and `left` are what a computation with result `full` and cost `cost` leaves of a budget. */
  ghost predicate Spends<T>(budget: nat, cost: nat, full: Outcome<T>, r: Outcome<T>, left: int) {
    if budget >= cost then r == full && left == budget - cost else r == Fails(BudgetExhausted) && left == 0
  }

  /**
   Budgeted evaluation yields the unbounded result, value or error, exactly when
   the budget covers the cost, and spends exactly the cost.
   */
  method EvaluateInner(e: Expression, ctx: Context, budget: Budget) returns (r: Outcome<EvalValue>)
    modifies budget
    ensures Spends(old(budget.remaining), Cost(e, ctx), Eval(e, ctx), r, budget.remaining)
    decreases Size(e), 0
  {
    hide F.Bit, Ones, EvalAll, CostAll, LookUp, Scanned, Pattern, EvalLeaf, IntOf, BoolOf, Operand, Apply;
    var _ :- budget.Spend();
    if IsLeaf(e) {
      return EvalLeaf(e, ctx);
    }
    match e {
      case Binary(op, left, right) =>
        var a :- EvaluateOperand(op, left, ctx, budget);
        var b :- EvaluateOperand(op, right, ctx, budget);
        return Apply(op, a, b);
      case BitSet(operand, bit) =>
        if bit >= 64 {
          return Fails(BadBitIndex);
        }
        var raw :- EvaluateInt(operand, ctx, budget);
        return Val(Bool(F.Bit(Pattern(raw), bit)));
      case And(values) =>
        r := EvaluateAll(values, ctx, true, budget);
      case Or(values) =>
        r := EvaluateAll(values, ctx, false, budget);
      case Not(operand) =>
        var a :- EvaluateBool(operand, ctx, budget);
        return Val(Bool(!a));
      case BitCount(operand) =>
        var raw :- EvaluateInt(operand, ctx, budget);
        PatternOnes(raw);
        return Val(Int(Ones(Pattern(raw))));
      case IntegerLookup(operand, cases, default) =>
        var key :- EvaluateInt(operand, ctx, budget);
        var output :- EvaluateLookup(cases, key, default, budget);
        return Val(Int(output));
      case Select(condition, ifTrue, ifFalse) =>
        var a :- EvaluateBool(condition, ctx, budget);
        if a {
          r := EvaluateInner(ifTrue, ctx, budget);
        } else {
          r := EvaluateInner(ifFalse, ctx, budget);
        }
    }
  }

  method EvaluateInt(e: Expression, ctx: Context, budget: Budget) returns (r: Outcome<I64>)
    modifies budget
    ensures Spends(old(budget.remaining), Cost(e, ctx), IntOf(e, ctx), r, budget.remaining)
    decreases Size(e), 1
  {
    hide Eval, Cost, Size;
    var v :- EvaluateInner(e, ctx, budget);
    return AsInt(v);
  }

  method EvaluateBool(e: Expression, ctx: Context, budget: Budget) returns (r: Outcome<bool>)
    modifies budget
    ensures Spends(old(budget.remaining), Cost(e, ctx), BoolOf(e, ctx), r, budget.remaining)
    decreases Size(e), 1
  {
    hide Eval, Cost, Size;
    var v :- EvaluateInner(e, ctx, budget);
    return AsBool(v);
  }

  method EvaluateOperand(op: Operator, e: Expression, ctx: Context, budget: Budget) returns (r: Outcome<EvalValue>)
    modifies budget
    ensures Spends(old(budget.remaining), Cost(e, ctx), Operand(op, e, ctx), r, budget.remaining)
    decreases Size(e), 1
  {
    hide Eval, Cost, Size;
    var v :- EvaluateInner(e, ctx, budget);
    return if NeedsInts(op) && v.Bool? then Fails(ExpectedInt) else Val(v);
  }

  method EvaluateAll(values: seq<Expression>, ctx: Context, neutral: bool, budget: Budget) returns (r: Outcome<EvalValue>)
    modifies budget
    ensures Spends(old(budget.remaining), CostAll(values, ctx, neutral), EvalAll(values, ctx, neutral), r, budget.remaining)
    decreases SizeAll(values), 2
  {
    hide Cost, BoolOf, Size;
    ghost var start := budget.remaining;
    ghost var spent := 0;
    assert values[0..] == values;
    for i := 0 to |values|
      invariant CostAll(values, ctx, neutral) == spent + CostAll(values[i..], ctx, neutral)
      invariant EvalAll(values, ctx, neutral) == EvalAll(values[i..], ctx, neutral)
      invariant start >= spent && budget.remaining == start - spent
      invariant SizeAll(values[i..]) <= SizeAll(values)
    {
      assert values[i..][0] == values[i] && values[i..][1..] == values[i + 1..];
      var a :- EvaluateBool(values[i], ctx, budget);
      spent := spent + Cost(values[i], ctx);
      if a != neutral {
        return Val(Bool(a));
      }
    }
    assert values[|values|..] == [];
    return Val(Bool(neutral));
  }

  method EvaluateLookup(cases: seq<LookupCase>, key: I64, default: I64, budget: Budget) returns (r: Outcome<I64>)
    modifies budget
    ensures Spends(old(budget.remaining), Scanned(cases, key), Val(LookUp(cases, key, default)), r, budget.remaining)
  {
    ghost var start := budget.remaining;
    assert cases[0..] == cases;
    for i := 0 to |cases|
      invariant Scanned(cases, key) == i + Scanned(cases[i..], key)
      invariant LookUp(cases, key, default) == LookUp(cases[i..], key, default)
      invariant start >= i && budget.remaining == start - i
    {
      assert cases[i..][0] == cases[i] && cases[i..][1..] == cases[i + 1..];
      var _ :- budget.Spend();
      if cases[i].input == key {
        return Val(cases[i].output);
      }
    }
    assert cases[|cases|..] == [];
    return Val(default);
  }

  method Evaluate(e: Expression, ctx: Context, maxOperations: U32) returns (r: Outcome<EvalValue>)
    ensures r == if maxOperations >= Cost(e, ctx) then Eval(e, ctx) else Fails(BudgetExhausted)
  {
    var budget := new Budget(maxOperations);
    r := EvaluateInner(e, ctx, budget);
  }

  // --------------------------------------------------------------------------
  // Bounds on the cost
  // --------------------------------------------------------------------------

  lemma {:induction false} ScannedBound(cases: seq<LookupCase>, key: I64)
    ensures Scanned(cases, key) <= |cases|
    decreases |cases|
  {
    if cases != [] {
      ScannedBound(cases[1..], key);
    }
  }

  /** Evaluation never takes more operations than the expression has nodes and lookup cases. */
  lemma {:induction false} CostBound(e: Expression, ctx: Context)
    ensures Cost(e, ctx) <= Size(e)
    decreases Size(e), 0
  {
    hide Eval, IntOf, BoolOf, Operand;
    match e {
      case Binary(_, l, r) => CostBound(l, ctx); CostBound(r, ctx);
      case BitSet(v, _) => CostBound(v, ctx);
      case BitCount(v) => CostBound(v, ctx);
      case Not(v) => CostBound(v, ctx);
      case And(vs) => CostAllBound(vs, ctx, true);
      case Or(vs) => CostAllBound(vs, ctx, false);
      case IntegerLookup(v, cases, _) =>
        CostBound(v, ctx);
        if IntOf(v, ctx).Val? {
          ScannedBound(cases, IntOf(v, ctx).value);
        }
      case Select(c, t, f) => CostBound(c, ctx); CostBound(t, ctx); CostBound(f, ctx);
      case _ =>
    }
  }

  lemma {:induction false} CostAllBound(vs: seq<Expression>, ctx: Context, neutral: bool)
    ensures CostAll(vs, ctx, neutral) <= SizeAll(vs)
    decreases SizeAll(vs), 2
  {
    hide Cost, BoolOf, Size;
    if vs != [] {
      CostBound(vs[0], ctx);
      CostAllBound(vs[1..], ctx, neutral);
    }
  }

  // --------------------------------------------------------------------------
  // What the operators mean
  // --------------------------------------------------------------------------

  /** A conjunction (or, with `neutral` false, a disjunction) is decided by its first operand that is not neutral. */
  lemma {:induction false} FirstDecides(vs: seq<Expression>, ctx: Context, neutral: bool, k: nat)
    requires k <= |vs| && forall i :: 0 <= i < k ==> BoolOf(vs[i], ctx) == Val(neutral)
    requires k < |vs| ==> BoolOf(vs[k], ctx) != Val(neutral)
    ensures EvalAll(vs, ctx, neutral)
         == if k == |vs| then Val(Bool(neutral))
            else match BoolOf(vs[k], ctx)
                 case Val(b) => Val(Bool(b))
                 case Fails(f) => Fails(f)
    decreases |vs|
  {
    hide BoolOf;
    if k > 0 {
      assert forall i :: 0 <= i < |vs[1..]| ==> vs[1..][i] == vs[i + 1];
      FirstDecides(vs[1..], ctx, neutral, k - 1);
    }
  }

  /** With inputs in strictly increasing order, a lookup finds the one case for a key, wherever it stands. */
  lemma {:induction false} LookupFinds(cases: seq<LookupCase>, key: I64, default: I64, k: nat)
    requires forall i, j :: 0 <= i < j < |cases| ==> cases[i].input < cases[j].input
    requires k < |cases| && cases[k].input == key
    ensures LookUp(cases, key, default) == cases[k].output && Scanned(cases, key) == k + 1
    decreases |cases|
  {
    if k > 0 {
      assert cases[0].input < cases[k].input;
      assert forall i :: 0 <= i < |cases[1..]| ==> cases[1..][i] == cases[i + 1];
      LookupFinds(cases[1..], key, default, k - 1);
    }
  }

  /** The number of set bits among the lowest `width`. */
  function BitsSet(n: nat, width: nat): nat {
    if width == 0 then 0 else (if F.Bit(n, width - 1) then 1 else 0) + BitsSet(n, width - 1)
  }

  lemma {:induction false} BitsSetShift(n: nat, width: nat)
    requires width > 0
    ensures BitsSet(n, width) == n % 2 + BitsSet(n / 2, width - 1)
    decreases width
  {
    if width > 1 {
      BitsSetShift(n, width - 1);
    }
  }

  /** Counting ones is counting the bits that the bit test reports. */
  lemma {:induction false} OnesAreBits(n: nat, width: nat)
    requires n < F.Pow2(width)
    ensures Ones(n) == BitsSet(n, width)
    decreases width
  {
    if width > 0 {
      BitsSetShift(n, width);
      OnesAreBits(n / 2, width - 1);
    }
  }

  /** Bit 63 of the pattern is the sign. */
  lemma SignBit(n: I64)
    ensures F.Bit(Pattern(n), 63) <==> n < 0
  {
    hide F.Bit, F.Pow2;
    HalfOf64();
    TopBit(Pattern(n), 63);
  }

  lemma HalfOf64()
    ensures F.Pow2(63) == I64_END
  {
    SixtyFour();
    assert F.Pow2(64) == 2 * F.Pow2(63);
  }

  lemma {:induction false} TopBit(n: nat, i: nat)
    requires n < 2 * F.Pow2(i)
    ensures F.Bit(n, i) <==> n >= F.Pow2(i)
    decreases i
  {
    if i > 0 {
      TopBit(n / 2, i - 1);
    }
  }
}
