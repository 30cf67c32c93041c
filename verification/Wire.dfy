/**
 Bytes, fixed-width little-endian words, and the result type shared by every
 parser and writer of the model.
 */
module Wire {

  type Byte = b: int | 0 <= b < 0x100
  type Bytes = seq<Byte>
  type U16 = n: int | 0 <= n < 0x1_0000
  type U32 = n: int | 0 <= n < 0x1_0000_0000
  type U64 = n: int | 0 <= n < 0x1_0000_0000_0000_0000
  type I16 = n: int | -0x8000 <= n < 0x8000
  type I32 = n: int | -0x8000_0000 <= n < 0x8000_0000

  datatype Option<+T> = None | Some(value: T) {
    function GetOr(default: T): T {
      match this
      case Some(v) => v
      case None => default
    }
  }

  /** The error kinds of the core crate; message texts and offsets are dropped. */
  datatype Error =
    | UnexpectedEof
    | InvalidSignature
    | InvalidGroupType(raw: I32)
    | InvalidGroupRecordOrder
    | InvalidEncoding
    | InvalidStringTable
    | Decompression
    | LoadOrderIndexFull
    | LightSlotOverflow
    | EslRecordLimitExceeded(count: nat)
    | UnsupportedGame

  datatype Result<+T> = Ok(value: T) | Err(error: Error) {
    predicate IsFailure() {
      Err?
    }

    function PropagateFailure<U>(): Result<U>
      requires Err?
    {
      Err(error)
    }

    function Extract(): T
      requires Ok?
    {
      value
    }
  }

  function Min(a: nat, b: nat): nat {
    if a < b then a else b
  }

  /** A half-open byte range `start..end` of a source buffer. */
  datatype Range = Range(start: nat, end: nat)

  // --------------------------------------------------------------------------
  // Little-endian words
  // --------------------------------------------------------------------------

  function Le16(n: U16): (b: Bytes)
    ensures |b| == 2
  {
    [n % 0x100, n / 0x100]
  }

  function Le32(n: U32): (b: Bytes)
    ensures |b| == 4
  {
    [n % 0x100, n / 0x100 % 0x100, n / 0x100 / 0x100 % 0x100, n / 0x100 / 0x100 / 0x100]
  }

  function Le64(n: U64): (b: Bytes)
    ensures |b| == 8
  {
    Le32(n % 0x1_0000_0000) + Le32(n / 0x1_0000_0000)
  }

  /** The word stored at offset `p` of `s`. */
  function U16At(s: Bytes, p: nat): U16
    requires p + 2 <= |s|
  {
    s[p] as int + 0x100 * s[p + 1] as int
  }

  function U32At(s: Bytes, p: nat): U32
    requires p + 4 <= |s|
  {
    s[p] as int + 0x100 * (s[p + 1] as int + 0x100 * (s[p + 2] as int + 0x100 * s[p + 3] as int))
  }

  function U64At(s: Bytes, p: nat): U64
    requires p + 8 <= |s|
  {
    U32At(s, p) + 0x1_0000_0000 * U32At(s, p + 4)
  }

  /** Two's-complement reading and writing of the signed words. */
  function ToI16(n: U16): I16 {
    if n < 0x8000 then n else n - 0x1_0000
  }

  function FromI16(n: I16): U16 {
    if n >= 0 then n else n + 0x1_0000
  }

  function ToI32(n: U32): I32 {
    if n < 0x8000_0000 then n else n - 0x1_0000_0000
  }

  function FromI32(n: I32): U32 {
    if n >= 0 then n else n + 0x1_0000_0000
  }

  /** The truncating cast `n as u32`. */
  function AsU32(n: nat): U32 {
    n % 0x1_0000_0000
  }

  lemma Word16(s: Bytes, p: nat, n: U16)
    requires p + 2 <= |s|
    ensures s[p..p + 2] == Le16(n) <==> U16At(s, p) == n
  {
    var w := s[p..p + 2];
    assert w[0] == s[p] && w[1] == s[p + 1];
  }

  lemma Word32(s: Bytes, p: nat, n: U32)
    requires p + 4 <= |s|
    ensures s[p..p + 4] == Le32(n) <==> U32At(s, p) == n
  {
    var w := s[p..p + 4];
    var b0: int, b1: int, b2: int, b3: int := s[p], s[p + 1], s[p + 2], s[p + 3];
    assert w == [b0, b1, b2, b3];
    if U32At(s, p) == n {
      Digit(b0, b1 + 0x100 * (b2 + 0x100 * b3));
      Digit(b1, b2 + 0x100 * b3);
      Digit(b2, b3);
    }
  }

  /** The low base-256 digit and the rest of a number can be read back. */
  lemma Digit(low: Byte, rest: nat)
    ensures (low + 0x100 * rest) % 0x100 == low
    ensures (low + 0x100 * rest) / 0x100 == rest
  {
  }

  lemma Word64(s: Bytes, p: nat, n: U64)
    requires p + 8 <= |s|
    ensures s[p..p + 8] == Le64(n) <==> U64At(s, p) == n
  {
    var lo, hi := n % 0x1_0000_0000, n / 0x1_0000_0000;
    assert s[p..p + 8] == s[p..p + 4] + s[p + 4..p + 8];
    Word32(s, p, lo);
    Word32(s, p + 4, hi);
    if s[p..p + 8] == Le64(n) {
      assert s[p..p + 4] == s[p..p + 8][..4] == Le32(lo);
      assert s[p + 4..p + 8] == s[p..p + 8][4..] == Le32(hi);
    }
  }

  // --------------------------------------------------------------------------
  // Slices
  // --------------------------------------------------------------------------

  /** Whether `part` is written in `s` at offset `p`. */
  ghost predicate Holds(s: Bytes, p: nat, part: Bytes) {
    p + |part| <= |s| && s[p..p + |part|] == part
  }

  lemma HoldsConcat(s: Bytes, p: nat, a: Bytes, b: Bytes)
    ensures Holds(s, p, a + b) <==> Holds(s, p, a) && Holds(s, p + |a|, b)
  {
    if p + |a| + |b| <= |s| {
      var whole := s[p..p + |a| + |b|];
      assert whole == s[p..p + |a|] + s[p + |a|..p + |a| + |b|];
      if whole == a + b {
        assert s[p..p + |a|] == whole[..|a|] == a;
        assert s[p + |a|..p + |a| + |b|] == whole[|a|..] == b;
      }
    }
  }

  /** Concatenations with equal-length heads are equal piece by piece. */
  lemma ConcatInjective<T>(a: seq<T>, b: seq<T>, c: seq<T>, d: seq<T>)
    requires |a| == |c|
    ensures a + b == c + d <==> a == c && b == d
  {
    if a + b == c + d {
      assert a == (a + b)[..|a|] == c;
      assert b == (a + b)[|a|..] == d;
    }
  }

  lemma Assoc<T>(a: seq<T>, b: seq<T>, c: seq<T>)
    ensures a + (b + c) == a + b + c
  {
  }
}
