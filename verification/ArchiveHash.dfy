/**
 Archive name hashes: the table-driven CRC against one-bit-at-a-time division,
 and the multiplicative hash of the older archives against a polynomial. The
 CRC works on 32-bit words given as their bits, lowest first.
 */
module ArchiveHash {
  import opened Wire
  import F = Flags

  type Word = w: seq<bool> | |w| == 32 witness seq(32, i => false)

  function Zeros(n: nat): (z: seq<bool>)
    ensures |z| == n
  {
    seq(n, i => false)
  }

  function Bits(n: nat, width: nat): (b: seq<bool>)
    ensures |b| == width
    decreases width
  {
    if width == 0 then [] else [n % 2 == 1] + Bits(n / 2, width - 1)
  }

  function Value(b: seq<bool>): nat {
    if b == [] then 0 else (if b[0] then 1 else 0) + 2 * Value(b[1..])
  }

  function Xor(a: Word, b: Word): (c: Word)
    ensures forall i :: 0 <= i < 32 ==> c[i] == (a[i] != b[i])
  {
    seq(32, i requires 0 <= i < 32 => a[i] != b[i])
  }

  function ShiftRight(a: Word, n: nat): (c: Word)
    requires n <= 32
  {
    a[n..] + Zeros(n)
  }

  // --------------------------------------------------------------------------
  // The reference: dividing by the polynomial bit by bit
  // --------------------------------------------------------------------------

  /** The polynomial of clause 3.2.9 of IEEE 802.3, bits reflected. */
  const POLYNOMIAL: Word := Bits(0xEDB8_8320, 32)

  /** Shifts one message bit into the remainder. */
  function FeedBit(r: Word, bit: bool): Word {
    if r[0] != bit then Xor(POLYNOMIAL, ShiftRight(r, 1)) else ShiftRight(r, 1)
  }

  function FeedBits(r: Word, bits: seq<bool>): Word
    decreases |bits|
  {
    if bits == [] then r else FeedBits(FeedBit(r, bits[0]), bits[1..])
  }

  /** The remainder of a message, each byte lowest bit first. */
  function Remainder(r: Word, message: Bytes): Word
    decreases |message|
  {
    if message == [] then r else Remainder(FeedBits(r, Bits(message[0], 8)), message[1..])
  }

  // --------------------------------------------------------------------------
  // Normalised names
  // --------------------------------------------------------------------------

  const SLASH: Byte := 0x2F
  const BACKSLASH: Byte := 0x5C

  function Lower(b: Byte): Byte {
    if 0x41 <= b <= 0x5A then b + 0x20 else b
  }

  /** What one input byte contributes: nothing beyond ASCII, lower case, backslashes. */
  function NormalByte(b: Byte): Bytes {
    if b > 127 then [] else if b == SLASH then [BACKSLASH] else [Lower(b)]
  }

  function Normalised(s: Bytes): Bytes {
    if s == [] then [] else NormalByte(s[0]) + Normalised(s[1..])
  }

  // --------------------------------------------------------------------------
  // The table
  // --------------------------------------------------------------------------

  function Step(c: Word): Word {
    if c[0] then Xor(POLYNOMIAL, ShiftRight(c, 1)) else ShiftRight(c, 1)
  }

  function Steps(c: Word, n: nat): Word
    decreases n
  {
    if n == 0 then c else Steps(Step(c), n - 1)
  }

  ghost predicate IsTable(table: array<Word>)
    reads table
  {
    table.Length == 256 && forall i :: 0 <= i < 256 ==> table[i] == Steps(Bits(i, 32), 8)
  }

  /** Fills the table by eight conditional shifts per entry. */
  method CrcTable() returns (table: array<Word>)
    ensures fresh(table) && IsTable(table)
  {
    hide Bits, Xor, ShiftRight;
    table := new Word[256](_ => Zeros(32));
    for i := 0 to 256
      invariant forall k :: 0 <= k < i ==> table[k] == Steps(Bits(k, 32), 8)
    {
      var c: Word := Bits(i, 32);
      for j := 0 to 8
        invariant Steps(c, 8 - j) == Steps(Bits(i, 32), 8)
        invariant forall k :: 0 <= k < i ==> table[k] == Steps(Bits(k, 32), 8)
      {
        if c[0] {
          c := Xor(POLYNOMIAL, ShiftRight(c, 1));
        } else {
          c := ShiftRight(c, 1);
        }
      }
      table[i] := c;
    }
  }

  /** Hashes a name through the table. */
  method HashFo4(s: Bytes) returns (result: Word)
    ensures result == Remainder(Zeros(32), Normalised(s))
  {
    hide Remainder, FeedBits, Steps, NormalByte, Bits, Value;
    var table := CrcTable();
    result := Zeros(32);
    assert s[0..] == s;
    for i := 0 to |s|
      invariant IsTable(table)
      invariant Remainder(result, Normalised(s[i..])) == Remainder(Zeros(32), Normalised(s))
    {
      NormalStep(s, i);
      var b := s[i];
      NormalByteIs(b);
      if b > 127 {
        assert [] + Normalised(s[i + 1..]) == Normalised(s[i + 1..]);
        continue;
      }
      var c := if b == SLASH then BACKSLASH else Lower(b);
      RemainderStep(result, c, Normalised(s[i + 1..]));
      TableStep(result, c);
      result := Xor(ShiftRight(result, 8), table[Value(Xor(result, Bits(c, 32))[..8])]);
    }
    assert s[|s|..] == [];
    NothingLeft(result);
  }

  lemma NormalStep(s: Bytes, i: nat)
    requires i < |s|
    ensures Normalised(s[i..]) == NormalByte(s[i]) + Normalised(s[i + 1..])
  {
    assert s[i..][1..] == s[i + 1..];
  }

  lemma NormalByteIs(b: Byte)
    ensures NormalByte(b) == if b > 127 then [] else if b == SLASH then [BACKSLASH] else [Lower(b)]
  {
  }

  lemma RemainderStep(r: Word, c: Byte, rest: Bytes)
    ensures Remainder(r, [c] + rest) == Remainder(FeedBits(r, Bits(c, 8)), rest)
  {
    hide FeedBits, Bits;
    assert ([c] + rest)[1..] == rest;
  }

  lemma NothingLeft(r: Word)
    ensures Remainder(r, []) == r
  {
  }

  // --------------------------------------------------------------------------
  // The table does eight bits at once
  // --------------------------------------------------------------------------

  lemma StepLinear(a: Word, b: Word)
    ensures Step(Xor(a, b)) == Xor(Step(a), Step(b))
  {
    hide Bits;
    var l, r := Step(Xor(a, b)), Xor(Step(a), Step(b));
    assert forall i :: 0 <= i < 32 ==> l[i] == r[i];
  }

  lemma {:induction false} StepsLinear(a: Word, b: Word, n: nat)
    ensures Steps(Xor(a, b), n) == Xor(Steps(a, n), Steps(b, n))
    decreases n
  {
    hide Step, Xor;
    if n > 0 {
      StepLinear(a, b);
      StepsLinear(Step(a), Step(b), n - 1);
    }
  }

  /** Zeros at the low end are only shifted out. */
  lemma {:induction false} ZerosShift(h: Word, n: nat)
    requires n <= 32 && forall i :: 0 <= i < n ==> !h[i]
    ensures Steps(h, n) == ShiftRight(h, n)
    decreases n
  {
    if n > 0 {
      var next := ShiftRight(h, 1);
      assert Step(h) == next;
      ZerosShift(next, n - 1);
      var l, r := ShiftRight(next, n - 1), ShiftRight(h, n);
      assert forall i :: 0 <= i < 32 ==> l[i] == r[i];
    }
  }

  /** One bit of the reference is one step on the combined value. */
  lemma BitStep(r: Word, bits: seq<bool>, pad: nat)
    requires bits != [] && |bits| + pad == 32
    ensures Step(Xor(r, bits + Zeros(pad))) == Xor(FeedBit(r, bits[0]), bits[1..] + Zeros(pad + 1))
  {
    hide Bits;
    var x := Xor(r, bits + Zeros(pad));
    assert x[0] == (r[0] != bits[0]);
    var l, u := Step(x), Xor(FeedBit(r, bits[0]), bits[1..] + Zeros(pad + 1));
    assert forall i :: 0 <= i < 32 ==> l[i] == u[i];
  }

  lemma {:induction false} BitsAreSteps(r: Word, bits: seq<bool>, pad: nat)
    requires |bits| + pad == 32
    ensures FeedBits(r, bits) == Steps(Xor(r, bits + Zeros(pad)), |bits|)
    decreases |bits|
  {
    hide Step, FeedBit;
    if bits == [] {
      assert Xor(r, [] + Zeros(32)) == r;
    } else {
      BitStep(r, bits, pad);
      BitsAreSteps(FeedBit(r, bits[0]), bits[1..], pad + 1);
    }
  }

  lemma {:induction false} BitsOfValue(b: seq<bool>, pad: nat)
    ensures Bits(Value(b), |b| + pad) == b + Zeros(pad)
    decreases |b|
  {
    if b == [] {
      ZeroBits(pad);
    } else {
      BitsOfValue(b[1..], pad);
      assert Value(b) / 2 == Value(b[1..]);
      assert b == [b[0]] + b[1..];
      assert b + Zeros(pad) == [b[0]] + (b[1..] + Zeros(pad));
    }
  }

  lemma {:induction false} ZeroBits(n: nat)
    ensures Bits(0, n) == Zeros(n)
    decreases n
  {
    if n > 0 {
      ZeroBits(n - 1);
    }
  }

  lemma {:induction false} ValueBound(b: seq<bool>)
    ensures |b| == 8 ==> Value(b) < 256
  {
    if |b| == 8 {
      assert Value(b[7..]) <= 1 by {
        assert b[7..][1..] == [];
      }
      assert b[6..][1..] == b[7..] && b[5..][1..] == b[6..] && b[4..][1..] == b[5..];
      assert b[3..][1..] == b[4..] && b[2..][1..] == b[3..] && b[1..][1..] == b[2..];
      assert Value(b[6..]) <= 3 && Value(b[5..]) <= 7 && Value(b[4..]) <= 15;
      assert Value(b[3..]) <= 31 && Value(b[2..]) <= 63 && Value(b[1..]) <= 127;
    }
  }

  /** A byte as a word has its eight bits and zeros above. */
  lemma {:induction false} WideBits(n: nat, width: nat, pad: nat)
    requires n < F.Pow2(width)
    ensures Bits(n, width + pad) == Bits(n, width) + Zeros(pad)
    decreases width
  {
    if width == 0 {
      ZeroBits(pad);
    } else {
      WideBits(n / 2, width - 1, pad);
    }
  }

  /** A table step feeds the eight bits of a byte. */
  lemma TableStep(r: Word, c: Byte)
    ensures var k := Value(Xor(r, Bits(c, 32))[..8]);
            k < 256 && Xor(ShiftRight(r, 8), Steps(Bits(k, 32), 8)) == FeedBits(r, Bits(c, 8))
  {
    hide Steps, FeedBits, Bits, Value;
    var x := Xor(r, Bits(c, 32));
    var low, high: Word := x[..8] + Zeros(24), Zeros(8) + x[8..];
    assert F.Pow2(8) == 256;
    WideBits(c, 8, 24);
    BitsAreSteps(r, Bits(c, 8), 24);
    ValueBound(x[..8]);
    BitsOfValue(x[..8], 24);
    Pointwise(x, Xor(high, low));
    StepsLinear(high, low, 8);
    ZerosShift(high, 8);
    Pointwise(ShiftRight(high, 8), ShiftRight(r, 8));
  }

  lemma Pointwise(a: Word, b: Word)
    requires forall i :: 0 <= i < 32 ==> a[i] == b[i]
    ensures a == b
  {
  }

  // --------------------------------------------------------------------------
  // Case and slashes do not matter
  // --------------------------------------------------------------------------

  /** Bytes that differ only in ASCII case, in slash direction, or beyond ASCII. */
  predicate Alike(a: Byte, b: Byte) {
    || Lower(a) == Lower(b)
    || (a > 127 && b > 127)
    || (a in {SLASH, BACKSLASH} && b in {SLASH, BACKSLASH})
  }

  lemma AlikeExactly(a: Byte, b: Byte)
    ensures NormalByte(a) == NormalByte(b) <==> Alike(a, b)
  {
    if a <= 127 && b <= 127 {
      assert NormalByte(a) == NormalByte(b) <==> NormalByte(a)[0] == NormalByte(b)[0];
    }
  }

  /** Names that are alike byte for byte have one normal form and so one hash. */
  lemma {:induction false} AlikeNames(a: Bytes, b: Bytes)
    requires |a| == |b| && forall i :: 0 <= i < |a| ==> Alike(a[i], b[i])
    ensures Normalised(a) == Normalised(b)
    decreases |a|
  {
    hide NormalByte, Alike;
    if a != [] {
      AlikeExactly(a[0], b[0]);
      assert forall i :: 0 <= i < |a[1..]| ==> a[1..][i] == a[i + 1] && b[1..][i] == b[i + 1];
      AlikeNames(a[1..], b[1..]);
    }
  }

  // --------------------------------------------------------------------------
  // The hash of the older archives
  // --------------------------------------------------------------------------

  const MULTIPLIER: nat := 65599
  const U32_END: nat := 0x1_0000_0000

  /** The bytes as digits in base `MULTIPLIER`, the first one most significant. */
  function Polynomial(s: Bytes): nat {
    if s == [] then 0 else Polynomial(s[..|s| - 1]) * MULTIPLIER + s[|s| - 1] as int
  }

  /** The wrapping shift-and-add loop computes the polynomial modulo 2 to the 32. */
  method Sdbm(s: Bytes) returns (hash: U32)
    ensures hash == Polynomial(s) % U32_END
  {
    hash := 0;
    for i := 0 to |s|
      invariant hash == Polynomial(s[..i]) % U32_END
    {
      assert s[..i + 1][..i] == s[..i];
      var wide := hash as int;
      SdbmStep(Polynomial(s[..i]), s[i]);
      hash := (s[i] as int + wide * 0x40 % U32_END + wide * 0x1_0000 % U32_END - wide) % U32_END;
    }
    assert s[..|s|] == s;
  }

  lemma SdbmStep(p: nat, b: Byte)
    ensures var h := p % U32_END;
            (b as int + h * 0x40 % U32_END + h * 0x1_0000 % U32_END - h) % U32_END == (p * MULTIPLIER + b as int) % U32_END
  {
    var h := p % U32_END;
    var q := p / U32_END;
    var q1, q2 := h * 0x40 / U32_END, h * 0x1_0000 / U32_END;
    var x := b as int + h * 0x40 % U32_END + h * 0x1_0000 % U32_END - h;
    assert x == b as int + h * MULTIPLIER - (q1 + q2) * U32_END;
    assert p * MULTIPLIER + b as int == x + (q1 + q2 + q * MULTIPLIER) * U32_END;
    Multiple(x, q1 + q2 + q * MULTIPLIER);
  }

  lemma Multiple(x: int, k: int)
    ensures (x + k * U32_END) % U32_END == x % U32_END
  {
  }
}
