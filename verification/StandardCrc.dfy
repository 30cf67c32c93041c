/**
 The CRC-32 of clause 3.2.9 of IEEE 802.3 starts from all ones and complements
 the remainder. The archive hash does neither; this says when the two agree.
 */
module StandardCrc {
  import opened Wire
  import opened ArchiveHash
  import Flags

  function Complement(w: Word): (c: Word) {
    seq(32, i requires 0 <= i < 32 => !w[i])
  }

  const ONES: Word := Complement(Zeros(32))

  function IeeeCrc(message: Bytes): Word {
    Complement(Remainder(ONES, message))
  }

  function ZeroBytes(n: nat): (z: Bytes)
    ensures |z| == n
  {
    seq(n, i => 0)
  }

  // --------------------------------------------------------------------------
  // The start value and the message act independently
  // --------------------------------------------------------------------------

  lemma FeedBitLinear(r: Word, q: Word, bit: bool)
    ensures FeedBit(Xor(r, q), bit) == Xor(FeedBit(r, bit), FeedBit(q, false))
  {
    hide Bits;
    Pointwise(FeedBit(Xor(r, q), bit), Xor(FeedBit(r, bit), FeedBit(q, false)));
  }

  lemma {:induction false} FeedBitsLinear(r: Word, q: Word, bits: seq<bool>)
    ensures FeedBits(Xor(r, q), bits) == Xor(FeedBits(r, bits), FeedBits(q, Zeros(|bits|)))
    decreases |bits|
  {
    hide FeedBit, Xor;
    if bits != [] {
      FeedBitLinear(r, q, bits[0]);
      FeedBitsLinear(FeedBit(r, bits[0]), FeedBit(q, false), bits[1..]);
      assert Zeros(|bits|)[1..] == Zeros(|bits[1..]|);
    }
  }

  lemma {:induction false} RemainderLinear(r: Word, q: Word, message: Bytes)
    ensures Remainder(Xor(r, q), message) == Xor(Remainder(r, message), Remainder(q, ZeroBytes(|message|)))
    decreases |message|
  {
    hide FeedBits, Xor, Bits;
    if message != [] {
      var bits := Bits(message[0], 8);
      FeedBitsLinear(r, q, bits);
      ZeroBits(8);
      RemainderLinear(FeedBits(r, bits), FeedBits(q, Zeros(8)), message[1..]);
      assert ZeroBytes(|message|)[1..] == ZeroBytes(|message[1..]|);
    }
  }

  /** A remainder is the one from zero, altered by what the start value becomes over as many zero bytes. */
  lemma StartSplitsOff(r: Word, message: Bytes)
    ensures Remainder(r, message) == Xor(Remainder(Zeros(32), message), Remainder(r, ZeroBytes(|message|)))
  {
    hide Remainder;
    Pointwise(Xor(Zeros(32), r), r);
    RemainderLinear(Zeros(32), r, message);
  }

  // --------------------------------------------------------------------------
  // Agreement
  // --------------------------------------------------------------------------

  /**
   The archive hash of a name is its standard CRC-32 exactly if all ones survive
   as many zero bytes as the normalised name has bytes: a matter of its length.
   */
  lemma StandardExactly(name: Bytes)
    ensures Remainder(Zeros(32), Normalised(name)) == IeeeCrc(Normalised(name))
            <==> Remainder(ONES, ZeroBytes(|Normalised(name)|)) == ONES
  {
    hide Remainder, Normalised;
    var m := Normalised(name);
    var h, z := Remainder(Zeros(32), m), Remainder(ONES, ZeroBytes(|m|));
    StartSplitsOff(ONES, m);
    if z == ONES {
      Pointwise(h, IeeeCrc(m));
    }
    if h == IeeeCrc(m) {
      assert forall i :: 0 <= i < 32 ==> h[i] == !(h[i] != z[i]);
      Pointwise(z, ONES);
    }
  }

  lemma {:induction false} BitsAt(n: nat, width: nat, i: nat)
    requires i < width
    ensures Bits(n, width)[i] == Flags.Bit(n, i)
    decreases i
  {
    if i > 0 {
      BitsAt(n / 2, width - 1, i - 1);
    }
  }

  lemma PolynomialBits()
    ensures (forall i :: 0 <= i < 5 ==> !POLYNOMIAL[i]) && POLYNOMIAL[5] && !POLYNOMIAL[6]
  {
    hide Bits;
    forall i | 0 <= i < 32
      ensures POLYNOMIAL[i] == Flags.Bit(0xEDB8_8320, i)
    {
      BitsAt(0xEDB8_8320, 32, i);
    }
    assert !Flags.Bit(0xEDB8_8320, 0) && !Flags.Bit(0xEDB8_8320, 1) && !Flags.Bit(0xEDB8_8320, 2);
    assert !Flags.Bit(0xEDB8_8320, 3) && !Flags.Bit(0xEDB8_8320, 4) && Flags.Bit(0xEDB8_8320, 5) && !Flags.Bit(0xEDB8_8320, 6);
  }

  /** Feeding one of the zero bits, and what it leaves in bit `i`. */
  lemma FeedZero(c: Word, n: nat, i: nat)
    requires i < 32
    ensures FeedBits(c, Zeros(n + 1)) == FeedBits(FeedBit(c, false), Zeros(n))
    ensures FeedBit(c, false)[i] == ((i < 31 && c[i + 1]) != (c[0] && POLYNOMIAL[i]))
  {
    hide Bits;
    assert Zeros(n + 1)[1..] == Zeros(n);
  }

  /** All ones do not survive one byte. */
  lemma OnesFade()
    ensures Remainder(ONES, ZeroBytes(1)) != ONES
  {
    hide FeedBit, Bits;
    PolynomialBits();
    var c1 := FeedBit(ONES, false);
    var c2 := FeedBit(c1, false);
    var c3 := FeedBit(c2, false);
    var c4 := FeedBit(c3, false);
    var c5 := FeedBit(c4, false);
    var c6 := FeedBit(c5, false);
    var c7 := FeedBit(c6, false);
    var c8 := FeedBit(c7, false);
    FeedZero(ONES, 7, 0);
    FeedZero(ONES, 7, 6);
    FeedZero(c1, 6, 5);
    FeedZero(c2, 5, 4);
    FeedZero(c3, 4, 3);
    FeedZero(c4, 3, 2);
    FeedZero(c5, 2, 1);
    FeedZero(c6, 1, 0);
    FeedZero(c7, 0, 31);
    assert !c8[31] && ONES[31];
    assert FeedBits(ONES, Zeros(8)) == c8;
    ZeroBits(8);
    assert ZeroBytes(1)[1..] == [];
    NothingLeft(c8);
  }

  /** For every name of a single ASCII character the two differ; for the empty name they agree. */
  lemma StandardExamples(name: Bytes)
    ensures |Normalised(name)| == 1 ==> Remainder(Zeros(32), Normalised(name)) != IeeeCrc(Normalised(name))
    ensures |Normalised(name)| == 0 ==> Remainder(Zeros(32), Normalised(name)) == IeeeCrc(Normalised(name))
  {
    hide Remainder, Normalised, IeeeCrc;
    StandardExactly(name);
    OnesFade();
    assert ZeroBytes(0) == [];
    NothingLeft(ONES);
  }

  // --------------------------------------------------------------------------
  // The constants
  // --------------------------------------------------------------------------

  lemma {:induction false} ValueOfBits(n: nat, width: nat)
    requires n < Flags.Pow2(width)
    ensures Value(Bits(n, width)) == n
    decreases width
  {
    if width > 0 {
      ValueOfBits(n / 2, width - 1);
      assert Bits(n, width)[1..] == Bits(n / 2, width - 1);
    }
  }

  /** The polynomial as a number, and what one letter, slash or other byte contributes to a hash. */
  lemma NameBytes(b: Byte)
    ensures Value(POLYNOMIAL) == 0xEDB8_8320
    ensures NormalByte(b) == if b >= 128 then [] else if b == 47 then [92] else if 65 <= b <= 90 then [b + 32] else [b]
  {
    hide Bits, Value;
    assert Flags.Pow2(8) == 0x100 && Flags.Pow2(16) == 0x1_0000 && Flags.Pow2(24) == 0x100_0000;
    assert Flags.Pow2(32) == 0x1_0000_0000;
    ValueOfBits(0xEDB8_8320, 32);
  }
}
