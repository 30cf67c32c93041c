/** Bitwise operations on 32-bit flag words, digit by digit. */
module Flags {
  import opened Wire
  import opened Records

  function Pow2(n: nat): (p: nat)
    ensures p > 0
  {
    if n == 0 then 1 else 2 * Pow2(n - 1)
  }

  /** Bit `i` of a word. */
  predicate Bit(n: nat, i: nat) {
    if i == 0 then n % 2 == 1 else Bit(n / 2, i - 1)
  }

  function BitOr(a: nat, b: nat, width: nat): (r: nat)
    requires a < Pow2(width) && b < Pow2(width)
    ensures r < Pow2(width)
  {
    if width == 0 then 0
    else (if a % 2 == 1 || b % 2 == 1 then 1 else 0) + 2 * BitOr(a / 2, b / 2, width - 1)
  }

  function BitAndNot(a: nat, b: nat): (r: nat)
    ensures r <= a
  {
    if a == 0 then 0
    else (if a % 2 == 1 && b % 2 == 0 then 1 else 0) + 2 * BitAndNot(a / 2, b / 2)
  }

  lemma Pow2Of32()
    ensures Pow2(32) == 0x1_0000_0000
  {
    assert Pow2(8) == 0x100;
    assert Pow2(16) == 0x1_0000;
    assert Pow2(24) == 0x100_0000;
  }

  function OrFlags(flags: U32, mask: Option<U32>): U32 {
    match mask
    case None => flags
    case Some(m) => Pow2Of32(); BitOr(flags, m, 32)
  }

  function ClearFlags(flags: U32, mask: Option<U32>): U32 {
    match mask
    case None => flags
    case Some(m) => BitAndNot(flags, m)
  }

  /** Clears the single bit that marks compressed data. */
  function ClearCompressed(flags: U32): (r: U32)
    ensures !HasBit(r, COMPRESSED)
    ensures !HasBit(flags, COMPRESSED) ==> r == flags
  {
    if HasBit(flags, COMPRESSED) then flags - COMPRESSED else flags
  }

  lemma {:induction false} OrBit(a: nat, b: nat, width: nat, i: nat)
    requires a < Pow2(width) && b < Pow2(width)
    ensures Bit(BitOr(a, b, width), i) <==> Bit(a, i) || Bit(b, i)
    decreases width, i
  {
    var r := BitOr(a, b, width);
    if width == 0 {
      ZeroBit(i);
    } else {
      assert r / 2 == BitOr(a / 2, b / 2, width - 1);
      if i > 0 {
        OrBit(a / 2, b / 2, width - 1, i - 1);
      }
    }
  }

  lemma {:induction false} AndNotBit(a: nat, b: nat, i: nat)
    ensures Bit(BitAndNot(a, b), i) <==> Bit(a, i) && !Bit(b, i)
    decreases i
  {
    var r := BitAndNot(a, b);
    if a == 0 {
      ZeroBit(i);
    } else {
      assert r / 2 == BitAndNot(a / 2, b / 2);
      if i > 0 {
        AndNotBit(a / 2, b / 2, i - 1);
      }
    }
  }

  lemma {:induction false} ZeroBit(i: nat)
    ensures !Bit(0, i)
  {
    if i > 0 {
      ZeroBit(i - 1);
    }
  }

  /** A header patch sets and clears exactly the requested bits, clearing last. */
  lemma PatchedBit(flags: U32, setMask: Option<U32>, clear: Option<U32>, i: nat)
    ensures Bit(ClearFlags(OrFlags(flags, setMask), clear), i)
            <==> (Bit(flags, i) || (setMask.Some? && Bit(setMask.value, i))) && !(clear.Some? && Bit(clear.value, i))
  {
    Pow2Of32();
    if setMask.Some? {
      OrBit(flags, setMask.value, 32, i);
    }
    if clear.Some? {
      AndNotBit(OrFlags(flags, setMask), clear.value, i);
    }
  }

  // --------------------------------------------------------------------------
  // Bits as digits
  // --------------------------------------------------------------------------

  lemma {:induction false} Spread(d: int, a: int, b: int)
    requires d > 0
    ensures a < b ==> d * a + d <= d * b
    decreases b - a
  {
    if a + 1 < b {
      Spread(d, a, b - 1);
    }
  }

  /** Quotient and remainder of a division by a positive number are unique. */
  lemma Quotient(n: int, d: int, q: int, r: int)
    requires 0 <= r < d && n == d * q + r
    ensures n / d == q && n % d == r
  {
    Spread(d, n / d, q);
    Spread(d, q, n / d);
  }

  lemma HalfTwice(n: int, d: int)
    requires d > 0
    ensures n / 2 / d == n / (2 * d)
  {
    var h, q, r := n / 2, n / 2 / d, n / 2 % d;
    assert h == d * q + r;
    assert n == 2 * h + n % 2;
    assert 2 * (d * q) == (2 * d) * q;
    Quotient(n, 2 * d, q, 2 * r + n % 2);
  }

  /** Bit `i` is the binary digit of weight 2 to the `i`. */
  lemma {:induction false} BitIsDigit(n: nat, i: nat)
    ensures Bit(n, i) <==> n / Pow2(i) % 2 == 1
    decreases i
  {
    if i > 0 {
      BitIsDigit(n / 2, i - 1);
      HalfTwice(n, Pow2(i - 1));
    }
  }

  /** The same below bit `k` of a negative number in two's complement, that is, with 2 to the `k` added. */
  lemma {:induction false} ComplementDigit(n: int, k: nat, i: nat)
    requires i < k && n + Pow2(k) >= 0
    ensures Bit(n + Pow2(k), i) <==> n / Pow2(i) % 2 == 1
    decreases i
  {
    var m := n + Pow2(k);
    assert m % 2 == n % 2 && m / 2 == n / 2 + Pow2(k - 1);
    if i > 0 {
      ComplementDigit(n / 2, k - 1, i - 1);
      HalfTwice(n, Pow2(i - 1));
    }
  }
}
