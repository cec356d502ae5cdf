/** Powers of two, the shifts and masks that go with them, and the few facts about products they rest on. */
module Bits {

  // The number of values of a 32-bit word.
  const U32: nat := 0x1_0000_0000

  function Pow2(n: nat): (p: nat)
    ensures p > 0
  {
    if n == 0 then 1 else 2 * Pow2(n - 1)
  }

  /** x & ((1 << bits) - 1), bit by bit. */
  function Mask(x: nat, bits: nat): (m: nat)
    ensures m < Pow2(bits)
  {
    if bits == 0 then 0 else x % 2 + 2 * Mask(x / 2, bits - 1)
  }

  /** x >> bits. */
  function Shift(x: nat, bits: nat): nat {
    if bits == 0 then x else Shift(x / 2, bits - 1)
  }

  /** Number of bits below the highest one that is set: the exact logarithm of a power of two. */
  function SizeBits(n: nat): nat {
    if n <= 1 then 0 else 1 + SizeBits(n / 2)
  }

  lemma {:induction false} SizeBitsExact(bits: nat)
    ensures SizeBits(Pow2(bits)) == bits
  {
    if bits == 0 {
    } else {
      SizeBitsExact(bits - 1);
      assert Pow2(bits) / 2 == Pow2(bits - 1);
    }
  }

  /** The power of two at or below a number. */
  lemma {:induction false} SizeBitsBelow(n: nat)
    requires n > 0
    ensures Pow2(SizeBits(n)) <= n < 2 * Pow2(SizeBits(n))
  {
    if n > 1 {
      SizeBitsBelow(n / 2);
    }
  }

  /** Shifting and masking split an address into a multiple of the power of two and what is left. */
  lemma {:induction false} ShiftAndMask(x: nat, bits: nat)
    ensures x == Shift(x, bits) * Pow2(bits) + Mask(x, bits)
  {
    if bits == 0 {
    } else {
      ShiftAndMask(x / 2, bits - 1);
      var q, p := Shift(x, bits), Pow2(bits - 1);
      TwiceProduct(q, p);
    }
  }

  /** And there is only one such split. */
  lemma ShiftAndMaskUnique(x: nat, bits: nat, s: nat, o: nat)
    requires x == s * Pow2(bits) + o && o < Pow2(bits)
    ensures Shift(x, bits) == s && Mask(x, bits) == o
  {
    ShiftAndMask(x, bits);
    SplitUnique(Pow2(bits), Shift(x, bits), Mask(x, bits), s, o);
  }

  lemma TwiceProduct(q: int, p: int)
    ensures q * (2 * p) == 2 * (q * p)
  {
  }

  lemma SplitUnique(p: int, a: int, r: int, b: int, r': int)
    requires 0 <= r < p && 0 <= r' < p && a * p + r == b * p + r'
    ensures a == b && r == r'
  {
    Difference(p, a, b);
    QuotientFits(p, a - b, r, r');
  }

  lemma SumProduct(a: int, b: int, p: int)
    ensures (a + b) * p == a * p + b * p
  {
  }

  lemma ProductStep(a: int, q: int)
    ensures a * (q + 1) == a * q + a
  {
  }

  lemma Difference(p: int, a: int, b: int)
    ensures p * (a - b) == a * p - b * p
  {
  }

  /** Quotient and remainder are determined by x == d * q + r with 0 <= r < d. */
  lemma DivModUnique(x: int, d: nat, q: int, r: int)
    requires d > 0 && 0 <= r < d && x == d * q + r
    ensures x / d == q && x % d == r
  {
    var q' := x / d;
    assert x == d * q' + x % d;
    assert d * (q - q') == d * q - d * q';
    QuotientFits(d, q - q', r, x % d);
  }

  lemma MulMonotone(d: int, a: int, b: int)
    requires d >= 0 && a <= b
    ensures d * a <= d * b
  {
  }

  lemma ProductOrder(a: nat, b: nat, d: nat)
    requires d > 0
    ensures a * d <= b * d <==> a <= b
  {
    if a <= b {
      MulMonotone(d, a, b);
    } else {
      MulMonotone(d, b + 1, a);
    }
  }

  lemma QuotientFits(d: int, k: int, r: int, r': int)
    requires 0 <= r < d && 0 <= r' < d && d * k == r' - r
    ensures k == 0
  {
    if k >= 1 {
      MulMonotone(d, 1, k);
    } else if k <= -1 {
      MulMonotone(d, k, -1);
    }
  }

  function Min(a: int, b: int): int {
    if a <= b then a else b
  }
}
