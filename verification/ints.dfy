/** Go's fixed-width integers, with their two's-complement wrap-around written out. */
module Ints {

  const MinInt32: int := -0x8000_0000
  const MaxInt32: int := 0x7fff_ffff
  const MaxInt64: int := 0x7fff_ffff_ffff_ffff

  newtype int32 = x: int | -0x8000_0000 <= x < 0x8000_0000
  newtype int64 = x: int | -0x8000_0000_0000_0000 <= x < 0x8000_0000_0000_0000

  /** The int32 value Go stores for the mathematical result `x`: `x` reduced modulo 2^32 into [MinInt32, MaxInt32]. */
  function Wrap32(x: int): (r: int32)
    ensures MinInt32 <= x <= MaxInt32 ==> r as int == x
    ensures (x - r as int) % 0x1_0000_0000 == 0
  {
    var m := (x + 0x8000_0000) % 0x1_0000_0000;
    assert x - (m - 0x8000_0000) == 0x1_0000_0000 * ((x + 0x8000_0000) / 0x1_0000_0000);
    (m - 0x8000_0000) as int32
  }

  /** Go's `a - b` on int32 operands. */
  function Sub32(a: int32, b: int32): (r: int32)
    ensures MinInt32 <= a as int - b as int <= MaxInt32 ==> r as int == a as int - b as int
    ensures (a as int - b as int - r as int) % 0x1_0000_0000 == 0
  {
    Wrap32(a as int - b as int)
  }

  /** Go's `a * b` on int32 operands. */
  function Mul32(a: int32, b: int32): (r: int32)
    ensures MinInt32 <= a as int * b as int <= MaxInt32 ==> r as int == a as int * b as int
    ensures (a as int * b as int - r as int) % 0x1_0000_0000 == 0
  {
    Wrap32(a as int * b as int)
  }

  /** Congruence modulo 2^32 carries through a multiplication: wrapping an operand first changes nothing. */
  lemma CongruentProduct(k: int, n: int, d: int, r: int)
    requires (k - n) % 0x1_0000_0000 == 0 && (n * d - r) % 0x1_0000_0000 == 0
    ensures (k * d - r) % 0x1_0000_0000 == 0
  {
    var t, u := (k - n) / 0x1_0000_0000, (n * d - r) / 0x1_0000_0000;
    assert k * d - r == 0x1_0000_0000 * (t * d + u) by {
      assert k == n + 0x1_0000_0000 * t;
      assert k * d == n * d + 0x1_0000_0000 * t * d;
    }
    MultipleOfModulus(k * d - r, t * d + u);
  }

  lemma MultipleOfModulus(x: int, w: int)
    requires x == 0x1_0000_0000 * w
    ensures x % 0x1_0000_0000 == 0
  {
    var q, m := x / 0x1_0000_0000, x % 0x1_0000_0000;
    assert 0x1_0000_0000 * (w - q) == m;
  }

  /** a <= b and c <= d on non-negative numbers give a * c <= b * d. */
  lemma MulMonotone(a: int, b: int, c: int, d: int)
    requires 0 <= a <= b && 0 <= c <= d
    ensures 0 <= a * c <= b * d
  {
    assert a * c <= b * c by {
      assert (b - a) * c >= 0;
    }
    assert b * c <= b * d by {
      assert b * (d - c) >= 0;
    }
  }

  /** A positive multiple of d is at least d more than a smaller multiple. */
  lemma ProductStep(a: int, b: int, d: int)
    requires 0 <= a < b && 1 <= d
    ensures a * d + d <= b * d
  {
    assert b * d - a * d == (b - a) * d;
    assert (b - a) * d >= d by {
      assert b - a >= 1;
    }
  }

  /** A non-negative multiple of d leaves no remainder. */
  lemma MultipleMod(n: nat, d: int)
    requires d >= 1
    ensures (n * d) % d == 0
  {
    var x := n * d;
    var q, r := x / d, x % d;
    assert (n - q) * d == r by {
      assert x == q * d + r;
    }
    SmallMultipleIsZero(n - q, d, r);
  }

  lemma SmallMultipleIsZero(k: int, d: int, r: int)
    requires d >= 1 && 0 <= r < d && k * d == r
    ensures r == 0
  {
    if k >= 1 {
      ProductStep(0, k, d);
    }
  }
}
