/**
 * The Java language and library semantics the model relies on: `long` bounds,
 * division and remainder truncated toward zero, and BigInteger.bitLength.
 */
module JavaLang {
  import Arith

  /** Long.MAX_VALUE */
  const LONG_MAX: int := 0x7FFF_FFFF_FFFF_FFFF
  /** Long.MIN_VALUE */
  const LONG_MIN: int := -0x8000_0000_0000_0000
  /** Integer.MAX_VALUE */
  const INT_MAX: int := 0x7FFF_FFFF
  /** Integer.MIN_VALUE */
  const INT_MIN: int := -0x8000_0000

  /** A narrowing cast to int: the low 32 bits of x, read as two's complement. */
  function IntOf(x: int): (r: int)
    ensures INT_MIN <= r <= INT_MAX
    ensures INT_MIN <= x <= INT_MAX ==> r == x
    ensures (r - x) % 0x1_0000_0000 == 0
  {
    var m := 0x1_0000_0000;
    assert (x - INT_MIN) == m * ((x - INT_MIN) / m) + (x - INT_MIN) % m;
    assert INT_MIN <= x <= INT_MAX ==> (x - INT_MIN) / m == 0 by {
      if INT_MIN <= x <= INT_MAX {
        Arith.DivModUnique(x - INT_MIN, m, 0, x - INT_MIN);
      }
    }
    Arith.ModMultiple(m, -((x - INT_MIN) / m));
    (x - INT_MIN) % m + INT_MIN
  }

  function Abs(x: int): nat
  {
    if x < 0 then -x else x
  }

  /** Java's `/` on integers: the quotient truncated toward zero. */
  function JavaDiv(n: int, m: int): int
    requires m != 0
  {
    var q := Abs(n) / Abs(m);
    if (n < 0) != (m < 0) then -q else q
  }

  /** Java's `%` on integers: the remainder of the truncated division, with the sign of n. */
  function JavaRem(n: int, m: int): (r: int)
    requires m != 0
    ensures n == JavaDiv(n, m) * m + r
    ensures Abs(r) < Abs(m)
    ensures n >= 0 ==> r >= 0
    ensures n <= 0 ==> r <= 0
  {
    var q := Abs(n) / Abs(m);
    var rr := Abs(n) % Abs(m);
    assert Abs(n) == Abs(m) * q + rr;
    if n < 0 then -rr else rr
  }

  /** The truncated remainder is congruent to n modulo a positive m. */
  lemma JavaRemCongruent(n: int, m: int)
    requires m > 0
    ensures JavaRem(n, m) % m == n % m
    ensures JavaRem(n, m) == 0 <==> n % m == 0
  {
    var q := JavaDiv(n, m);
    var r := JavaRem(n, m);
    assert n == m * q + r;
    Arith.ModAddMultiple(r, m, q);
    if r < 0 {
      Arith.ModAddMultiple(r, m, 1);
      Arith.ModSmall(r + m, m);
    } else {
      Arith.ModSmall(r, m);
    }
  }

  /** For non-negative operands Java's division agrees with Dafny's. */
  lemma JavaDivNonneg(n: int, m: int)
    requires n >= 0 && m > 0
    ensures JavaDiv(n, m) == n / m && JavaRem(n, m) == n % m
  {
  }

  /** Number of bits of a natural number. */
  function Bits(n: nat): nat
  {
    if n == 0 then 0 else 1 + Bits(n / 2)
  }

  /** BigInteger.bitLength: bits of the minimal two's-complement form, without the sign bit. */
  function BitLength(x: int): nat
  {
    if x < 0 then Bits(-x - 1) else Bits(x)
  }

  /** A natural number is below two to the power of its bit count. */
  lemma {:induction false} BitsBound(n: nat)
    ensures n < Arith.Power(2, Bits(n))
    decreases n
  {
    if n > 0 {
      BitsBound(n / 2);
      assert Arith.Power(2, Bits(n)) == 2 * Arith.Power(2, Bits(n / 2));
    }
  }
}
