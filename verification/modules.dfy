/**
 * common/Modules.java: the second version of the modular kernel. Its pow
 * runs a right-to-left square-and-multiply loop with one of two multipliers
 * chosen by the size of the modulus (a plain long product below
 * MAX_LONG_SQRT, a high/low split of the 128-bit product below
 * MULTIPLY_HIGH_BOUND) and hands larger moduli to BigInteger.modPow. Its
 * divideLinearSum first divides out gcd(A, P), and its merge reduces the
 * offsets by the full moduli.
 */
module Modules {
  import opened Wrappers
  import opened Arith
  import opened NumTheory
  import opened JavaLang
  import opened Crt
  import Common
  import ModUtils

  /**
   * Common.MULTIPLY_HIGH_BOUND, the largest modulus the high/low multiplier
   * serves. Common.java as shown does not define it; it is taken as 2^42,
   * the width the multiplier is named after.
   */
  const MULTIPLY_HIGH_BOUND: int := 0x400_0000_0000
  const TWO_63: int := 0x8000_0000_0000_0000
  const TWO_64: int := 0x1_0000_0000_0000_0000

  // ------------------------------------------------------------------
  // modMultiplier32bit and modMultiplier42bit
  // ------------------------------------------------------------------

  /**
   * The LongBinaryOperator the two factories return: the constant 0 for
   * modulus 1, the plain `(a*b)%mod` of modMultiplier32bit, or the high/low
   * reduction of modMultiplier42bit with its precomputed r64.
   */
  datatype Multiplier = Constant0 | Plain | HighLow(r64: int)

  /** The multiplier f was built by one of the factories for modulus m. */
  predicate Serves(f: Multiplier, m: int)
  {
    match f
    case Constant0 => m == 1
    case Plain => 1 < m <= Common.MAX_LONG_SQRT
    case HighLow(r64) => 1 < m <= MULTIPLY_HIGH_BOUND && 0 <= r64 < m && r64 == TWO_64 % m
  }

  /** modMultiplier32bit(mod) */
  function ModMultiplier32bit(m: int): (f: Multiplier)
    requires 0 < m <= Common.MAX_LONG_SQRT
    ensures Serves(f, m)
    ensures f == Constant0 <==> m == 1
  {
    if m == 1 then Constant0 else Plain
  }

  /** ((Long.MAX_VALUE % mod + 1) << 1) % mod, which is 2^64 mod mod. */
  function R64(m: int): (r: int)
    requires 1 < m <= MULTIPLY_HIGH_BOUND
    ensures 0 <= r < m && r == TWO_64 % m
  {
    var top := JavaRem(LONG_MAX, m);
    JavaDivNonneg(LONG_MAX, m);
    // top + 1 <= m <= 2^42, so the shift by one cannot overflow
    var shifted := (top + 1) * 2;
    JavaDivNonneg(shifted, m);
    R64Congruent(top, m);
    JavaRem(shifted, m)
  }

  lemma R64Congruent(top: int, m: int)
    requires m > 0 && top == LONG_MAX % m
    ensures ((top + 1) * 2) % m == TWO_64 % m
  {
    ModIdempotent(LONG_MAX, m);
    CongAdd(top, LONG_MAX, 1, 1, m);
    assert LONG_MAX + 1 == TWO_63;
    CongMul(top + 1, TWO_63, 2, 2, m);
    assert TWO_63 * 2 == TWO_64;
  }

  /** modMultiplier42bit(mod) */
  function ModMultiplier42bit(m: int): (f: Multiplier)
    requires 0 < m <= MULTIPLY_HIGH_BOUND
    ensures Serves(f, m)
    ensures f == Constant0 <==> m == 1
  {
    if m == 1 then Constant0 else HighLow(R64(m))
  }

  /** Math.multiplyHigh for non-negative operands: the upper 64 bits of the 128-bit product. */
  function MultiplyHigh(a: int, b: int): (h: int)
    requires a >= 0 && b >= 0
    ensures h * TWO_64 + (a * b) % TWO_64 == a * b
  {
    (a * b) / TWO_64
  }

  /** A long product a*b: the low 64 bits read as a two's-complement value. */
  function WrapLong(x: int): (w: int)
    ensures -TWO_63 <= w < TWO_63
    ensures w % TWO_64 == x % TWO_64
    ensures w >= 0 ==> w == x % TWO_64
    ensures w < 0 ==> w + TWO_64 == x % TWO_64
  {
    var u := x % TWO_64;
    if u < TWO_63 then
      ModSmall(u, TWO_64);
      ModIdempotent(x, TWO_64);
      u
    else
      ModAddMultiple(u - TWO_64, TWO_64, 1);
      ModIdempotent(x, TWO_64);
      u - TWO_64
  }

  /** The high part of a product of residues below 2^42 is below 2^20. */
  lemma HighBound(a: int, b: int)
    requires 0 <= a < MULTIPLY_HIGH_BOUND && 0 <= b < MULTIPLY_HIGH_BOUND
    ensures 0 <= MultiplyHigh(a, b) < 0x10_0000
  {
    MulNonneg(a, b);
    assert a * b < MULTIPLY_HIGH_BOUND * MULTIPLY_HIGH_BOUND by {
      MulNonneg(MULTIPLY_HIGH_BOUND - a, b);
      MulNonneg(MULTIPLY_HIGH_BOUND, MULTIPLY_HIGH_BOUND - b);
    }
    assert MULTIPLY_HIGH_BOUND * MULTIPLY_HIGH_BOUND == 0x10_0000 * TWO_64;
  }

  /**
   * The value res of modMultiplier42bit before its final Common.mod:
   * high*r64 + low%mod, plus r64 when the low word reads negative. It stays
   * within a long and is congruent to a*b modulo mod.
   */
  function HighLowSum(m: int, r64: int, a: int, b: int): (res: int)
    requires 1 < m <= MULTIPLY_HIGH_BOUND && 0 <= r64 < m && r64 == TWO_64 % m
    requires 0 <= a < m && 0 <= b < m
    ensures -TWO_63 <= res < TWO_63
    ensures res % m == (a * b) % m
  {
    var high := MultiplyHigh(a, b);
    var low := WrapLong(a * b);
    var lowRem := JavaRem(low, m);
    HighBound(a, b);
    assert 0 <= high * r64 < 0x10_0000 * MULTIPLY_HIGH_BOUND by {
      MulNonneg(high, r64);
      MulNonneg(0x10_0000 - high, r64);
      MulNonneg(0x10_0000, MULTIPLY_HIGH_BOUND - r64);
    }
    var res := high * r64 + lowRem + (if low < 0 then r64 else 0);
    assert res % m == (a * b) % m by {
      JavaRemCongruent(low, m);
      ModIdempotent(TWO_64, m);
      CongMul(high, high, r64, TWO_64, m);
      CongAdd(high * r64, high * TWO_64, lowRem, low, m);
      MulNonneg(a, b);
      if low < 0 {
        CongAdd(high * r64 + lowRem, high * TWO_64 + low, r64, TWO_64, m);
        assert high * TWO_64 + low + TWO_64 == a * b;
      } else {
        assert high * TWO_64 + low == a * b;
      }
    }
    res
  }

  /** The 32-bit multiplier's lambda: (a*b)%mod, whose product fits in a long. */
  function PlainProduct(m: int, a: int, b: int): (r: int)
    requires 1 < m <= Common.MAX_LONG_SQRT && 0 <= a < m && 0 <= b < m
    ensures 0 <= r < m && r == (a * b) % m
  {
    assert a * b <= LONG_MAX by {
      MulNonneg(Common.MAX_LONG_SQRT - a, b);
      MulNonneg(Common.MAX_LONG_SQRT, Common.MAX_LONG_SQRT - b);
      Common.MaxLongSqrtIsSqrt();
    }
    MulNonneg(a, b);
    JavaDivNonneg(a * b, m);
    JavaRem(a * b, m)
  }

  /**
   * applyAsLong of a multiplier: every factory's operator returns the product
   * of two residues modulo its modulus (the modulus-1 operator ignores its
   * arguments, which pow feeds an unreduced 1).
   */
  function Apply(f: Multiplier, m: int, a: int, b: int): (r: int)
    requires Serves(f, m)
    requires f.Constant0? || (0 <= a < m && 0 <= b < m)
    ensures 0 <= r < m && r == (a * b) % m
  {
    match f
    case Constant0 => 0
    case Plain => PlainProduct(m, a, b)
    case HighLow(r64) => Common.Mod(HighLowSum(m, r64, a, b), m)
  }

  // ------------------------------------------------------------------
  // powSmall (long and BigInteger exponents)
  // ------------------------------------------------------------------

  /** One round of the right-to-left loop: res * t^k keeps its residue. */
  lemma RightToLeftStep(res: int, t: int, k: nat, m: int)
    requires m > 0 && k > 0
    ensures var res' := if k % 2 == 1 then (res * t) % m else res;
            (res' * Power((t * t) % m, k / 2)) % m == (res * Power(t, k)) % m
  {
    var t' := (t * t) % m;
    var half := Power(t', k / 2);
    assert Power(t, 2 * (k / 2)) % m == half % m by {
      assert Power(t, 2) == t * t;
      PowerMul(t, 2, k / 2);
      PowerMod(t * t, k / 2, m);
    }
    PowerAdd(t, 2 * (k / 2), k % 2);
    assert k == 2 * (k / 2) + k % 2;
    if k % 2 == 1 {
      assert Power(t, k) == Power(t, 2 * (k / 2)) * t;
      CongMul(res * t, (res * t) % m, Power(t, 2 * (k / 2)), half, m) by {
        ModIdempotent(res * t, m);
      }
      assert res * Power(t, k) == (res * t) * Power(t, 2 * (k / 2));
    } else {
      assert Power(t, k) == Power(t, 2 * (k / 2));
      CongMul(res, res, Power(t, 2 * (k / 2)), half, m);
    }
  }

  /**
   * powSmall(long b, long n, mult): from res = 1 and t = b, multiplies t into
   * res for every set bit of n while squaring t. For n == 0 it returns the
   * initial 1 untouched, whatever the modulus.
   */
  method PowSmall(b: int, n: int, f: Multiplier, m: int) returns (r: int)
    requires n >= 0 && Serves(f, m) && 0 <= b < m
    ensures n == 0 ==> r == 1
    ensures n > 0 ==> 0 <= r < m && r == Power(b, n) % m
  {
    var t := b;
    var res := 1;
    var k: nat := n;
    ghost var target := Power(b, n) % m;
    while k > 0
      invariant 0 <= t < m
      invariant res == 1 || 0 <= res < m
      invariant k == n ==> res == 1
      invariant k == 0 && n > 0 ==> 0 <= res < m
      invariant (res * Power(t, k)) % m == target
      decreases k
    {
      RightToLeftStep(res, t, k, m);
      if k % 2 == 1 {
        res := Apply(f, m, res, t);
      }
      t := Apply(f, m, t, t);
      k := k / 2;
    }
    if n > 0 {
      ModSmall(res, m);
    }
    r := res;
  }

  lemma ShiftHalves(n: nat, i: nat)
    ensures ModUtils.Shift(n, i + 1) == ModUtils.Shift(n, i) / 2
  {
    ModUtils.ShiftNext(n, i);
  }

  /**
   * powSmall(long b, BigInteger n, mult): the same loop over the bit
   * positions 0 .. bitLength(n) - 1.
   */
  method PowSmallBig(b: int, n: nat, f: Multiplier, m: int) returns (r: int)
    requires Serves(f, m) && 0 <= b < m
    ensures n == 0 ==> r == 1
    ensures n > 0 ==> 0 <= r < m && r == Power(b, n) % m
  {
    var t := b;
    var res := 1;
    var len := Bits(n);
    ghost var target := Power(b, n) % m;
    assert ModUtils.Shift(n, 0) == n;
    for i := 0 to len
      invariant 0 <= t < m
      invariant res == 1 || 0 <= res < m
      invariant n == 0 ==> res == 1
      invariant ModUtils.Shift(n, i) == 0 && n > 0 ==> 0 <= res < m
      invariant (res * Power(t, ModUtils.Shift(n, i))) % m == target
    {
      var k := ModUtils.Shift(n, i);
      ShiftHalves(n, i);
      if k == 0 {
        assert Power(t, 0) == 1 && Power((t * t) % m, 0) == 1;
      } else {
        RightToLeftStep(res, t, k, m);
      }
      if ModUtils.TestBit(n, i) {
        res := Apply(f, m, res, t);
      }
      t := Apply(f, m, t, t);
    }
    ModUtils.ShiftPastBits(n, len);
    if n > 0 {
      ModSmall(res, m);
    }
    r := res;
  }

  // ------------------------------------------------------------------
  // pow(long b, long n, long mod) and pow(BigInteger b, BigInteger n, BigInteger mod)
  // ------------------------------------------------------------------

  /**
   * pow(long b, long n, long mod): powSmall with the 32-bit multiplier up to
   * MAX_LONG_SQRT, with the 42-bit one up to MULTIPLY_HIGH_BOUND, and
   * BigInteger.modPow above. Unlike ModUtils.pow there is no modulus-1 case,
   * so b^0 with modulus 1 yields 1.
   */
  method Pow(b: int, n: int, m: int) returns (r: int)
    requires n >= 0 && m > 0
    ensures r == if n == 0 && m <= MULTIPLY_HIGH_BOUND then 1 else Power(b, n) % m
    ensures r % m == Power(b, n) % m
  {
    if m <= Common.MAX_LONG_SQRT {
      r := PowSmall(Common.Mod(b, m), n, ModMultiplier32bit(m), m);
    } else if m <= MULTIPLY_HIGH_BOUND {
      r := PowSmall(Common.Mod(b, m), n, ModMultiplier42bit(m), m);
    } else {
      r := Power(b, n) % m;
    }
    PowerMod(b, n, m);
    ModIdempotent(Power(b, n), m);
    if n == 0 {
      assert Power(b, 0) == 1;
    }
  }

  /**
   * pow(BigInteger b, BigInteger n, BigInteger mod): the same dispatch, with
   * b reduced by Common.mod(BigInteger) and the bits of n walked by position.
   */
  method PowBig(b: int, n: nat, m: int) returns (r: int)
    requires m > 0
    ensures r == if n == 0 && m <= MULTIPLY_HIGH_BOUND then 1 else Power(b, n) % m
    ensures r % m == Power(b, n) % m
  {
    if m <= Common.MAX_LONG_SQRT {
      r := PowSmallBig(Common.ModBig(b, m), n, ModMultiplier32bit(m), m);
    } else if m <= MULTIPLY_HIGH_BOUND {
      r := PowSmallBig(Common.ModBig(b, m), n, ModMultiplier42bit(m), m);
    } else {
      r := Power(b, n) % m;
    }
    PowerMod(b, n, m);
    ModIdempotent(Power(b, n), m);
    if n == 0 {
      assert Power(b, 0) == 1;
    }
  }

  // ------------------------------------------------------------------
  // divideLinearSum(A, B, P) with the gcd divided out
  // ------------------------------------------------------------------

  /** Dividing two numbers by their gcd leaves coprime quotients. */
  lemma GcdQuotientsCoprime(A: int, P: int)
    requires A > 0 && P > 0
    ensures Gcd(A, P) > 0 && A % Gcd(A, P) == 0 && P % Gcd(A, P) == 0
    ensures A / Gcd(A, P) > 0 && P / Gcd(A, P) > 0
    ensures Gcd(A / Gcd(A, P), P / Gcd(A, P)) == 1
  {
    var g := Gcd(A, P);
    GcdFactors(A, P);
    DivOfMultiple(A, g);
    DivOfMultiple(P, g);
    var A', P' := A / g, P / g;
    assert A' > 0 && P' > 0 by {
      FactorSign(g, A');
      FactorSign(g, P');
    }
    var (s, t) := Bezout(A, P);
    assert s * A + t * P == g;
    assert A == g * A' && P == g * P';
    FactorOut(g, s, t, A', P');
    assert (s * A' + t * P') * g == 1 * g;
    CancelFactor(g, s * A' + t * P', 1);
    BezoutAsCongruence(A', P', s, t);
    InvertibleCoprime(A', P', s);
  }

  lemma FactorOut(g: int, s: int, t: int, x: int, y: int)
    ensures s * (g * x) + t * (g * y) == (s * x + t * y) * g
  {
  }

  /** q*P' = A'*c + B' scales to q*(g*P') = (g*A')*c + g*B'. */
  lemma Rescale(g: int, q: int, P': int, A': int, c: int, B': int)
    requires q * P' == A' * c + B'
    ensures q * (g * P') == (g * A') * c + g * B'
  {
    assert q * (g * P') == g * (q * P');
    assert (g * A') * c == g * (A' * c);
  }

  /** g*d is a multiple of g*m exactly when d is a multiple of m. */
  lemma ScaleDivides(g: int, d: int, m: int)
    requires g > 0 && m > 0
    ensures g * m > 0
    ensures (g * d) % (g * m) == 0 <==> d % m == 0
  {
    MulAtLeast(m, g);
    if d % m == 0 {
      DivOfMultiple(d, m);
      assert g * d == (g * m) * (d / m);
      ModMultiple(g * m, d / m);
    }
    if (g * d) % (g * m) == 0 {
      DivOfMultiple(g * d, g * m);
      var q := (g * d) / (g * m);
      assert d * g == (m * q) * g;
      CancelFactor(g, d, m * q);
      ModMultiple(m, q);
    }
  }

  /** Scaling both sides and the modulus by g keeps a congruence, both ways. */
  lemma ScaleCongruent(g: int, y: int, z: int, m: int)
    requires g > 0 && m > 0
    ensures g * m > 0
    ensures Congruent(g * y, g * z, g * m) <==> Congruent(y, z, m)
  {
    ScaleDivides(g, y - z, m);
    CongIffDivides(g * y, g * z, g * m);
    CongIffDivides(y, z, m);
    assert g * y - g * z == g * (y - z);
  }

  /** P = g*P' hits g*A'*x + g*B' exactly when P' hits A'*x + B'. */
  lemma HitsScaled(A': int, B': int, P': int, g: int, x: int)
    requires g > 0 && P' > 0
    ensures g * P' > 0
    ensures Hits(g * A', g * B', g * P', x) <==> Hits(A', B', P', x)
  {
    ScaleDivides(g, A' * x + B', P');
    assert (g * A') * x + g * B' == g * (A' * x + B');
  }

  /** The first hit does not change when A, B and P are scaled by g. */
  lemma FirstHitScaled(A': int, B': int, P': int, g: int, c: int)
    requires g > 0 && P' > 0 && FirstHit(A', B', P', c)
    ensures g * P' > 0 && FirstHit(g * A', g * B', g * P', c)
  {
    HitsScaled(A', B', P', g, c);
    forall x | 0 <= x < c
      ensures !Hits(g * A', g * B', g * P', x)
    {
      HitsScaled(A', B', P', g, x);
    }
  }

  /** The lifted class survives scaling A, B and P by a common factor g. */
  lemma LiftedScaled(A': int, B': int, P': int, g: int, a: int, b: int)
    requires A' > 0 && P' > 0 && g > 0 && Lifted(A', B', P', a, b)
    ensures g * A' > 0 && g * P' > 0 && Lifted(g * A', g * B', g * P', a, b)
  {
    MulAtLeast(A', g);
    MulAtLeast(P', g);
    assert a * (g * P') == g * (a * P') by {
      MulAssocLeft(g, a, P');
    }
    assert a * (g * P') > 0 by {
      MulAtLeast(a * P', g);
    }
    forall X
      ensures Congruent(X, b * (g * P'), a * (g * P')) <==>
              Congruent(X, g * B', g * A') && X % (g * P') == 0
    {
      if X % g == 0 {
        DivOfMultiple(X, g);
        LiftedScaledMultiple(A', B', P', g, a, b, X / g);
      } else {
        LiftedScaledOther(A', B', P', g, a, b, X);
      }
    }
  }

  /** A multiple g*Y of g is in the scaled lifted class exactly when Y is in the original one. */
  lemma LiftedScaledMultiple(A': int, B': int, P': int, g: int, a: int, b: int, Y: int)
    requires A' > 0 && P' > 0 && g > 0 && Lifted(A', B', P', a, b)
    ensures g * A' > 0 && g * P' > 0 && a * (g * P') > 0
    ensures Congruent(g * Y, b * (g * P'), a * (g * P')) <==>
            Congruent(g * Y, g * B', g * A') && (g * Y) % (g * P') == 0
  {
    MulAtLeast(A', g);
    MulAtLeast(P', g);
    MulAssocLeft(g, a, P');
    MulAssocLeft(g, b, P');
    MulAtLeast(a * P', g);
    assert Congruent(Y, b * P', a * P') <==> Congruent(Y, B', A') && Y % P' == 0;
    ScaleCongruent(g, Y, b * P', a * P');
    ScaleCongruent(g, Y, B', A');
    ScaleDivides(g, Y, P');
  }

  /** A number that g does not divide is in neither the scaled lifted class nor the scaled progression. */
  lemma LiftedScaledOther(A': int, B': int, P': int, g: int, a: int, b: int, X: int)
    requires A' > 0 && P' > 0 && g > 0 && a > 0 && X % g != 0
    ensures g * A' > 0 && g * P' > 0 && a * (g * P') > 0
    ensures !Congruent(X, b * (g * P'), a * (g * P'))
    ensures X % (g * P') != 0
  {
    MulAtLeast(A', g);
    MulAtLeast(P', g);
    MulAtLeast(g * P', a);
    MulAssocLeft(a, g, P');
    MulAssocLeft(b, g, P');
    ModMultiple(g, P');
    ModMultiple(g, a * P');
    ModMultiple(g, b * P');
    if Congruent(X, b * (g * P'), a * (g * P')) {
      CongDivisor(X, b * (g * P'), a * (g * P'), g);
    }
    if X % (g * P') == 0 {
      DividesTrans(g, g * P', X);
    }
  }

  /** A common divisor of A and P that does not divide B rules out every hit. */
  lemma NoHitGcd(A: int, B: int, P: int, g: int)
    requires P > 0 && g > 0 && A % g == 0 && P % g == 0 && B % g != 0
    ensures forall x :: !Hits(A, B, P, x)
  {
    forall x
      ensures !Hits(A, B, P, x)
    {
      if Hits(A, B, P, x) {
        DividesTrans(g, P, A * x + B);
        DividesMul(g, A, x);
        DividesLinear(g, A * x + B, A * x, 1, -1);
        assert false;
      }
    }
  }

  /** A modulus that divides a number it is coprime to is 1. */
  lemma CoprimeDivisorIsOne(A: int, P: int)
    requires A > 0 && P > 0 && Gcd(A, P) == 1 && A % P == 0
    ensures P == 1
  {
    ModMultiple(P, 1);
    assert P % P == 0;
    CommonDivisorDividesGcd(P, A, P);
    DivisorAtMost(P, 1);
  }

  /**
   * The branch where P', reduced, divides A': coprimality forces P' = 1, and
   * (A'/P', B'/P') lifts the scaled class, whose first hit is at 0.
   */
  lemma DividedCase(A': int, B': int, P': int, g: int)
    requires A' > 0 && B' >= 0 && P' > 0 && g > 0 && Gcd(A', P') == 1 && A' % P' == 0
    ensures P' == 1 && A' / P' == A' && B' / P' == B' && B' % P' == 0
    ensures g * A' > 0 && g * P' > 0
    ensures Lifted(g * A', g * B', g * P', A' / P', B' / P')
    ensures FirstHit(g * A', g * B', g * P', 0)
    ensures (B' / P') * (g * P') == (g * A') * 0 + g * B'
  {
    CoprimeDivisorIsOne(A', P');
    LiftDivisible(A', B', P');
    LiftedScaled(A', B', P', g, A' / P', B' / P');
    assert FirstHit(A', B', P', 0);
    FirstHitScaled(A', B', P', g, 0);
  }

  /**
   * The branch where A' is invertible modulo P': C = -B' * A'^-1 mod P' is the
   * first hit, and (A', (A'*C + B')/P') lifts the scaled class.
   */
  lemma CoprimeCase(A': int, B': int, P': int, g: int, aInv: int)
    requires A' > 0 && B' >= 0 && P' > 0 && g > 0 && Gcd(A', P') == 1
    requires ((A' % P') * aInv) % P' == 1 % P'
    ensures var pb := if B' % P' == 0 then 0 else P' - B' % P';
            var C := (pb * aInv) % P';
            var Y := A' * C + B';
            0 <= C < P' && Y / P' >= 0 && g * A' > 0 && g * P' > 0 &&
            Lifted(g * A', g * B', g * P', A', Y / P') &&
            FirstHit(g * A', g * B', g * P', C) &&
            (Y / P') * (g * P') == (g * A') * C + g * B'
  {
    var pb := if B' % P' == 0 then 0 else P' - B' % P';
    var C := (pb * aInv) % P';
    RootOfLinear(A', B', P', aInv);
    forall x | 0 <= x < C
      ensures !Hits(A', B', P', x)
    {
      if Hits(A', B', P', x) {
        HitUnique(A', B', P', aInv, x, C);
      }
    }
    assert FirstHit(A', B', P', C);
    var Y := A' * C + B';
    ModAddMultiple(B', A', C);
    assert Y == B' + A' * C;
    LiftClass(A', B', P', Y);
    LiftedScaled(A', B', P', g, A', Y / P');
    FirstHitScaled(A', B', P', g, C);
    MulNonneg(A', C);
    DivOfMultiple(Y, P');
    Rescale(g, Y / P', P', A', C, B');
  }

  /**
   * divideLinearSum (Modules): divides A, B and P by g = gcd(A, P), failing
   * (Java's null) when g does not divide B; then (A/P, B/P) when P divides A,
   * and otherwise (A, (A*C + B)/P) with C = -B * A^-1 mod P. None exactly when
   * P divides no A*x + B; otherwise A*x + B = P*(a*y + b) over the members
   * that P divides, b*P being the first of them.
   */
  method DivideLinearSum(A: int, B: int, P: int) returns (r: Option<(int, int)>)
    requires A > 0 && B >= 0 && P > 0
    ensures r.None? <==> B % Gcd(A, P) != 0
    ensures r.None? <==> forall x :: !Hits(A, B, P, x)
    ensures r.Some? ==> r.value.0 * Gcd(A, P) == A
    ensures r.Some? ==> r.value.1 >= 0 && Lifted(A, B, P, r.value.0, r.value.1)
    ensures r.Some? ==> exists c :: 0 <= c < P && FirstHit(A, B, P, c) && r.value.1 * P == A * c + B
  {
    var g := Gcd(A, P);
    GcdQuotientsCoprime(A, P);
    if g > 1 && B % g != 0 {
      NoHitGcd(A, B, P, g);
      return None;
    }
    var A', B', P' := A, B, P;
    if g > 1 {
      A', B', P' := A / g, B / g, P / g;
    }
    Unscale(A, B, P, g, A', B', P');
    var aq, ar := A' / P', A' % P';
    var bq, br := B' / P', B' % P';
    if ar == 0 {
      DividedCase(A', B', P', g);
      r := if br == 0 then Some((aq, bq)) else None;
      return;
    }
    var pb := if br == 0 then 0 else P' - br;
    GcdResidue(A', P');
    var aInv := InverseOf(ar, P');
    var C := (pb * aInv) % P';
    ModIdempotent(A', P');
    CoprimeCase(A', B', P', g, aInv);
    r := Some((A', (A' * C + B') / P'));
  }

  /** The quotients by g = gcd(A, P) (or A, B, P themselves when g is 1). */
  lemma Unscale(A: int, B: int, P: int, g: int, A': int, B': int, P': int)
    requires A > 0 && B >= 0 && P > 0 && g == Gcd(A, P)
    requires g > 0 && A % g == 0 && P % g == 0 && B % g == 0
    requires Gcd(A / g, P / g) == 1
    requires A' == A / g && B' == B / g && P' == P / g
    ensures A == g * A' && B == g * B' && P == g * P'
    ensures A' > 0 && B' >= 0 && 0 < P' <= P && Gcd(A', P') == 1
  {
    DivOfMultiple(A, g);
    DivOfMultiple(P, g);
    DivOfMultiple(B, g);
    FactorSign(g, A');
    FactorSign(g, B');
    FactorSign(g, P');
    MulAtLeast(P', g);
  }

  // ------------------------------------------------------------------
  // rebalanceDivisors(A, B) and merge(A0, B0, A1, B1)
  // ------------------------------------------------------------------

  /**
   * rebalanceDivisors(A, B): the ModUtils algorithm, with gcd(A, B) computed
   * here rather than passed in.
   */
  method RebalanceDivisors(A: int, B: int) returns (a: int, b: int)
    requires A > 0 && B > 0
    ensures Split(A, B, a, b)
    ensures A % a == 0 && B % b == 0 && Gcd(a, b) == 1 && a * b * Gcd(A, B) == A * B
  {
    a, b := ModUtils.RebalanceDivisors(A, B, Gcd(A, B));
  }

  /** Reducing an offset by the full modulus keeps it modulo any divisor. */
  lemma ReducedOffset(B: int, A: int, a: int)
    requires B >= 0 && A > 0 && a > 0 && A % a == 0
    ensures JavaRem(B, A) >= 0 && JavaRem(B, A) % a == B % a
  {
    JavaDivNonneg(B, A);
    ModIdempotent(B, A);
    CongDivisor(B % A, B, A, a);
  }

  /**
   * merge (Modules): like ModUtils.merge, except that an offset whose modulus
   * shrank is reduced by the original modulus (B0.remainder(A0)). None exactly
   * when the classes are disjoint; otherwise the class of their common members
   * modulo lcm(A0, A1) = a0*a1.
   */
  method Merge(A0: int, B0: int, A1: int, B1: int) returns (r: Option<(int, int)>)
    requires A0 > 0 && B0 >= 0 && A1 > 0 && B1 >= 0
    ensures A0 == 1 ==> r == Some((A1, B1))
    ensures A0 != 1 && A1 == 1 ==> r == Some((A0, B0))
    ensures r.None? <==> B0 % Gcd(A0, A1) != B1 % Gcd(A0, A1)
    ensures r.None? ==> forall v :: !(Congruent(v, B0, A0) && Congruent(v, B1, A1))
    ensures r.Some? ==> r.value.1 >= 0 && Merged(A0, B0, A1, B1, r.value.0, r.value.1)
  {
    if A0 == 1 {
      MergeWithOne(A1, B1, B0);
      return Some((A1, B1));
    }
    if A1 == 1 {
      MergeWithOne(A0, B0, B1);
      return Some((A0, B0));
    }
    var g := Gcd(A0, A1);
    if B0 % g != B1 % g {
      NoCommonMember(A0, B0, A1, B1);
      return None;
    }
    var a0, a1 := RebalanceDivisors(A0, A1);
    var b0 := if a0 == A0 then B0 else JavaRem(B0, A0);
    var b1 := if a1 == A1 then B1 else JavaRem(B1, A1);
    ReducedOffset(B0, A0, a0);
    ReducedOffset(B1, A1, a1);
    var inv := InverseOf(a0, a1);
    var x := ((b1 - b0) * inv) % a1;
    var A := a0 * a1;
    var B := x * a0 + b0;
    GarnerMerged(A0, B0, A1, B1, a0, a1, b0, b1, inv);
    r := Some((A, B));
  }
}
