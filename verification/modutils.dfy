/**
 * common/ModUtils.java: modular exponentiation with a long or a big
 * exponent, multipliers chosen by the size of the modulus, modular inverses
 * by the extended Euclidean algorithm, the rewriting of A*x + B as
 * p*(a*y + b), the generalized two-congruence Chinese remainder merge with
 * rebalanceDivisors, and the multi-modulus restore of Garner's algorithm.
 */
module ModUtils {
  import opened Wrappers
  import opened Arith
  import opened NumTheory
  import opened JavaLang
  import opened Crt
  import Common

  const TWO_42: int := 0x400_0000_0000
  const TWO_47: int := 0x8000_0000_0000
  const TWO_50: int := 0x4_0000_0000_0000
  const TWO_52: int := 0x10_0000_0000_0000

  // ------------------------------------------------------------------
  // modMultiplier(long mod)
  // ------------------------------------------------------------------

  /**
   * The multiplier modMultiplier hands out: the constant 0 for mod 1, a plain
   * `(a*b)%mod` while the product fits in a long, and otherwise a reduction of
   * the 128-bit product that uses r64 = 2^64 mod mod.
   */
  datatype Multiplier = Zero | Direct | Reduced(r64: int)

  /** (((1L<<62)%mod)<<2)%mod, which is 2^64 mod mod. */
  function R64(m: int): (r: int)
    requires 0 < m < TWO_52
    ensures 0 <= r < m && r == Power(2, 64) % m
  {
    assert Power(2, 64) == Power(2, 62) * 4 by {
      PowerAdd(2, 62, 2);
    }
    ModMulLeft(Power(2, 62), 4, m);
    ((Power(2, 62) % m) * 4) % m
  }

  /** The multiplier for a modulus, or None (Java's null) from 2^52 on. */
  function ModMultiplier(m: int): (r: Option<Multiplier>)
    requires m > 0
    ensures r.None? <==> m >= TWO_52
    ensures r == Some(Zero) <==> m == 1
    ensures r == Some(Direct) <==> 1 < m <= Common.MAX_LONG_SQRT
    ensures r.Some? && r.value.Reduced? ==> r.value.r64 == Power(2, 64) % m
  {
    if m == 1 then Some(Zero)
    else if m <= Common.MAX_LONG_SQRT then Some(Direct)
    else if m < TWO_52 then Some(Reduced(R64(m)))
    else None
  }

  /** Applying a multiplier to two residues gives their product modulo m. */
  function Apply(f: Multiplier, m: int, a: int, b: int): (r: int)
    requires m > 0 && ModMultiplier(m) == Some(f)
    requires f.Zero? || (0 <= a < m && 0 <= b < m)
    ensures 0 <= r < m
    ensures r == (a * b) % m
  {
    match f
    case Zero => 0
    case Direct =>
      assert a * b <= LONG_MAX by {
        MulNonneg(Common.MAX_LONG_SQRT - a, b);
        MulNonneg(Common.MAX_LONG_SQRT, Common.MAX_LONG_SQRT - b);
        Common.MaxLongSqrtIsSqrt();
      }
      MulNonneg(a, b);
      JavaDivNonneg(a * b, m);
      JavaRem(a * b, m)
    case Reduced(_) => Common.Mod(a * b, m)
  }

  // ------------------------------------------------------------------
  // pow(long b, long n, long mod)
  // ------------------------------------------------------------------

  /** Squaring the base halves an even exponent. */
  lemma PowHalf(t: int, k: nat, m: int)
    requires m > 0 && k % 2 == 0
    ensures Power((t * t) % m, k / 2) % m == Power(t, k) % m
  {
    PowerMul(t, 2, k / 2);
    assert 2 * (k / 2) == k;
    assert Power(t, 2) == t * t;
    PowerMod(t * t, k / 2, m);
  }

  /** An odd exponent splits off one factor of the base. */
  lemma PowOdd(t: int, k: nat)
    requires k % 2 == 1
    ensures Power(t, k) == t * Power(t, 2 * (k / 2))
  {
    assert k == 2 * (k / 2) + 1;
  }

  /** What is still owed by square-and-multiply: res * t^(2k) modulo m. */
  function Pending(res: int, t: int, k: nat, m: int): int
    requires m > 0
  {
    (res * Power(t, 2 * k)) % m
  }

  /** One round of the square-and-multiply loop keeps res * t^(2k) modulo m. */
  lemma PowStep(res: int, t: int, k: nat, m: int)
    requires m > 0
    ensures var t' := (t * t) % m;
            var res' := if k % 2 == 1 then (res * t') % m else res;
            Pending(res, t, k, m) == Pending(res', t', k / 2, m)
  {
    var t' := (t * t) % m;
    var big := Power(t', 2 * (k / 2));
    PendingSquare(res, t, k, m);
    if k % 2 == 1 {
      PowOdd(t', k);
      PendingOdd(res, t', big, m);
    } else {
      assert k == 2 * (k / 2);
    }
  }

  /** Squaring the base modulo m: res * t^(2k) == res * (t*t mod m)^k. */
  lemma PendingSquare(res: int, t: int, k: nat, m: int)
    requires m > 0
    ensures Pending(res, t, k, m) == (res * Power((t * t) % m, k)) % m
  {
    PowHalf(t, 2 * k, m);
    assert 2 * k / 2 == k;
    CongMul(res, res, Power(t, 2 * k), Power((t * t) % m, k), m);
  }

  /** The odd bit moves one factor t' into the running result. */
  lemma PendingOdd(res: int, t': int, big: int, m: int)
    requires m > 0
    ensures (res * (t' * big)) % m == (((res * t') % m) * big) % m
  {
    assert res * (t' * big) == (res * t') * big;
    ModIdempotent(res * t', m);
    CongMul(res * t', (res * t') % m, big, big, m);
  }

  /** Nothing is owed once the exponent is used up. */
  lemma PendingDone(res: int, t: int, m: int)
    requires 0 <= res < m
    ensures Pending(res, t, 0, m) == res
  {
    assert Power(t, 0) == 1;
    ModSmall(res, m);
  }

  /**
   * pow(long b, long n, long mod): 0 for mod 1, 1 for n == 0, BigInteger.modPow
   * when no multiplier exists, and otherwise square-and-multiply that starts
   * at the lowest set bit of n.
   */
  method Pow(b: int, n: int, m: int) returns (r: int)
    requires n >= 0 && m > 0
    ensures 0 <= r < m
    ensures r == Power(b, n) % m
  {
    if m == 1 {
      return 0;
    }
    if n == 0 {
      ModSmall(1, m);
      return 1;
    }
    var multiplier := ModMultiplier(m);
    if multiplier.None? {
      return Power(b, n) % m;
    }
    var f := multiplier.value;
    ghost var target := Power(b, n) % m;
    var t := Common.Mod(b, m);
    PowerMod(b, n, m);
    var k: nat := n;
    while k % 2 == 0
      invariant k >= 1 && 0 <= t < m
      invariant Power(t, k) % m == target
      decreases k
    {
      PowHalf(t, k, m);
      t := Apply(f, m, t, t);
      k := k / 2;
    }
    var res := t;
    PowOdd(t, k);
    assert Pending(res, t, k / 2, m) == target;
    k := k / 2;
    while k > 0
      invariant 0 <= t < m && 0 <= res < m
      invariant Pending(res, t, k, m) == target
      decreases k
    {
      PowStep(res, t, k, m);
      t := Apply(f, m, t, t);
      if k % 2 == 1 {
        res := Apply(f, m, res, t);
      }
      k := k / 2;
    }
    PendingDone(res, t, m);
    r := res;
  }

  // ------------------------------------------------------------------
  // pow(long b, BigInteger n, long mod)
  // ------------------------------------------------------------------

  /** n >> pos */
  function Shift(n: nat, pos: nat): nat
  {
    PowerPositive(2, pos);
    n / Power(2, pos)
  }

  /** n.testBit(pos) */
  predicate TestBit(n: nat, pos: nat)
  {
    Shift(n, pos) % 2 == 1
  }

  lemma ShiftNext(n: nat, pos: nat)
    ensures Shift(n, pos + 1) == Shift(n, pos) / 2
  {
    PowerPositive(2, pos);
    DivDiv(n, Power(2, pos), 2);
    assert Power(2, pos + 1) == 2 * Power(2, pos);
    assert Power(2, pos) * 2 == Power(2, pos + 1);
  }

  /** Past the bit length nothing is left of n. */
  lemma ShiftPastBits(n: nat, pos: nat)
    requires pos >= Bits(n)
    ensures Shift(n, pos) == 0
  {
    BitsBound(n);
    if pos > Bits(n) {
      PowerGrows(2, Bits(n), pos);
    }
    PowerPositive(2, pos);
    ModSmall(n, Power(2, pos));
  }

  lemma ShiftBelowBits(n: nat, pos: nat)
    requires Shift(n, pos) >= 1
    ensures pos < Bits(n)
  {
    if pos >= Bits(n) {
      ShiftPastBits(n, pos);
    }
  }

  /** pow(long b, BigInteger n, long mod): the same algorithm, walking the bits of n by position. */
  method PowBig(b: int, n: nat, m: int) returns (r: int)
    requires m > 0
    ensures 0 <= r < m
    ensures r == Power(b, n) % m
  {
    if m == 1 {
      return 0;
    }
    if n == 0 {
      ModSmall(1, m);
      return 1;
    }
    var multiplier := ModMultiplier(m);
    if multiplier.None? {
      return Power(b, n) % m;
    }
    var f := multiplier.value;
    var pos := 0;
    var t := Common.Mod(b, m);
    PowerMod(b, n, m);
    assert Shift(n, 0) == n;
    while !TestBit(n, pos)
      invariant Shift(n, pos) >= 1 && 0 <= t < m
      invariant Power(t, Shift(n, pos)) % m == Power(b, n) % m
      decreases Shift(n, pos)
    {
      PowHalf(t, Shift(n, pos), m);
      ShiftNext(n, pos);
      t := Apply(f, m, t, t);
      pos := pos + 1;
    }
    ShiftBelowBits(n, pos);
    PowOdd(t, Shift(n, pos));
    ShiftNext(n, pos);
    r := PowBits(f, m, n, pos + 1, t, t);
  }

  /** The multiply phase of pow(long b, BigInteger n, long mod): bits pos .. bitLength-1 of n. */
  method PowBits(f: Multiplier, m: int, n: nat, pos0: nat, t0: int, res0: int) returns (r: int)
    requires m > 0 && ModMultiplier(m) == Some(f) && m > 1
    requires pos0 <= Bits(n) && 0 <= t0 < m && 0 <= res0 < m
    ensures 0 <= r < m
    ensures r == Pending(res0, t0, Shift(n, pos0), m)
  {
    ghost var target := Pending(res0, t0, Shift(n, pos0), m);
    var t, res, pos := t0, res0, pos0;
    var bitLength := Bits(n);
    while pos < bitLength
      invariant pos <= bitLength
      invariant 0 <= t < m && 0 <= res < m
      invariant Pending(res, t, Shift(n, pos), m) == target
      decreases bitLength - pos
    {
      PowStep(res, t, Shift(n, pos), m);
      ShiftNext(n, pos);
      t := Apply(f, m, t, t);
      if TestBit(n, pos) {
        res := Apply(f, m, res, t);
      }
      pos := pos + 1;
    }
    ShiftPastBits(n, pos);
    PendingDone(res, t, m);
    r := res;
  }

  // ------------------------------------------------------------------
  // modInverse and gcdExt
  // ------------------------------------------------------------------

  lemma GcdStep(a: nat, b: nat)
    requires a > 0
    ensures Gcd(b % a, a) == Gcd(a, b)
  {
    GcdSymmetric(b % a, a);
    GcdSymmetric(a, b);
  }

  lemma BezoutStep(a: int, b: int, x0: int, x1: int, d: int)
    requires a > 0 && b >= 0 && x0 * (b % a) + x1 * a == d
    ensures (x1 - (b / a) * x0) * a + x0 * b == d
  {
    assert b % a == b - (b / a) * a;
    assert x0 * (b - (b / a) * a) == x0 * b - ((b / a) * x0) * a;
  }

  /** gcdExt: the gcd of a and b, with Bezout coefficients written into xy. */
  method GcdExt(a: int, b: int, xy: array<int>) returns (d: int)
    requires a >= 0 && b >= 0 && xy.Length == 2
    modifies xy
    ensures d == Gcd(a, b)
    ensures xy[0] * a + xy[1] * b == d
    decreases a
  {
    if a == 0 {
      xy[0] := 0;
      xy[1] := 1;
      GcdZero(b);
      return b;
    }
    d := GcdExt(b % a, a, xy);
    GcdStep(a, b);
    BezoutStep(a, b, xy[0], xy[1], d);
    var x := xy[1] - (b / a) * xy[0];
    var y := xy[0];
    xy[0] := x;
    xy[1] := y;
  }

  /**
   * modInverse(long a, long n): the inverse of a modulo n in [0, n), or an
   * IllegalArgumentException (here Err) when gcd(a, n) != 1.
   */
  method ModInverse(a: int, n: int) returns (r: Result<int>)
    requires a >= 0 && n > 0
    ensures r.Ok? <==> Gcd(a, n) == 1
    ensures r.Ok? ==> 0 <= r.value < n && (a * r.value) % n == 1 % n
    ensures r.Ok? ==> r.value == InverseOf(a, n)
  {
    var xy := new int[2];
    var g := GcdExt(a, n, xy);
    if g != 1 {
      return Err("Cannot invert");
    }
    var x := Common.Mod(xy[0], n);
    assert (a * xy[0]) % n == 1 % n by {
      BezoutAsCongruence(a, n, xy[0], xy[1]);
    }
    ModIdempotent(xy[0], n);
    CongMul(a, a, xy[0], x, n);
    InverseUnique(a, n, x, InverseOf(a, n));
    r := Ok(x);
  }

  /**
   * modInverse(BigInteger a, BigInteger n): through the long version when n
   * fits in a long, otherwise BigInteger.modInverse, whose result is the same
   * unique inverse.
   */
  method ModInverseBig(a: int, n: int) returns (r: Result<int>)
    requires a > 0 && n > 0
    ensures r.Ok? <==> Gcd(a, n) == 1
    ensures r.Ok? ==> 0 <= r.value < n && (a * r.value) % n == 1 % n
    ensures r.Ok? ==> r.value == InverseOf(a, n)
  {
    GcdResidue(a, n);
    if n <= Common.MAX_LONG {
      var a' := Common.ModBig(a, n);
      r := ModInverse(a', n);
      if r.Ok? {
        ModIdempotent(a, n);
        CongMul(a, a', r.value, r.value, n);
        InverseUnique(a, n, r.value, InverseOf(a, n));
      }
    } else if Gcd(a, n) == 1 {
      r := Ok(InverseOf(a, n));
    } else {
      r := Err("BigInteger not invertible.");
    }
  }

  // ------------------------------------------------------------------
  // divideLinearSum(A, B, P), P prime
  // ------------------------------------------------------------------

  /** For prime P, (A mod P)^(P-2) mod P is the inverse of A modulo P. */
  lemma InverseByFermat(P: int, A: int, aInv: int)
    requires IsPrime(P) && A % P != 0 && aInv == Power(A % P, P - 2) % P
    ensures ((A % P) * aInv) % P == 1 % P
  {
    var ar := A % P;
    ModIdempotent(A, P);
    FermatInverse(P, ar);
    ModIdempotent(Power(ar, P - 2), P);
    CongMul(ar, ar, Power(ar, P - 2), aInv, P);
    ModSmall(1, P);
  }

  /**
   * divideLinearSum: for prime P, rewrites the members A*x + B that P divides
   * as P*(a*y + b). None (Java's null) exactly when P divides A but not B,
   * which is exactly when P divides no A*x + B; otherwise b*P is the first
   * such member, reached at the least x >= 0.
   */
  method DivideLinearSum(A: int, B: int, P: int) returns (r: Option<(int, int)>)
    requires A > 0 && B >= 0 && IsPrime(P)
    ensures r.None? <==> A % P == 0 && B % P != 0
    ensures r.None? <==> forall x :: !Hits(A, B, P, x)
    ensures r.Some? ==> r.value.1 >= 0 && Lifted(A, B, P, r.value.0, r.value.1)
    ensures r.Some? ==> exists c :: c < P && FirstHit(A, B, P, c) && r.value.1 * P == A * c + B
    ensures r.Some? && B < A ==> r.value.1 < r.value.0
  {
    var aq, ar := A / P, A % P;
    var bq, br := B / P, B % P;
    if ar == 0 {
      if br == 0 {
        LiftDivisible(A, B, P);
        assert FirstHit(A, B, P, 0);
        assert B < A ==> bq < aq by {
          if B < A {
            QuotientsKeepOrder(A, B, P);
          }
        }
        return Some((aq, bq));
      } else {
        NoHit(A, B, P);
        return None;
      }
    }
    var aInv: int;
    if P <= Common.MAX_LONG {
      aInv := Pow(ar, P - 2, P);
    } else {
      aInv := Power(ar, P - 2) % P;
    }
    InverseByFermat(P, A, aInv);
    var pb := if br == 0 then 0 else P - br;
    var C := (pb * aInv) % P;
    var Y := A * C + B;
    UnitLift(A, B, P, aInv, C, Y);
    r := Some((A, Y / P));
  }

  /**
   * The unit case of divideLinearSum: C solves A*C + B == 0 (mod P), it is
   * the first such x, and Y = A*C + B lifts the class B mod A to Y/P mod A.
   */
  lemma UnitLift(A: int, B: int, P: int, aInv: int, C: int, Y: int)
    requires A > 0 && B >= 0 && IsPrime(P) && A % P != 0 && ((A % P) * aInv) % P == 1 % P
    requires C == ((if B % P == 0 then 0 else P - B % P) * aInv) % P && Y == A * C + B
    ensures 0 <= C < P && FirstHit(A, B, P, C) && Y / P >= 0 && Lifted(A, B, P, A, Y / P)
    ensures (Y / P) * P == A * C + B
    ensures B < A ==> Y / P < A
  {
    RootOfLinear(A, B, P, aInv);
    forall x | 0 <= x < C
      ensures !Hits(A, B, P, x)
    {
      if Hits(A, B, P, x) {
        HitUnique(A, B, P, aInv, x, C);
      }
    }
    assert FirstHit(A, B, P, C);
    assert Gcd(A, P) == 1 by {
      PrimeCoprime(P, A);
      GcdResidue(A, P);
    }
    ModAddMultiple(B, A, C);
    assert Y == B + A * C;
    LiftClass(A, B, P, Y);
    MulNonneg(A, C);
    DivOfMultiple(Y, P);
    JavaDivNonneg(Y, P);
    if B < A {
      BelowNextMultiple(A, B, C, P, Y);
    }
  }

  /** A*C + B with C < P and B < A stays below A*P, so its P-th part stays below A. */
  lemma BelowNextMultiple(A: int, B: int, C: int, P: int, Y: int)
    requires A > 0 && 0 <= B < A && 0 <= C < P && Y == A * C + B && Y % P == 0
    ensures Y / P < A
  {
    MulNonneg(A, P - 1 - C);
    assert A * P - A * C == A * (P - 1 - C) + A;
    DivOfMultiple(Y, P);
    assert P * (A - Y / P) == A * P - P * (Y / P);
    FactorSign(P, A - Y / P);
  }

  /** Two multiples of P keep their order when divided by P. */
  lemma QuotientsKeepOrder(A: int, B: int, P: int)
    requires P > 0 && A % P == 0 && B % P == 0 && B < A
    ensures B / P < A / P
  {
    DivOfMultiple(A, P);
    DivOfMultiple(B, P);
    assert P * (A / P - B / P) == A - B;
    FactorSign(P, A / P - B / P);
  }

  // ------------------------------------------------------------------
  // rebalanceDivisors(A, B, gcd)
  // ------------------------------------------------------------------

  /**
   * rebalanceDivisors: splits lcm(A, B) into coprime a | A and b | B. The
   * loop next := gcd(A, next^2) collects, from gcd(A, g^2)/g on, the full
   * powers in A of the primes that A holds to a higher power than B does.
   */
  method RebalanceDivisors(A: int, B: int, g: int) returns (a: int, b: int)
    requires A > 0 && B > 0 && g == Gcd(A, B)
    ensures Split(A, B, a, b)
    ensures A % a == 0 && B % b == 0 && Gcd(a, b) == 1 && a * b * g == A * B
  {
    if g == 1 {
      SplitCoprime(A, B);
      SplitLcm(A, B, A, B);
      return A, B;
    }
    CollectsStart(A, B, g);
    var gcdA := Gcd(A, g * g);
    var prev := 1;
    var next := gcdA / g;
    while prev != next
      invariant Collects(A, B, next) && prev > 0 && next % prev == 0
      invariant prev == 1 || next == Gcd(A, prev * prev)
      decreases A - prev
    {
      DivisorAtMost(prev, next);
      DivisorAtMost(next, A);
      CollectsStep(A, B, next);
      prev := next;
      next := Gcd(A, prev * prev);
    }
    CollectsFixed(A, B, next);
    RebalanceResult(A, B, g, next);
    var bs := Gcd(g, next);
    var sa := g / bs;
    a := A / sa;
    b := B / bs;
    SplitLcm(A, B, a, b);
  }

  // ------------------------------------------------------------------
  // merge(A0, B0, A1, B1)
  // ------------------------------------------------------------------

  /**
   * merge: the generalized Garner step for two classes B0 mod A0 and B1 mod
   * A1. None exactly when the classes are disjoint; otherwise the class
   * B mod lcm(A0, A1) of their common members, canonical when the inputs are.
   */
  method Merge(A0: int, B0: int, A1: int, B1: int) returns (r: Option<(int, int)>)
    requires A0 > 0 && B0 >= 0 && A1 > 0 && B1 >= 0
    ensures A0 == 1 ==> r == Some((A1, B1))
    ensures A0 != 1 && A1 == 1 ==> r == Some((A0, B0))
    ensures r.None? <==> B0 % Gcd(A0, A1) != B1 % Gcd(A0, A1)
    ensures r.None? ==> forall v :: !(Congruent(v, B0, A0) && Congruent(v, B1, A1))
    ensures r.Some? ==> r.value.1 >= 0 && Merged(A0, B0, A1, B1, r.value.0, r.value.1)
    ensures r.Some? && B0 < A0 && B1 < A1 ==> r.value.1 < r.value.0
  {
    if A0 == 1 {
      MergeWithOne(A1, B1, B0);
      return Some((A1, B1));
    }
    if A1 == 1 {
      MergeWithOne(A0, B0, B1);
      return Some((A0, B0));
    }
    var g := Gcd(A0, A1);
    if B0 % g != B1 % g {
      NoCommonMember(A0, B0, A1, B1);
      return None;
    }
    var a0, a1 := RebalanceDivisors(A0, A1, g);
    var b0 := if a0 == A0 then B0 else JavaRem(B0, a0);
    var b1 := if a1 == A1 then B1 else JavaRem(B1, a1);
    JavaRemCongruent(B0, a0);
    JavaRemCongruent(B1, a1);
    var inv := ModInverseBig(a0, a1);
    var x := ((b1 - b0) * inv.value) % a1;
    var A := a0 * a1;
    var B := x * a0 + b0;
    GarnerMerged(A0, B0, A1, B1, a0, a1, b0, b1, inv.value);
    r := Some((A, B));
  }

  // ------------------------------------------------------------------
  // restoreByCRT(long[] p, long[] r)
  // ------------------------------------------------------------------

  /** The mixed-radix value d[0] + d[1]*p[0] + d[2]*p[0]*p[1] + ... */
  function MixedRadix(d: seq<int>, p: seq<int>): int
    requires |d| <= |p|
  {
    if d == [] then 0
    else MixedRadix(d[..|d| - 1], p) + d[|d| - 1] * Common.Product(p[..|d| - 1])
  }

  lemma PrefixProduct(p: seq<int>, k: nat)
    requires k < |p|
    ensures Common.Product(p[..k + 1]) == Common.Product(p[..k]) * p[k]
  {
    assert p[..k + 1] == p[..k] + [p[k]];
    Common.ProductAppend(p[..k], [p[k]]);
    assert Common.Product([p[k]]) == p[k] * Common.Product([]);
  }

  /** Every earlier modulus divides the product of a longer prefix. */
  lemma {:induction false} PrefixProductDivisible(p: seq<int>, i: nat, k: nat)
    requires k < i <= |p| && p[k] > 0
    ensures Common.Product(p[..i]) % p[k] == 0
    decreases i
  {
    PrefixProduct(p, i - 1);
    if i == k + 1 {
      ModMultiple(p[k], Common.Product(p[..k]));
    } else {
      PrefixProductDivisible(p, i - 1, k);
      DividesMul(p[k], Common.Product(p[..i - 1]), p[i - 1]);
    }
  }

  /** Digits in range give a value in [0, p[0]*...*p[k-1]). */
  lemma {:induction false} MixedRadixBound(d: seq<int>, p: seq<int>)
    requires |d| <= |p|
    requires forall k :: 0 <= k < |d| ==> 0 <= d[k] < p[k]
    ensures 0 <= MixedRadix(d, p) < Common.Product(p[..|d|])
    decreases |d|
  {
    if d != [] {
      var k := |d| - 1;
      MixedRadixBound(d[..k], p);
      PrefixProduct(p, k);
      DigitBound(Common.Product(p[..k]), p[k], d[k], MixedRadix(d[..k], p));
      assert d[..k][..k] == d[..k];
    }
  }

  /**
   * One inner step of Garner's algorithm: replacing x_i by
   * inv(p_j) * (x_i - x_j) mod p_i, while the radix grows by p_j, keeps
   * prefix + radix * x_i modulo p_i.
   */
  lemma GarnerDigit(M: int, P: int, pj: int, xj: int, xi: int, inv: int, q: int)
    requires q > 0 && (pj * inv) % q == 1 % q
    ensures (M + xj * P + (P * pj) * ((inv * (xi - xj)) % q)) % q == (M + P * xi) % q
  {
    var y := (inv * (xi - xj)) % q;
    ModIdempotent(inv * (xi - xj), q);
    CongMul(P * pj, P * pj, y, inv * (xi - xj), q);
    assert (P * pj) * (inv * (xi - xj)) == (P * (xi - xj)) * (pj * inv);
    CongMul(P * (xi - xj), P * (xi - xj), pj * inv, 1, q);
    CongAdd(M + xj * P, M + xj * P, (P * pj) * y, P * (xi - xj), q);
    assert M + xj * P + P * (xi - xj) == M + P * xi;
  }

  /** Adding a multiple of d leaves the residue modulo d unchanged. */
  lemma AddMultipleMod(a: int, b: int, d: int)
    requires d > 0 && b % d == 0
    ensures (a + b) % d == a % d
  {
    CongAdd(a, a, b, 0, d);
  }

  /** One inner step of restoreByCRT, on the digits fixed so far. */
  lemma InnerStep(d: seq<int>, p: seq<int>, j: nat, xi: int, inv: int, q: int, target: int)
    requires j < |d| <= |p| && q > 0 && (p[j] * inv) % q == 1 % q
    requires (MixedRadix(d[..j], p) + Common.Product(p[..j]) * xi) % q == target
    ensures (MixedRadix(d[..j + 1], p) + Common.Product(p[..j + 1]) * ((inv * (xi - d[j])) % q)) % q == target
  {
    assert d[..j + 1][..j] == d[..j];
    PrefixProduct(p, j);
    GarnerDigit(MixedRadix(d[..j], p), Common.Product(p[..j]), p[j], d[j], xi, inv, q);
  }

  /** Appending a digit adds it at the weight of the prefix product. */
  lemma MixedRadixSnoc(d: seq<int>, v: int, p: seq<int>)
    requires |d| < |p|
    ensures MixedRadix(d + [v], p) == MixedRadix(d, p) + v * Common.Product(p[..|d|])
  {
    assert (d + [v])[..|d|] == d;
  }

  /** Appending digit x_i keeps the earlier congruences and adds the i-th one. */
  lemma OuterStep(result: int, mult: int, xi: int, p: seq<int>, r: seq<int>, i: nat)
    requires i < |p| && i < |r| && forall k :: 0 <= k <= i ==> p[k] > 0
    requires mult == Common.Product(p[..i])
    requires forall k :: 0 <= k < i ==> result % p[k] == r[k] % p[k]
    requires (result + mult * xi) % p[i] == r[i] % p[i]
    ensures forall k :: 0 <= k <= i ==> (result + xi * mult) % p[k] == r[k] % p[k]
  {
    assert xi * mult == mult * xi;
    forall k | 0 <= k < i
      ensures (result + xi * mult) % p[k] == r[k] % p[k]
    {
      PrefixProductDivisible(p, i, k);
      DividesMul(p[k], mult, xi);
      AddMultipleMod(result, xi * mult, p[k]);
    }
  }

  /**
   * restoreByCRT: Garner's algorithm over pairwise coprime moduli. x[i] is
   * the i-th mixed-radix digit, and the result is congruent to r[i] modulo
   * every p[i]; it lies in [0, p[0]*...*p[n-1]) when r[0] is already reduced.
   */
  method RestoreByCRT(p: array<int>, r: array<int>) returns (result: int)
    requires p.Length <= r.Length
    requires forall k :: 0 <= k < p.Length ==> p[k] > 0
    requires forall j, i :: 0 <= j < i < p.Length ==> Gcd(p[j], p[i]) == 1
    ensures forall k :: 0 <= k < p.Length ==> result % p[k] == r[k] % p[k]
    ensures p.Length == 0 ==> result == 0
    ensures p.Length > 0 && 0 <= r[0] < p[0] ==> 0 <= result < Common.Product(p[..])
  {
    ghost var ps, rs := p[..], r[..];
    result := 0;
    var mult := 1;
    var x: seq<int> := [];
    for i := 0 to p.Length
      invariant |x| == i
      invariant Garner(x, ps, rs, result, mult)
    {
      var d := Digit(x, p, r);
      GarnerStep(x, ps, rs, result, mult, d);
      x := x + [d];
      result := result + d * mult;
      mult := mult * p[i];
    }
    GarnerDone(x, ps, rs, result, mult);
  }

  /**
   * What restoreByCRT keeps after the digits xs: mult is the product of the
   * moduli so far, result the mixed-radix value of the digits, congruent to
   * r[k] modulo every p[k] so far, and every digit but the first reduced.
   */
  ghost predicate Garner(xs: seq<int>, ps: seq<int>, rs: seq<int>, result: int, mult: int)
  {
    |xs| <= |ps| <= |rs| && (forall k :: 0 <= k < |ps| ==> ps[k] > 0) &&
    mult == Common.Product(ps[..|xs|]) &&
    result == MixedRadix(xs, ps) &&
    Restored(result, ps, rs, |xs|) &&
    (forall k :: 1 <= k < |xs| ==> 0 <= xs[k] < ps[k]) &&
    (|xs| > 0 ==> xs[0] == rs[0])
  }

  /** result is congruent to rs[k] modulo ps[k] for every k < n (kept recursive so that it unfolds one modulus at a time). */
  ghost predicate Restored(result: int, ps: seq<int>, rs: seq<int>, n: nat)
    requires n <= |ps| && n <= |rs|
    decreases n
  {
    n == 0 || (Restored(result, ps, rs, n - 1) && ps[n - 1] > 0 && result % ps[n - 1] == rs[n - 1] % ps[n - 1])
  }

  lemma {:induction false} RestoredAll(result: int, ps: seq<int>, rs: seq<int>, n: nat)
    requires n <= |ps| && n <= |rs|
    ensures Restored(result, ps, rs, n) <==> forall k :: 0 <= k < n ==> ps[k] > 0 && result % ps[k] == rs[k] % ps[k]
    decreases n
  {
    if n > 0 {
      RestoredAll(result, ps, rs, n - 1);
    }
  }

  /** After the last digit the congruences cover every modulus, and the value is reduced when r[0] is. */
  lemma GarnerDone(xs: seq<int>, ps: seq<int>, rs: seq<int>, result: int, mult: int)
    requires Garner(xs, ps, rs, result, mult) && |xs| == |ps|
    ensures forall k :: 0 <= k < |ps| ==> result % ps[k] == rs[k] % ps[k]
    ensures |ps| == 0 ==> result == 0
    ensures |ps| > 0 && 0 <= rs[0] < ps[0] ==> 0 <= result < Common.Product(ps)
  {
    RestoredAll(result, ps, rs, |ps|);
    if |ps| > 0 && 0 <= rs[0] < ps[0] {
      MixedRadixBound(xs, ps);
      assert ps[..|xs|] == ps;
    }
  }

  /** Appending the digit the inner loop produces keeps the outer loop's invariant. */
  lemma GarnerStep(xs: seq<int>, ps: seq<int>, rs: seq<int>, result: int, mult: int, xi: int)
    requires Garner(xs, ps, rs, result, mult) && |xs| < |ps|
    requires |xs| == 0 ==> xi == rs[0]
    requires |xs| > 0 ==> 0 <= xi < ps[|xs|]
    requires (MixedRadix(xs, ps) + Common.Product(ps[..|xs|]) * xi) % ps[|xs|] == rs[|xs|] % ps[|xs|]
    ensures Garner(xs + [xi], ps, rs, result + xi * mult, mult * ps[|xs|])
  {
    GarnerValues(xs, ps, result, mult, xi, |xs + [xi]|);
    DigitsStep(xs, ps, rs, xi);
    RestoredStep(result, mult, xi, ps, rs, |xs|, |xs + [xi]|, MixedRadix(xs, ps), Common.Product(ps[..|xs|]));
  }

  /** The new value and multiplier of the outer loop are the mixed-radix value and the product one digit further. */
  lemma GarnerValues(xs: seq<int>, ps: seq<int>, result: int, mult: int, xi: int, n: nat)
    requires |xs| < |ps| && n == |xs| + 1
    requires result == MixedRadix(xs, ps) && mult == Common.Product(ps[..|xs|])
    ensures result + xi * mult == MixedRadix(xs + [xi], ps)
    ensures mult * ps[|xs|] == Common.Product(ps[..n])
  {
    MixedRadixSnoc(xs, xi, ps);
    PrefixProduct(ps, |xs|);
  }

  /** The digits after the first stay reduced, and the first is r[0]. */
  lemma DigitsStep(xs: seq<int>, ps: seq<int>, rs: seq<int>, xi: int)
    requires |xs| < |ps| <= |rs|
    requires (forall k :: 1 <= k < |xs| ==> 0 <= xs[k] < ps[k]) && (|xs| > 0 ==> xs[0] == rs[0])
    requires |xs| == 0 ==> xi == rs[0]
    requires |xs| > 0 ==> 0 <= xi < ps[|xs|]
    ensures forall k :: 1 <= k < |xs + [xi]| ==> 0 <= (xs + [xi])[k] < ps[k]
    ensures |xs + [xi]| > 0 ==> (xs + [xi])[0] == rs[0]
  {
  }

  /** The congruences of the outer loop: the new digit adds the one for modulus i and keeps the earlier ones. */
  lemma RestoredStep(result: int, mult: int, xi: int, ps: seq<int>, rs: seq<int>, i: nat, n: nat, R: int, M: int)
    requires i < |ps| <= |rs| && (forall k :: 0 <= k < |ps| ==> ps[k] > 0) && n == i + 1
    requires mult == M && M == Common.Product(ps[..i]) && result == R && Restored(result, ps, rs, i)
    requires (R + M * xi) % ps[i] == rs[i] % ps[i]
    ensures Restored(result + xi * mult, ps, rs, n)
  {
    RestoredAll(result, ps, rs, i);
    OuterStep(result, mult, xi, ps, rs, i);
    RestoredAll(result + xi * mult, ps, rs, n);
  }

  /**
   * The inner loop of restoreByCRT: x[i] starts at r[i] and is reduced
   * against every earlier digit, so that x[0..i) followed by x[i] spells a
   * value congruent to r[i] modulo p[i].
   */
  method Digit(x: seq<int>, p: array<int>, r: array<int>) returns (d: int)
    requires |x| < p.Length <= r.Length
    requires forall k :: 0 <= k <= |x| ==> p[k] > 0
    requires forall j :: 0 <= j < |x| ==> Gcd(p[j], p[|x|]) == 1
    ensures |x| == 0 ==> d == r[0]
    ensures |x| > 0 ==> 0 <= d < p[|x|]
    ensures (MixedRadix(x, p[..]) + Common.Product(p[..|x|]) * d) % p[|x|] == r[|x|] % p[|x|]
  {
    var i := |x|;
    ghost var ps := p[..];
    ghost var target := r[i] % p[i];
    d := r[i];
    for j := 0 to i
      invariant j == 0 ==> d == r[i]
      invariant j >= 1 ==> 0 <= d < ps[i]
      invariant (MixedRadix(x[..j], ps) + Common.Product(ps[..j]) * d) % ps[i] == target
    {
      var inv := ModInverse(p[j], p[i]);
      InnerStep(x, ps, j, d, inv.value, p[i], target);
      d := Common.Mod(inv.value * (d - x[j]), p[i]);
    }
    assert x[..i] == x;
  }
}
