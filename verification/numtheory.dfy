/**
 * Divisibility facts beyond Arith: coprime moduli, least common multiples,
 * the smallest prime factor and p-adic valuations. These carry the proofs
 * about rebalanceDivisors and the generalized Chinese remainder merge.
 */
module NumTheory {
  import opened Arith

  // ------------------------------------------------------------------
  // Coprime divisors
  // ------------------------------------------------------------------

  lemma MulDividesBoth(a: int, b: int, x: int)
    requires a > 0 && b > 0 && x % b == 0
    ensures (a * x) % (a * b) == 0
  {
    DivOfMultiple(x, b);
    assert a * x == (a * b) * (x / b);
    MulNonneg(a, b);
    MulAtLeast(a, b);
    ModMultiple(a * b, x / b);
  }

  lemma BezoutSplit(a: int, b: int, x: int, s: int, t: int)
    requires s * a + t * b == 1
    ensures x == s * (a * x) + t * (b * x)
  {
    assert x == (s * a + t * b) * x;
    assert (s * a + t * b) * x == s * (a * x) + t * (b * x);
  }

  /** Two coprime divisors of x divide it together. */
  lemma CoprimeProductDivides(a: int, b: int, x: int)
    requires a > 0 && b > 0 && Gcd(a, b) == 1
    requires x % a == 0 && x % b == 0
    ensures x % (a * b) == 0
  {
    var (s, t) := Bezout(a, b);
    BezoutSplit(a, b, x, s, t);
    MulDividesBoth(a, b, x);
    MulDividesBoth(b, a, x);
    assert b * a == a * b;
    MulAtLeast(a, b);
    DividesLinear(a * b, a * x, b * x, s, t);
  }

  /** The Chinese remainder theorem, uniqueness half: two solutions agree modulo a * b. */
  lemma CrtUnique(a: int, b: int, u: int, v: int)
    requires a > 0 && b > 0 && Gcd(a, b) == 1
    requires u % a == v % a && u % b == v % b
    ensures u % (a * b) == v % (a * b)
  {
    CongIffDivides(u, v, a);
    CongIffDivides(u, v, b);
    CoprimeProductDivides(a, b, u - v);
    MulAtLeast(a, b);
    CongIffDivides(u, v, a * b);
  }

  /** A divisor of the gcd of two numbers divides both. */
  lemma GcdFactors(a: nat, b: nat)
    requires a > 0 || b > 0
    ensures Gcd(a, b) > 0 && a % Gcd(a, b) == 0 && b % Gcd(a, b) == 0
  {
    GcdDivides(a, b);
  }

  /** A number coprime to b is coprime to every divisor of b. */
  lemma CoprimeToDivisor(a: nat, b: nat, k: nat)
    requires a > 0 && b > 0 && k > 0 && Gcd(a, b) == 1 && b % k == 0
    ensures Gcd(a, k) == 1
  {
    GcdDivides(a, k);
    var g := Gcd(a, k);
    DividesTrans(g, k, b);
    CommonDivisorDividesGcd(g, a, b);
    DivisorAtMost(g, 1);
  }

  // ------------------------------------------------------------------
  // The smallest prime factor
  // ------------------------------------------------------------------

  function SmallestFactorFrom(n: int, d: int): (p: int)
    requires 2 <= d <= n
    requires forall k :: 2 <= k < d ==> n % k != 0
    ensures d <= p <= n && n % p == 0
    ensures forall k :: 2 <= k < p ==> n % k != 0
    decreases n - d
  {
    if n % d == 0 then d
    else
      assert d < n by {
        ModMultiple(n, 1);
      }
      SmallestFactorFrom(n, d + 1)
  }

  /** The smallest divisor of n above 1; it is prime. */
  function SmallestFactor(n: int): (p: int)
    requires n >= 2
    ensures IsPrime(p) && n % p == 0 && p <= n
    ensures forall k :: 2 <= k < p ==> n % k != 0
  {
    var p := SmallestFactorFrom(n, 2);
    forall k | 2 <= k < p
      ensures p % k != 0
    {
      if p % k == 0 {
        DividesTrans(k, p, n);
      }
    }
    p
  }

  /** A prime divisor of n with no divisor of n between 2 and it is n's smallest factor. */
  lemma SmallestFactorIs(n: int, p: int)
    requires n >= 2 && IsPrime(p) && n % p == 0
    requires forall k :: 2 <= k < p ==> n % k != 0
    ensures SmallestFactor(n) == p
  {
  }

  /** The prime factors of n, smallest first, each as often as it divides n; none for n < 2. */
  ghost function PrimeFactors(n: int): (fs: seq<int>)
    ensures forall k :: 0 <= k < |fs| ==> IsPrime(fs[k]) && fs[k] <= n
    decreases n
  {
    if n < 2 then []
    else
      var p := SmallestFactor(n);
      DivOfMultiple(n, p);
      MulAtLeast(n / p, p);
      [p] + PrimeFactors(n / p)
  }

  /** The factors of n start with its smallest prime p; the rest are those of n / p. */
  lemma PrimeFactorsUnfold(n: int, p: int)
    requires n >= 2 && IsPrime(p) && n % p == 0
    requires forall k :: 2 <= k < p ==> n % k != 0
    ensures PrimeFactors(n) == [p] + PrimeFactors(n / p)
  {
    SmallestFactorIs(n, p);
  }

  /** A prime is its own only factor. */
  lemma PrimeFactorsOfPrime(q: int)
    requires IsPrime(q)
    ensures PrimeFactors(q) == [q]
  {
    PrimeFactorsUnfold(q, q);
    assert q / q == 1;
  }

  // ------------------------------------------------------------------
  // p-adic valuations
  // ------------------------------------------------------------------

  /** The exponent of the prime p in n. */
  function Val(p: int, n: int): nat
    requires p >= 2 && n > 0
    decreases n
  {
    if n % p == 0 then
      DivOfMultiple(n, p);
      MulAtLeast(n / p, p);
      1 + Val(p, n / p)
    else 0
  }

  lemma DivideOutCommon(p: int, m: int, q: int)
    requires p > 0 && q > 0
    ensures (p * m) % (p * q) == 0 <==> m % q == 0
  {
    MulAtLeast(p, q);
    if m % q == 0 {
      MulDividesBoth(p, q, m);
    }
    if (p * m) % (p * q) == 0 {
      DivOfMultiple(p * m, p * q);
      var k := (p * m) / (p * q);
      assert p * m == p * (q * k);
      assert m == q * k;
      ModMultiple(q, k);
    }
  }

  /** p^k divides n exactly when k is at most the valuation. */
  lemma {:induction false} ValPowerDivides(p: int, k: nat, n: int)
    requires IsPrime(p) && n > 0
    ensures Power(p, k) >= 1
    ensures n % Power(p, k) == 0 <==> k <= Val(p, n)
    decreases k
  {
    PowerPositive(p, k);
    if k > 0 {
      PowerPositive(p, k - 1);
      assert Power(p, k) == p * Power(p, k - 1);
      if n % p == 0 {
        DivOfMultiple(n, p);
        var m := n / p;
        MulAtLeast(m, p);
        assert n == p * m;
        ValPowerDivides(p, k - 1, m);
        DivideOutCommon(p, m, Power(p, k - 1));
      } else {
        if n % Power(p, k) == 0 {
          ModMultiple(p, Power(p, k - 1));
          DividesTrans(p, Power(p, k), n);
        }
      }
    }
  }

  /** Multiplying by p adds one to the valuation at p. */
  lemma ValTimesPrime(p: int, z: int)
    requires IsPrime(p) && z > 0
    ensures p * z > 0 && Val(p, p * z) == 1 + Val(p, z)
  {
    MulAtLeast(z, p);
    ModMultiple(p, z);
  }

  /** Write x as p times its quotient. */
  lemma SplitPrime(p: int, x: int) returns (x': int)
    requires IsPrime(p) && x > 0 && x % p == 0
    ensures x' > 0 && x == p * x' && x' < x
  {
    x' := SplitFactor(p, x);
  }

  lemma SplitFactor(p: int, x: int) returns (x': int)
    requires p >= 2 && x > 0 && x % p == 0
    ensures x' > 0 && x == p * x' && x' < x
  {
    DivOfMultiple(x, p);
    x' := x / p;
    assert x == p * x';
    FactorSign(p, x');
    MulAtLeast(x', p - 1);
    assert p * x' == (p - 1) * x' + x';
  }

  lemma MulAssocLeft(p: int, a: int, b: int)
    ensures (p * a) * b == p * (a * b) && a * (p * b) == p * (a * b)
  {
  }

  /** The valuation of a product is the sum of the valuations. */
  lemma {:induction false} ValMul(p: int, x: int, y: int)
    requires IsPrime(p) && x > 0 && y > 0
    ensures x * y > 0 && Val(p, x * y) == Val(p, x) + Val(p, y)
    decreases x
  {
    MulAtLeast(x, y);
    if x % p == 0 {
      var x' := SplitPrime(p, x);
      MulAtLeast(x', y);
      ValMul(p, x', y);
      MulAssocLeft(p, x', y);
      ValTimesPrime(p, x' * y);
      ValTimesPrime(p, x');
    } else {
      ValMulUnit(p, x, y);
    }
  }

  /** Multiplying by a number that p does not divide keeps the valuation at p. */
  lemma {:induction false} ValMulUnit(p: int, x: int, y: int)
    requires IsPrime(p) && x > 0 && y > 0 && x % p != 0
    ensures x * y > 0 && Val(p, x * y) == Val(p, y)
    decreases y
  {
    MulAtLeast(x, y);
    if y % p == 0 {
      var y' := SplitPrime(p, y);
      MulAtLeast(x, y');
      ValMulUnit(p, x, y');
      MulAssocLeft(p, x, y');
      assert x * y == p * (x * y');
      ValTimesPrime(p, x * y');
      ValTimesPrime(p, y');
    } else {
      if (x * y) % p == 0 {
        EuclidLemma(p, x, y);
      }
    }
  }

  /** Valuation of a prime at another prime: 1 at itself, 0 elsewhere. */
  lemma ValPrime(p: int, q: int)
    requires IsPrime(p) && IsPrime(q)
    ensures Val(p, q) == if p == q then 1 else 0
  {
    if p == q {
      ModMultiple(p, 1);
      assert q / p == 1;
      assert Val(p, 1) == 0;
    } else if q % p == 0 {
      PrimeDivisors(q, p);
    }
  }

  lemma ValOne(p: int)
    requires IsPrime(p)
    ensures Val(p, 1) == 0
  {
  }

  /** The valuation of an exact quotient. */
  lemma ValDiv(p: int, x: int, y: int)
    requires IsPrime(p) && x > 0 && y > 0 && x % y == 0
    ensures x / y > 0 && Val(p, x / y) == Val(p, x) - Val(p, y)
  {
    DivOfMultiple(x, y);
    var q := x / y;
    FactorSign(y, q);
    assert x == y * q;
    ValMul(p, y, q);
  }

  /** The valuation of a gcd is the smaller valuation. */
  lemma ValGcd(p: int, x: int, y: int)
    requires IsPrime(p) && x > 0 && y > 0
    ensures Gcd(x, y) > 0
    ensures Val(p, Gcd(x, y)) == if Val(p, x) <= Val(p, y) then Val(p, x) else Val(p, y)
  {
    GcdDivides(x, y);
    var g := Gcd(x, y);
    var v := Val(p, g);
    ValPowerDivides(p, v, g);
    PowerPositive(p, v);
    DividesTrans(Power(p, v), g, x);
    DividesTrans(Power(p, v), g, y);
    ValPowerDivides(p, v, x);
    ValPowerDivides(p, v, y);
    var m := if Val(p, x) <= Val(p, y) then Val(p, x) else Val(p, y);
    ValPowerDivides(p, m, x);
    ValPowerDivides(p, m, y);
    PowerPositive(p, m);
    CommonDivisorDividesGcd(Power(p, m), x, y);
    ValPowerDivides(p, m, g);
  }

  /** A number whose valuations are all bounded by those of y divides y. */
  lemma {:induction false} DividesByVal(x: int, y: int)
    requires x > 0 && y > 0
    requires forall p :: IsPrime(p) ==> Val(p, x) <= Val(p, y)
    ensures y % x == 0
    decreases x
  {
    if x == 1 {
      ModMultiple(y, 1);
      assert y % 1 == 0;
    } else {
      var q := SmallestFactor(x);
      ValPowerDivides(q, 1, x);
      ValPowerDivides(q, 1, y);
      assert Power(q, 1) == q;
      var x' := SplitPrime(q, x);
      var y' := SplitPrime(q, y);
      DividesByValStep(q, x', y');
      DividesByVal(x', y');
      DivideOutCommon(q, y', x');
    }
  }

  lemma DividesByValStep(q: int, x': int, y': int)
    requires IsPrime(q) && x' > 0 && y' > 0
    requires forall p :: IsPrime(p) ==> Val(p, q * x') <= Val(p, q * y')
    ensures forall p :: IsPrime(p) ==> Val(p, x') <= Val(p, y')
  {
    MulAtLeast(x', q);
    MulAtLeast(y', q);
    forall p | IsPrime(p)
      ensures Val(p, x') <= Val(p, y')
    {
      ValMul(p, q, x');
      ValMul(p, q, y');
    }
  }

  /** Two numbers with no prime in common are coprime. */
  lemma CoprimeByVal(x: int, y: int)
    requires x > 0 && y > 0
    requires forall p :: IsPrime(p) ==> Val(p, x) == 0 || Val(p, y) == 0
    ensures Gcd(x, y) == 1
  {
    GcdDivides(x, y);
    var g := Gcd(x, y);
    if g >= 2 {
      var q := SmallestFactor(g);
      ValPowerDivides(q, 1, g);
      ValGcd(q, x, y);
      assert false;
    }
  }

  /** A prime-by-prime match of the valuations makes two numbers equal. */
  lemma EqualByVal(x: int, y: int)
    requires x > 0 && y > 0
    requires forall p :: IsPrime(p) ==> Val(p, x) == Val(p, y)
    ensures x == y
  {
    DividesByVal(x, y);
    DividesByVal(y, x);
    DivisorAtMost(x, y);
    DivisorAtMost(y, x);
  }

  // ------------------------------------------------------------------
  // Modular inverses
  // ------------------------------------------------------------------

  lemma BezoutAsCongruence(a: int, n: int, s: int, t: int)
    requires n > 0 && s * a + t * n == 1
    ensures (a * s) % n == 1 % n
  {
    assert a * s == 1 + n * (-t);
    ModAddMultiple(1, n, -t);
  }

  /** The inverse of a modulo n, in [0, n), when a and n are coprime. */
  function InverseOf(a: nat, n: nat): (x: int)
    requires n > 0 && Gcd(a, n) == 1
    ensures 0 <= x < n && (a * x) % n == 1 % n
  {
    var (s, t) := Bezout(a, n);
    BezoutAsCongruence(a, n, s, t);
    ModIdempotent(s, n);
    CongMul(a, a, s, s % n, n);
    s % n
  }

  /** The inverse modulo n is unique in [0, n). */
  lemma InverseUnique(a: int, n: int, x: int, y: int)
    requires n > 0 && 0 <= x < n && 0 <= y < n
    requires (a * x) % n == 1 % n && (a * y) % n == 1 % n
    ensures x == y
  {
    // y = y * (a * x) = x * (a * y) = x  (mod n)
    CongMul(y, y, a * x, 1, n);
    CongMul(x, x, a * y, 1, n);
    SwapOuter(a, x, y);
    assert y % n == x % n by {
      assert y * 1 == y && x * 1 == x;
    }
    ModSmall(x, n);
    ModSmall(y, n);
  }

  lemma SwapOuter(a: int, x: int, y: int)
    ensures y * (a * x) == x * (a * y)
  {
  }

  lemma ModAsLinear(v: int, n: int)
    requires n > 0
    ensures v % n == 1 * v + (-(v / n)) * n
  {
  }

  /** An element with an inverse modulo n is coprime to n. */
  lemma InvertibleCoprime(a: nat, n: nat, x: int)
    requires n > 0 && (a * x) % n == 1 % n
    ensures Gcd(a, n) == 1
  {
    if n == 1 {
      assert Gcd(a, 1) == Gcd(1, a % 1);
      assert Gcd(1, 0) == 1;
    } else {
      GcdDivides(a, n);
      var g := Gcd(a, n);
      DividesMul(g, a, x);
      ModAsLinear(a * x, n);
      DividesLinear(g, a * x, n, 1, -((a * x) / n));
      ModSmall(1, n);
      DivisorAtMost(g, 1);
    }
  }

  /** Gcd(a % n, n) == Gcd(a, n): the gcd depends only on the residue. */
  lemma GcdResidue(a: nat, n: nat)
    requires n > 0
    ensures Gcd(a % n, n) == Gcd(a, n)
  {
    GcdSymmetric(a % n, n);
  }

  // ------------------------------------------------------------------
  // Division by a product
  // ------------------------------------------------------------------

  /** n / (a * b) == (n / a) / b for positive a and b. */
  lemma DivDiv(n: int, a: int, b: int)
    requires n >= 0 && a > 0 && b > 0
    ensures a * b > 0 && n / (a * b) == (n / a) / b
  {
    MulAtLeast(a, b);
    var q1 := n / a;
    var r1 := n % a;
    var q2 := q1 / b;
    var r2 := q1 % b;
    assert n == a * q1 + r1;
    assert q1 == b * q2 + r2;
    assert n == (a * b) * q2 + (a * r2 + r1) by {
      assert a * q1 == a * (b * q2) + a * r2;
      assert a * (b * q2) == (a * b) * q2;
    }
    MulNonneg(a, r2);
    assert a * r2 <= a * (b - 1) by {
      MulNonneg(a, b - 1 - r2);
      assert a * (b - 1) - a * r2 == a * (b - 1 - r2);
    }
    assert a * (b - 1) + a == a * b;
    DivModUnique(n, a * b, q2, a * r2 + r1);
  }
}
