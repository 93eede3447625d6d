/**
 * Integer arithmetic shared by the model: powers, Euclidean division facts,
 * greatest common divisors with Bezout coefficients, primes, Euclid's lemma
 * and Fermat's little theorem.
 *
 * Dafny's `/` and `%` are Euclidean: for m > 0, `a % m` lies in [0, m).
 */
module Arith {

  // ------------------------------------------------------------------
  // Small facts about multiplication, kept apart so that each proof
  // obligation stays linear at the call site.
  // ------------------------------------------------------------------

  lemma MulNonneg(a: int, b: int)
    requires a >= 0 && b >= 0
    ensures a * b >= 0
  {
  }

  /** The cofactor of a positive number takes the sign of the product. */
  lemma FactorSign(a: int, b: int)
    requires a > 0
    ensures a * b > 0 ==> b > 0
    ensures a * b >= 0 ==> b >= 0
  {
    if b < 0 {
      MulAtLeast(a, -b);
      assert a * b == -(a * (-b));
    }
  }

  lemma MulAtLeast(m: int, k: int)
    requires m > 0 && k >= 1
    ensures m * k >= m
  {
    MulNonneg(m, k - 1);
    assert m * k == m * (k - 1) + m;
  }

  lemma MulSwapMiddle(a: int, b: int, c: int, d: int)
    ensures (a * b) * (c * d) == (a * c) * (b * d)
  {
    assert (a * b) * (c * d) == a * (b * (c * d));
    assert b * (c * d) == c * (b * d);
    assert a * (c * (b * d)) == (a * c) * (b * d);
  }

  lemma MulSubDistrib(m: int, x: int, y: int)
    ensures m * x - m * y == m * (x - y)
  {
  }

  // ------------------------------------------------------------------
  // Powers
  // ------------------------------------------------------------------

  function Power(b: int, n: nat): int
    decreases n
  {
    if n == 0 then 1 else b * Power(b, n - 1)
  }

  lemma {:induction false} PowerAdd(b: int, m: nat, n: nat)
    ensures Power(b, m + n) == Power(b, m) * Power(b, n)
    decreases m
  {
    if m > 0 {
      PowerAdd(b, m - 1, n);
      assert Power(b, m + n) == b * Power(b, m - 1 + n);
      assert b * (Power(b, m - 1) * Power(b, n)) == (b * Power(b, m - 1)) * Power(b, n);
    }
  }

  lemma {:induction false} PowerMul(b: int, m: nat, n: nat)
    ensures Power(b, m * n) == Power(Power(b, m), n)
    decreases n
  {
    if n > 0 {
      PowerMul(b, m, n - 1);
      assert m * n == m * (n - 1) + m;
      PowerAdd(b, m * (n - 1), m);
    }
  }

  lemma {:induction false} PowerOfProduct(a: int, b: int, n: nat)
    ensures Power(a * b, n) == Power(a, n) * Power(b, n)
    decreases n
  {
    if n > 0 {
      PowerOfProduct(a, b, n - 1);
      MulSwapMiddle(a, b, Power(a, n - 1), Power(b, n - 1));
    }
  }

  lemma {:induction false} PowerNonneg(b: int, n: nat)
    requires b >= 0
    ensures Power(b, n) >= 0
    decreases n
  {
    if n > 0 {
      PowerNonneg(b, n - 1);
    }
  }

  lemma {:induction false} PowerPositive(b: int, n: nat)
    requires b >= 1
    ensures Power(b, n) >= 1
    decreases n
  {
    if n > 0 {
      PowerPositive(b, n - 1);
      assert b * Power(b, n - 1) >= Power(b, n - 1);
    }
  }

  lemma {:induction false} PowerOne(n: nat)
    ensures Power(1, n) == 1
    decreases n
  {
    if n > 0 {
      PowerOne(n - 1);
    }
  }

  lemma {:induction false} PowerGrows(b: int, m: nat, n: nat)
    requires b >= 2 && m < n
    ensures Power(b, m) < Power(b, n)
    decreases n
  {
    PowerPositive(b, n - 1);
    if m < n - 1 {
      PowerGrows(b, m, n - 1);
    }
    var x := Power(b, n - 1);
    MulNonneg(b - 2, x);
    assert b * x == (b - 2) * x + 2 * x;
  }

  // ------------------------------------------------------------------
  // Euclidean division
  // ------------------------------------------------------------------

  lemma DivModUnique(a: int, m: int, q: int, r: int)
    requires m > 0 && 0 <= r < m && a == m * q + r
    ensures a / m == q && a % m == r
  {
    var q', r' := a / m, a % m;
    assert m * q' + r' == m * q + r;
    MulSubDistrib(m, q', q);
    MulSubDistrib(m, q, q');
    if q' > q {
      MulAtLeast(m, q' - q);
    } else if q' < q {
      MulAtLeast(m, q - q');
    }
  }

  lemma ModAddMultiple(a: int, m: int, k: int)
    requires m > 0
    ensures (a + m * k) % m == a % m
    ensures (a + m * k) / m == a / m + k
  {
    DivModUnique(a + m * k, m, a / m + k, a % m);
  }

  lemma ModMultiple(m: int, k: int)
    requires m > 0
    ensures (m * k) % m == 0 && (k * m) % m == 0 && (m * k) / m == k
  {
    ModAddMultiple(0, m, k);
  }

  lemma ModIdempotent(a: int, m: int)
    requires m > 0
    ensures (a % m) % m == a % m
  {
    DivModUnique(a % m, m, 0, a % m);
  }

  lemma ModSmall(a: int, m: int)
    requires 0 <= a < m
    ensures a % m == a && a / m == 0
  {
    DivModUnique(a, m, 0, a);
  }

  lemma ModAdd(a: int, b: int, m: int)
    requires m > 0
    ensures (a + b) % m == ((a % m) + (b % m)) % m
  {
    var qa, qb := a / m, b / m;
    assert a + b == (a % m) + (b % m) + m * (qa + qb);
    ModAddMultiple((a % m) + (b % m), m, qa + qb);
  }

  lemma ModSub(a: int, b: int, m: int)
    requires m > 0
    ensures (a - b) % m == ((a % m) - (b % m)) % m
  {
    var qa, qb := a / m, b / m;
    assert a - b == (a % m) - (b % m) + m * (qa - qb);
    ModAddMultiple((a % m) - (b % m), m, qa - qb);
  }

  lemma ModMulLeft(a: int, b: int, m: int)
    requires m > 0
    ensures (a * b) % m == ((a % m) * b) % m
  {
    var q := a / m;
    assert a == (a % m) + m * q;
    assert a * b == (a % m) * b + m * (q * b);
    ModAddMultiple((a % m) * b, m, q * b);
  }

  lemma ModMul(a: int, b: int, m: int)
    requires m > 0
    ensures (a * b) % m == ((a % m) * (b % m)) % m
  {
    ModMulLeft(a, b, m);
    ModMulLeft(b, a % m, m);
    assert (a % m) * b == b * (a % m);
    assert (b % m) * (a % m) == (a % m) * (b % m);
  }

  lemma ModNeg(a: int, m: int)
    requires m > 0
    ensures (-a) % m == (m - a % m) % m
  {
    ModSub(0, a, m);
    ModAddMultiple(-(a % m), m, 1);
    ModSmall(0, m);
  }

  /** Equal residues of the factors give equal residues of the products. */
  lemma CongMul(a: int, a': int, b: int, b': int, m: int)
    requires m > 0 && a % m == a' % m && b % m == b' % m
    ensures (a * b) % m == (a' * b') % m
  {
    ModMul(a, b, m);
    ModMul(a', b', m);
  }

  lemma CongAdd(a: int, a': int, b: int, b': int, m: int)
    requires m > 0 && a % m == a' % m && b % m == b' % m
    ensures (a + b) % m == (a' + b') % m
  {
    ModAdd(a, b, m);
    ModAdd(a', b', m);
  }

  lemma CongSub(a: int, a': int, b: int, b': int, m: int)
    requires m > 0 && a % m == a' % m && b % m == b' % m
    ensures (a - b) % m == (a' - b') % m
  {
    ModSub(a, b, m);
    ModSub(a', b', m);
  }

  /** a % m == b % m exactly when m divides a - b. */
  lemma CongIffDivides(a: int, b: int, m: int)
    requires m > 0
    ensures a % m == b % m <==> (a - b) % m == 0
  {
    ModSub(a, b, m);
    var d := (a % m) - (b % m);
    assert -m < d < m;
    if d < 0 {
      ModAddMultiple(d, m, 1);
      ModSmall(d + m, m);
    } else {
      ModSmall(d, m);
    }
  }

  lemma {:induction false} PowerMod(b: int, n: nat, m: int)
    requires m > 0
    ensures Power(b, n) % m == Power(b % m, n) % m
    decreases n
  {
    if n > 0 {
      PowerMod(b, n - 1, m);
      ModIdempotent(b, m);
      CongMul(b, b % m, Power(b, n - 1), Power(b % m, n - 1), m);
    }
  }

  lemma {:induction false} PowerCong(a: int, b: int, n: nat, m: int)
    requires m > 0 && a % m == b % m
    ensures Power(a, n) % m == Power(b, n) % m
  {
    PowerMod(a, n, m);
    PowerMod(b, n, m);
  }

  /** Dividing a product by a factor it is a multiple of. */
  lemma DivOfMultiple(a: int, d: int)
    requires d > 0 && a % d == 0
    ensures a == d * (a / d)
  {
  }

  lemma DividesTrans(a: int, b: int, c: int)
    requires a > 0 && b > 0 && b % a == 0 && c % b == 0
    ensures c % a == 0
  {
    var k, l := b / a, c / b;
    assert c == b * l;
    assert b == a * k;
    assert c == a * (k * l);
    ModMultiple(a, k * l);
  }

  lemma DividesMul(d: int, a: int, b: int)
    requires d > 0 && a % d == 0
    ensures (a * b) % d == 0
  {
    var k := a / d;
    assert a * b == d * (k * b);
    ModMultiple(d, k * b);
  }

  lemma DividesLinear(d: int, a: int, b: int, x: int, y: int)
    requires d > 0 && a % d == 0 && b % d == 0
    ensures (x * a + y * b) % d == 0
  {
    DividesMul(d, a, x);
    DividesMul(d, b, y);
    ModAdd(a * x, b * y, d);
    assert x * a + y * b == a * x + b * y;
  }

  lemma DivisorAtMost(d: int, n: int)
    requires d > 0 && n > 0 && n % d == 0
    ensures d <= n
  {
    var k := n / d;
    assert n == d * k;
    assert k >= 1;
    assert d * k >= d * 1;
  }

  // ------------------------------------------------------------------
  // Greatest common divisor and Bezout coefficients
  // ------------------------------------------------------------------

  function Gcd(a: nat, b: nat): (r: nat)
    ensures a > 0 || b > 0 ==> r > 0
    decreases b
  {
    if b == 0 then a else Gcd(b, a % b)
  }

  /** Gcd of arbitrary integers, as java.math.BigInteger.gcd computes it (of the absolute values). */
  function AbsGcd(a: int, b: int): nat
  {
    Gcd(if a < 0 then -a else a, if b < 0 then -b else b)
  }

  /** Bezout coefficients by the extended Euclidean algorithm. */
  function Bezout(a: nat, b: nat): (r: (int, int))
    decreases b
    ensures r.0 * a + r.1 * b == Gcd(a, b)
  {
    if b == 0 then (1, 0)
    else
      var (x, y) := Bezout(b, a % b);
      assert a % b == a - b * (a / b);
      assert y * (a % b) == y * a - (y * (a / b)) * b;
      (y, x - y * (a / b))
  }

  lemma {:induction false} GcdDivides(a: nat, b: nat)
    requires a > 0 || b > 0
    ensures Gcd(a, b) > 0 && a % Gcd(a, b) == 0 && b % Gcd(a, b) == 0
    decreases b
  {
    if b == 0 {
      ModMultiple(a, 1);
      ModSmall(0, a);
    } else {
      GcdDivides(b, a % b);
      var g := Gcd(a, b);
      assert a == b * (a / b) + a % b;
      DividesLinear(g, b, a % b, a / b, 1);
    }
  }

  /** Every common divisor divides the gcd. */
  lemma CommonDivisorDividesGcd(d: int, a: nat, b: nat)
    requires d > 0 && a % d == 0 && b % d == 0
    ensures Gcd(a, b) % d == 0
  {
    var (x, y) := Bezout(a, b);
    DividesLinear(d, a, b, x, y);
  }

  lemma {:induction false} GcdSymmetric(a: nat, b: nat)
    ensures Gcd(a, b) == Gcd(b, a)
  {
    if a == 0 && b == 0 {
    } else {
      GcdDivides(a, b);
      GcdDivides(b, a);
      CommonDivisorDividesGcd(Gcd(a, b), b, a);
      CommonDivisorDividesGcd(Gcd(b, a), a, b);
      DivisorAtMost(Gcd(a, b), Gcd(b, a));
      DivisorAtMost(Gcd(b, a), Gcd(a, b));
    }
  }

  lemma GcdZero(a: nat)
    ensures Gcd(a, 0) == a && Gcd(0, a) == a
  {
    GcdSymmetric(0, a);
  }

  /** The gcd is the unique positive common divisor that every common divisor divides. */
  lemma GcdUnique(g: int, a: nat, b: nat)
    requires a > 0 || b > 0
    requires g > 0 && a % g == 0 && b % g == 0
    requires forall d :: d > 0 && a % d == 0 && b % d == 0 ==> g % d == 0
    ensures g == Gcd(a, b)
  {
    GcdDivides(a, b);
    CommonDivisorDividesGcd(g, a, b);
    DivisorAtMost(g, Gcd(a, b));
    DivisorAtMost(Gcd(a, b), g);
  }

  // ------------------------------------------------------------------
  // Primes, Euclid's lemma
  // ------------------------------------------------------------------

  predicate IsPrime(n: int)
  {
    n >= 2 && forall d :: 2 <= d < n ==> n % d != 0
  }

  lemma PrimeDivisors(p: int, d: int)
    requires IsPrime(p) && d > 0 && p % d == 0
    ensures d == 1 || d == p
  {
    DivisorAtMost(d, p);
  }

  /** A prime that does not divide a is coprime to it. */
  lemma PrimeCoprime(p: int, a: int)
    requires IsPrime(p) && a % p != 0
    ensures Gcd(a % p, p) == 1
  {
    var r := a % p;
    GcdDivides(r, p);
    var g := Gcd(r, p);
    PrimeDivisors(p, g);
    if g == p {
      DivisorAtMost(g, r);
    }
  }

  lemma EuclidLemma(p: int, a: int, b: int)
    requires IsPrime(p) && (a * b) % p == 0 && a % p != 0
    ensures b % p == 0
  {
    var r := a % p;
    PrimeCoprime(p, a);
    var (x, y) := Bezout(r, p);
    assert x * r + y * p == 1;
    BezoutScaled(x, r, y, p, b);
    ModMulLeft(a, b, p);
    ModMultiple(p, y * b);
    DividesLinear(p, r * b, p * (y * b), x, 1);
  }

  lemma BezoutScaled(x: int, r: int, y: int, p: int, b: int)
    requires x * r + y * p == 1
    ensures b == x * (r * b) + 1 * (p * (y * b))
  {
    assert b == (x * r + y * p) * b;
    assert (x * r + y * p) * b == (x * r) * b + (y * p) * b;
    assert (x * r) * b == x * (r * b);
    assert (y * p) * b == p * (y * b);
  }

  /** Multiplication by a unit modulo a prime can be cancelled. */
  lemma CancelMod(p: int, a: int, x: int, y: int)
    requires IsPrime(p) && a % p != 0 && (a * x) % p == (a * y) % p
    ensures x % p == y % p
  {
    CongIffDivides(a * x, a * y, p);
    assert a * x - a * y == a * (x - y);
    EuclidLemma(p, a, x - y);
    CongIffDivides(x, y, p);
  }

  // ------------------------------------------------------------------
  // Fermat's little theorem, by the binomial theorem
  // ------------------------------------------------------------------

  function Binom(n: nat, k: nat): nat
    decreases n
  {
    if k == 0 then 1 else if n == 0 then 0 else Binom(n - 1, k - 1) + Binom(n - 1, k)
  }

  lemma {:induction false} BinomAbove(n: nat, k: nat)
    requires k > n
    ensures Binom(n, k) == 0
    decreases n
  {
    if n > 0 {
      BinomAbove(n - 1, k - 1);
      BinomAbove(n - 1, k);
    }
  }

  lemma AbsorbAlgebra(n: int, k: int, a: int, b: int, c: int, d: int)
    requires a == c + d && (k - 1) * a == (n - 1) * c && k * b == (n - 1) * d
    ensures k * (a + b) == n * a
  {
    assert k * (a + b) == (k - 1) * a + a + k * b;
    assert (n - 1) * c + (n - 1) * d == (n - 1) * (c + d);
    assert (n - 1) * a + a == n * a;
  }

  lemma {:induction false} BinomAbsorb(n: nat, k: nat)
    requires n >= 1 && k >= 1
    ensures k * Binom(n, k) == n * Binom(n - 1, k - 1)
    decreases n
  {
    if n == 1 {
      if k > 1 {
        BinomAbove(1, k);
        BinomAbove(0, k - 1);
      }
    } else if k == 1 {
      BinomAbsorb(n - 1, 1);
      assert Binom(n, 1) == Binom(n - 1, 0) + Binom(n - 1, 1);
    } else {
      BinomAbsorb(n - 1, k - 1);
      BinomAbsorb(n - 1, k);
      assert Binom(n, k) == Binom(n - 1, k - 1) + Binom(n - 1, k);
      assert Binom(n - 1, k - 1) == Binom(n - 2, k - 2) + Binom(n - 2, k - 1);
      AbsorbAlgebra(n, k, Binom(n - 1, k - 1), Binom(n - 1, k), Binom(n - 2, k - 2), Binom(n - 2, k - 1));
    }
  }

  lemma BinomPrime(p: int, k: nat)
    requires IsPrime(p) && 1 <= k < p
    ensures Binom(p, k) % p == 0
  {
    BinomAbsorb(p, k);
    ModMultiple(p, Binom(p - 1, k - 1));
    ModSmall(k, p);
    EuclidLemma(p, k, Binom(p, k));
  }

  /** Sum of Binom(n, k) * x^k for k < j. */
  function BinomSum(n: nat, x: int, j: nat): int
    decreases j
  {
    if j == 0 then 0 else BinomSum(n, x, j - 1) + Binom(n, j - 1) * Power(x, j - 1)
  }

  lemma SumStepAlgebra(s1: int, s0: int, t1: int, x: int, b0: int, b1: int, px: int, px1: int, lhs: int)
    requires lhs == t1 + (b0 + b1) * px && t1 == s1 + x * s0 && px == x * px1
    ensures lhs == (s1 + b1 * px) + x * (s0 + b0 * px1)
  {
    assert (b0 + b1) * px == b0 * px + b1 * px;
    assert b0 * px == x * (b0 * px1);
    assert x * s0 + x * (b0 * px1) == x * (s0 + b0 * px1);
  }

  lemma {:induction false} BinomSumStep(n: nat, x: int, j: nat)
    ensures BinomSum(n + 1, x, j + 1) == BinomSum(n, x, j + 1) + x * BinomSum(n, x, j)
    decreases j
  {
    if j > 0 {
      BinomSumStep(n, x, j - 1);
      assert Binom(n + 1, j) == Binom(n, j - 1) + Binom(n, j);
      assert Power(x, j) == x * Power(x, j - 1);
      SumStepAlgebra(BinomSum(n, x, j), BinomSum(n, x, j - 1), BinomSum(n + 1, x, j), x,
        Binom(n, j - 1), Binom(n, j), Power(x, j), Power(x, j - 1), BinomSum(n + 1, x, j + 1));
    }
  }

  lemma {:induction false} BinomialTheorem(x: int, n: nat)
    ensures Power(x + 1, n) == BinomSum(n, x, n + 1)
    decreases n
  {
    if n > 0 {
      BinomialTheorem(x, n - 1);
      BinomSumGrow(x, n);
      MulSuccLeft(x, BinomSum(n - 1, x, n));
    }
  }

  /** Pascal's rule on the whole sum: the row n sum is the row n - 1 sum times (x + 1). */
  lemma BinomSumGrow(x: int, n: nat)
    requires n > 0
    ensures BinomSum(n, x, n + 1) == BinomSum(n - 1, x, n) + x * BinomSum(n - 1, x, n)
  {
    BinomSumStep(n - 1, x, n);
    var top, xn := Binom(n - 1, n), Power(x, n);
    assert BinomSum(n - 1, x, n + 1) == BinomSum(n - 1, x, n) + top * xn;
    BinomAbove(n - 1, n);
    assert top * xn == 0;
  }

  lemma MulSuccLeft(x: int, s: int)
    ensures (x + 1) * s == s + x * s
  {
  }

  lemma {:induction false} BinomSumPrime(p: int, x: int, j: nat)
    requires IsPrime(p) && 1 <= j <= p
    ensures BinomSum(p, x, j) % p == 1
    decreases j
  {
    if j == 1 {
      ModSmall(1, p);
    } else {
      BinomSumPrime(p, x, j - 1);
      BinomPrime(p, j - 1);
      DividesMul(p, Binom(p, j - 1), Power(x, j - 1));
      ModAdd(BinomSum(p, x, j - 1), Binom(p, j - 1) * Power(x, j - 1), p);
      ModSmall(1, p);
    }
  }

  lemma FreshmansDream(p: int, x: int)
    requires IsPrime(p)
    ensures Power(x + 1, p) % p == (Power(x, p) + 1) % p
  {
    var S := BinomSum(p, x, p);
    assert Power(x + 1, p) == S + Power(x, p) by {
      BinomialTheorem(x, p);
      BinomDiagonal(p);
      assert BinomSum(p, x, p + 1) == S + Binom(p, p) * Power(x, p);
    }
    assert S % p == 1 % p by {
      BinomSumPrime(p, x, p);
      ModSmall(1, p);
    }
    CongAdd(S, 1, Power(x, p), Power(x, p), p);
  }

  lemma {:induction false} BinomDiagonal(n: nat)
    ensures Binom(n, n) == 1
    decreases n
  {
    if n > 0 {
      BinomDiagonal(n - 1);
      BinomAbove(n - 1, n);
    }
  }

  lemma {:induction false} FermatNat(p: int, x: nat)
    requires IsPrime(p)
    ensures Power(x, p) % p == x % p
    decreases x
  {
    if x == 0 {
      PowerMul(0, 1, p);
      assert Power(0, p) == 0 * Power(0, p - 1);
    } else {
      FermatNat(p, x - 1);
      FreshmansDream(p, x - 1);
      CongAdd(Power(x - 1, p), x - 1, 1, 1, p);
    }
  }

  /** Fermat's little theorem: x^p == x (mod p) for every integer x. */
  lemma Fermat(p: int, x: int)
    requires IsPrime(p)
    ensures Power(x, p) % p == x % p
  {
    PowerMod(x, p, p);
    FermatNat(p, x % p);
    ModIdempotent(x, p);
  }

  /** x^(p-1) == 1 (mod p) when p does not divide x. */
  lemma FermatUnit(p: int, x: int)
    requires IsPrime(p) && x % p != 0
    ensures Power(x, p - 1) % p == 1
  {
    Fermat(p, x);
    assert Power(x, p) == x * Power(x, p - 1);
    ModMultiple(p, 0);
    ModSmall(1, p);
    assert (x * Power(x, p - 1)) % p == (x * 1) % p;
    CancelMod(p, x, Power(x, p - 1), 1);
  }

  /** x^(p-2) is the inverse of x modulo the prime p. */
  lemma FermatInverse(p: int, x: int)
    requires IsPrime(p) && x % p != 0
    ensures (x * Power(x, p - 2)) % p == 1
  {
    FermatUnit(p, x);
    assert Power(x, p - 1) == x * Power(x, p - 2);
  }
}
