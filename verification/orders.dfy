/**
 * Multiplicative orders and discrete logarithms modulo a prime: the
 * reference definitions the restriction engine is proved against. The
 * order of a unit b modulo a prime p is the least L >= 1 with b^L == 1
 * (mod p); the logarithm of t is the least d in [0, L) with b^d == t.
 */
module Orders {
  import opened Wrappers
  import opened Arith

  /** b^k mod m; quantifiers below are stated over it so that unfolding Power does not re-trigger them. */
  function PowMod(b: int, k: nat, m: int): int
    requires m > 0
  {
    Power(b, k) % m
  }

  /** L is the multiplicative order of b modulo m. */
  ghost predicate IsOrder(b: int, m: int, L: int)
    requires m > 0
  {
    L >= 1 && PowMod(b, L, m) == 1 && forall k :: 1 <= k < L ==> PowMod(b, k, m) != 1
  }

  /** b is a unit modulo the prime p, reduced into [0, p). */
  predicate Unit(b: int, p: int)
  {
    IsPrime(p) && 0 < b < p
  }

  ghost function OrderFrom(b: int, p: int, k: nat): (L: nat)
    requires Unit(b, p) && 1 <= k <= p - 1
    requires forall j :: 1 <= j < k ==> PowMod(b, j, p) != 1
    ensures IsOrder(b, p, L) && k <= L <= p - 1
    decreases p - 1 - k
  {
    if PowMod(b, k, p) == 1 then k
    else
      assert k < p - 1 by {
        FermatBound(b, p, k);
      }
      OrderFrom(b, p, k + 1)
  }

  /** Fermat's little theorem: b^(p-1) == 1, so no exponent below the order reaches p - 1. */
  lemma FermatBound(b: int, p: int, k: nat)
    requires Unit(b, p) && 1 <= k <= p - 1 && PowMod(b, k, p) != 1
    ensures k < p - 1
  {
    ModSmall(b, p);
    FermatUnit(p, b);
  }

  /** The multiplicative order of b modulo p; Fermat's little theorem bounds it by p - 1. */
  ghost function Order(b: int, p: int): (L: nat)
    requires Unit(b, p)
    ensures IsOrder(b, p, L) && 1 <= L <= p - 1
  {
    OrderFrom(b, p, 1)
  }

  /** Powers of b repeat with period L once b^L == 1. */
  lemma PowerReduce(b: int, m: int, L: int, i: nat)
    requires m > 0 && L >= 1 && Power(b, L) % m == 1
    ensures Power(b, i) % m == Power(b, i % L) % m
  {
    var q, r := i / L, i % L;
    assert i == L * q + r;
    PowerAdd(b, L * q, r);
    PowerMul(b, L, q);
    PowerMod(Power(b, L), q, m);
    PowerOne(q);
    ModSmall(1, m);
    CongMul(Power(b, L * q), 1, Power(b, r), Power(b, r), m);
  }

  /** No power of a unit is divisible by the prime. */
  lemma {:induction false} UnitPower(b: int, p: int, k: nat)
    requires IsPrime(p) && b % p != 0
    ensures Power(b, k) % p != 0
    decreases k
  {
    if k == 0 {
      ModSmall(1, p);
    } else {
      UnitPower(b, p, k - 1);
      if (b * Power(b, k - 1)) % p == 0 {
        EuclidLemma(p, b, Power(b, k - 1));
      }
    }
  }

  /** The powers b^0, ..., b^(L-1) are pairwise distinct modulo p. */
  lemma PowerDistinct(b: int, p: int, L: int, r: nat, s: nat)
    requires Unit(b, p) && IsOrder(b, p, L) && r < s < L
    ensures Power(b, r) % p != Power(b, s) % p
  {
    var x, y := Power(b, r), Power(b, s - r);
    PowerAdd(b, r, s - r);
    assert Power(b, s) == x * y;
    assert PowMod(b, s - r, p) != 1;
    ModSmall(b, p);
    UnitPower(b, p, r);
    ModSmall(1, p);
    if x % p == (x * y) % p {
      assert (x * 1) % p == (x * y) % p;
      CancelMod(p, x, 1, y);
    }
  }

  /** b^i == b^j (mod p) exactly when i == j (mod L). */
  lemma PowerEqIff(b: int, p: int, L: int, i: nat, j: nat)
    requires Unit(b, p) && IsOrder(b, p, L)
    ensures Power(b, i) % p == Power(b, j) % p <==> i % L == j % L
  {
    PowerReduce(b, p, L, i);
    PowerReduce(b, p, L, j);
    if i % L < j % L {
      PowerDistinct(b, p, L, i % L, j % L);
    } else if j % L < i % L {
      PowerDistinct(b, p, L, j % L, i % L);
    }
  }

  /** b^n == 1 (mod p) exactly when the order divides n; in particular it divides p - 1. */
  lemma OrderDivides(b: int, p: int, n: nat)
    requires Unit(b, p)
    ensures Power(b, n) % p == 1 <==> n % Order(b, p) == 0
    ensures (p - 1) % Order(b, p) == 0
  {
    var L := Order(b, p);
    assert Power(b, n) % p == 1 <==> n % L == 0 by {
      PeriodDivides(b, p, L, n);
    }
    assert (p - 1) % L == 0 by {
      ModSmall(b, p);
      FermatUnit(p, b);
      PeriodDivides(b, p, L, p - 1);
    }
  }

  lemma PeriodDivides(b: int, p: int, L: int, n: nat)
    requires Unit(b, p) && IsOrder(b, p, L)
    ensures Power(b, n) % p == 1 <==> n % L == 0
  {
    PowerEqIff(b, p, L, n, 0);
    assert Power(b, 0) == 1;
    ModSmall(1, p);
    ModSmall(0, L);
  }

  ghost function LogFrom(b: int, p: int, L: nat, t: int, d: nat): (r: Option<nat>)
    requires p > 0
    ensures r.Some? ==> d <= r.value < L && PowMod(b, r.value, p) == t
    ensures r.Some? ==> forall e :: d <= e < r.value ==> PowMod(b, e, p) != t
    ensures r.None? ==> forall e :: d <= e < L ==> PowMod(b, e, p) != t
    decreases L - d
  {
    if d >= L then None
    else if PowMod(b, d, p) == t then Some(d)
    else LogFrom(b, p, L, t, d + 1)
  }

  /** The discrete logarithm of t to base b modulo p: the least d in [0, L) with b^d == t, if any. */
  ghost function Log(b: int, p: int, L: nat, t: int): (r: Option<nat>)
    requires p > 0
    ensures r.Some? ==> r.value < L && PowMod(b, r.value, p) == t
    ensures r.None? ==> forall e :: 0 <= e < L ==> PowMod(b, e, p) != t
  {
    LogFrom(b, p, L, t, 0)
  }

  /** Any exponent that reaches t fixes the logarithm: it is that exponent reduced modulo L. */
  lemma LogIs(b: int, p: int, L: int, t: int, e: nat)
    requires Unit(b, p) && IsOrder(b, p, L) && Power(b, e) % p == t
    ensures Log(b, p, L, t) == Some(e % L)
  {
    PowerReduce(b, p, L, e);
    var r := Log(b, p, L, t);
    assert PowMod(b, e % L, p) == t;
    assert r.Some?;
    PowerEqIff(b, p, L, r.value, e % L);
    ModSmall(r.value, L);
    ModSmall(e % L, L);
  }

  /** t * b^k == b^j (mod p) locates t at exponent j - k, reduced modulo L. */
  lemma ShiftedLog(b: int, p: int, L: int, t: int, k: nat, j: nat)
    requires Unit(b, p) && IsOrder(b, p, L) && 0 <= t < p
    requires (Power(b, k) * t) % p == Power(b, j) % p
    ensures Log(b, p, L, t) == Some((j - k) % L)
  {
    var e := (j - k) % L;
    ExponentShift(j, k, L);
    PowerEqIff(b, p, L, e + k, j);
    var x, y := Power(b, k), Power(b, e);
    PowerAdd(b, k, e);
    assert Power(b, k + e) == x * y;
    assert (x * y) % p == (x * t) % p;
    ModSmall(b, p);
    UnitPower(b, p, k);
    CancelMod(p, x, y, t);
    ModSmall(t, p);
    LogIs(b, p, L, t, e);
    ModSmall(e, L);
  }

  lemma ExponentShift(j: int, k: int, L: int)
    requires L >= 1
    ensures 0 <= (j - k) % L && ((j - k) % L + k) % L == j % L
  {
    var e := (j - k) % L;
    var q := (j - k) / L;
    assert j - k == L * q + e;
    ModAddMultiple(j, L, -q);
    assert L * (-q) == -(L * q);
    assert e + k == j + L * (-q);
  }
}
