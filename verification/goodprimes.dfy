/**
 * primes/GoodPrimes.java: the table of good primes. A shard walks the prime
 * table and keeps each prime p for which base^x == target (mod p) can hold,
 * with the class B mod A of x that it forces; the restriction is computed by
 * splitting p - 1 into prime powers (order of the base, one small discrete
 * logarithm per block, Chinese remaindering). The shards are merged in table
 * order, and a prime whose A and B share a factor is kept only when the
 * restrictions of that factor's primes merge.
 */
module GoodPrimes {
  import opened Wrappers
  import opened Arith
  import opened NumTheory
  import opened Orders
  import Common
  import Modules
  import ModUtils
  import Primes
  import Factorization
  import Restrictions

  // ------------------------------------------------------------------
  // The prime-power blocks of a sorted factorization
  // ------------------------------------------------------------------

  /** The runs of equal primes of pf from pos on, as (prime, exponent) pairs. */
  ghost function Blocks(pf: seq<int>, pos: nat): seq<(int, nat)>
    requires pos <= |pf|
    decreases |pf| - pos
  {
    if pos == |pf| then []
    else
      var end := Factorization.Run(pf, pos);
      [(pf[pos], end - pos)] + Blocks(pf, end)
  }

  /** bs lists, in increasing order, every prime of M with its exact exponent. */
  ghost predicate BlockList(bs: seq<(int, nat)>, M: int)
    requires M >= 1
  {
    (forall k :: 0 <= k < |bs| ==> IsPrime(bs[k].0) && bs[k].1 >= 1 && Val(bs[k].0, M) == bs[k].1) &&
    (forall j, k :: 0 <= j < k < |bs| ==> bs[j].0 < bs[k].0) &&
    (forall s :: IsPrime(s) && Val(s, M) > 0 ==> exists k :: 0 <= k < |bs| && bs[k].0 == s)
  }

  /** Past the run that starts at pos, every factor is a larger prime. */
  lemma AboveRun(pf: seq<int>, pos: nat)
    requires Primes.Factored(pf) && pos < |pf|
    ensures forall k :: Factorization.Run(pf, pos) <= k < |pf| ==> IsPrime(pf[k]) && pf[k] > pf[pos]
  {
    var end := Factorization.Run(pf, pos);
    if end < |pf| {
      assert pf[end] != pf[pos] && pf[end - 1] == pf[pos];
      forall k | end <= k < |pf|
        ensures pf[k] > pf[pos]
      {
        assert pf[end - 1] <= pf[end] <= pf[k];
      }
    }
  }

  /** The exponent of t in s^e * M', for a prime s that M' does not contain. */
  lemma ValSplit(t: int, s: int, e: nat, M': int)
    requires IsPrime(t) && IsPrime(s) && M' >= 1
    ensures Power(s, e) >= 1 && Power(s, e) * M' >= 1
    ensures Val(t, Power(s, e) * M') == (if t == s then e else 0) + Val(t, M')
  {
    Factorization.ValPowerOf(t, s, e);
    MulAtLeast(Power(s, e), M');
    ValMul(t, Power(s, e), M');
  }

  /** Putting a new smallest prime s^e in front of M' puts its block in front of the list. */
  lemma BlocksStep(s: int, e: nat, M': int, bs': seq<(int, nat)>)
    requires IsPrime(s) && e >= 1 && M' >= 1 && Val(s, M') == 0 && BlockList(bs', M')
    requires forall k :: 0 <= k < |bs'| ==> bs'[k].0 > s
    ensures Power(s, e) * M' >= 1 && BlockList([(s, e)] + bs', Power(s, e) * M')
  {
    ValSplit(s, s, e, M');
    BlocksStepValues(s, e, M', bs');
    BlocksStepCover(s, e, M', bs');
  }

  /** Each block of the extended list carries its prime's exponent in the new product. */
  lemma BlocksStepValues(s: int, e: nat, M': int, bs': seq<(int, nat)>)
    requires IsPrime(s) && e >= 1 && M' >= 1 && Val(s, M') == 0 && BlockList(bs', M')
    ensures Power(s, e) * M' >= 1
    ensures forall k :: 0 <= k < |[(s, e)] + bs'| ==>
      var b := ([(s, e)] + bs')[k]; IsPrime(b.0) && b.1 >= 1 && Val(b.0, Power(s, e) * M') == b.1
  {
    var bs, M := [(s, e)] + bs', Power(s, e) * M';
    ValSplit(s, s, e, M');
    forall k | 0 <= k < |bs|
      ensures IsPrime(bs[k].0) && bs[k].1 >= 1 && Val(bs[k].0, M) == bs[k].1
    {
      if k > 0 {
        ValSplit(bs[k].0, s, e, M');
      }
    }
  }

  /** Every prime of the new product has a block in the extended list. */
  lemma BlocksStepCover(s: int, e: nat, M': int, bs': seq<(int, nat)>)
    requires IsPrime(s) && e >= 1 && M' >= 1
    requires forall s' :: IsPrime(s') && Val(s', M') > 0 ==> exists k :: 0 <= k < |bs'| && bs'[k].0 == s'
    ensures Power(s, e) * M' >= 1
    ensures forall s' :: IsPrime(s') && Val(s', Power(s, e) * M') > 0 ==>
      exists k :: 0 <= k < |[(s, e)] + bs'| && ([(s, e)] + bs')[k].0 == s'
  {
    var bs, M := [(s, e)] + bs', Power(s, e) * M';
    ValSplit(s, s, e, M');
    forall s' | IsPrime(s') && Val(s', M) > 0
      ensures exists k :: 0 <= k < |bs| && bs[k].0 == s'
    {
      ValSplit(s', s, e, M');
      if s' != s {
        assert Val(s', M') > 0;
        var k :| 0 <= k < |bs'| && bs'[k].0 == s';
        assert bs[k + 1].0 == s';
      } else {
        assert bs[0].0 == s';
      }
    }
  }

  /** The blocks of a sorted list of primes are the primes of its product with their exponents. */
  lemma {:induction false} BlocksFacts(pf: seq<int>, pos: nat)
    requires Primes.Factored(pf) && pos <= |pf|
    ensures Common.Product(pf[pos..]) >= 1
    ensures BlockList(Blocks(pf, pos), Common.Product(pf[pos..]))
    ensures forall k :: 0 <= k < |Blocks(pf, pos)| ==> Blocks(pf, pos)[k].0 in pf[pos..]
    decreases |pf| - pos
  {
    if pos == |pf| {
      assert pf[pos..] == [];
      forall s | IsPrime(s)
        ensures Val(s, 1) == 0
      {
        ValOne(s);
      }
    } else {
      var end := Factorization.Run(pf, pos);
      var s, e := pf[pos], end - pos;
      var bs' := Blocks(pf, end);
      BlocksUnfold(pf, pos);
      BlocksFacts(pf, end);
      BlocksAbove(pf, pos);
      assert Common.Product(pf[pos..]) == Power(s, e) * Common.Product(pf[end..]) by {
        Factorization.ProductRun(pf, pos);
      }
      assert Val(s, Common.Product(pf[end..])) == 0 by {
        AboveRun(pf, pos);
        Factorization.ValProductAvoid(pf[end..], s);
      }
      BlocksStep(s, e, Common.Product(pf[end..]), bs');
    }
  }

  lemma BlocksUnfold(pf: seq<int>, pos: nat)
    requires pos < |pf|
    ensures Blocks(pf, pos) == [(pf[pos], Factorization.Run(pf, pos) - pos)] + Blocks(pf, Factorization.Run(pf, pos))
  {
  }

  /** The primes of the later blocks lie past the run at pos, so they are larger than pf[pos]. */
  lemma BlocksAbove(pf: seq<int>, pos: nat)
    requires Primes.Factored(pf) && pos < |pf|
    requires var end := Factorization.Run(pf, pos);
             forall k :: 0 <= k < |Blocks(pf, end)| ==> Blocks(pf, end)[k].0 in pf[end..]
    ensures var end := Factorization.Run(pf, pos);
            forall k :: 0 <= k < |Blocks(pf, end)| ==> Blocks(pf, end)[k].0 > pf[pos]
    ensures forall k :: 0 <= k < |Blocks(pf, pos)| ==> Blocks(pf, pos)[k].0 in pf[pos..]
  {
    var end := Factorization.Run(pf, pos);
    var bs' := Blocks(pf, end);
    AboveRun(pf, pos);
    BlocksUnfold(pf, pos);
    forall k | 0 <= k < |bs'|
      ensures bs'[k].0 > pf[pos] && bs'[k].0 in pf[pos..]
    {
      var j :| 0 <= j < |pf[end..]| && pf[end..][j] == bs'[k].0;
      assert pf[end + j] == bs'[k].0;
      assert pf[pos..][end - pos + j] == bs'[k].0;
    }
    assert pf[pos..][0] == pf[pos];
  }

  /** The prime power of a block and what is left of N without it. */
  lemma BlockCofactor(N: int, bs: seq<(int, nat)>, k: int)
    requires N >= 1 && BlockList(bs, N) && 0 <= k < |bs|
    ensures Power(bs[k].0, bs[k].1) >= 2 && N % Power(bs[k].0, bs[k].1) == 0
    ensures N / Power(bs[k].0, bs[k].1) >= 1 && Val(bs[k].0, N / Power(bs[k].0, bs[k].1)) == 0
  {
    var s, e := bs[k].0, bs[k].1;
    ValPowerDivides(s, e, N);
    Factorization.ValPowerOf(s, s, e);
    PowerGrows(s, 0, e);
    ValDiv(s, N, Power(s, e));
  }

  /** Only 1 divides N and every cofactor N / q of its prime-power blocks. */
  lemma DividesAllCofactors(d: int, N: int, bs: seq<(int, nat)>)
    requires N >= 1 && BlockList(bs, N) && d >= 1 && N % d == 0
    requires forall k :: 0 <= k < |bs| ==> Power(bs[k].0, bs[k].1) >= 1 && (N / Power(bs[k].0, bs[k].1)) % d == 0
    ensures d == 1
  {
    forall t | IsPrime(t)
      ensures Val(t, d) == Val(t, 1)
    {
      ValOne(t);
      if Val(t, d) > 0 {
        Factorization.ValDivides(t, d, N);
        var k :| 0 <= k < |bs| && bs[k].0 == t;
        BlockCofactor(N, bs, k);
        Factorization.ValDivides(t, d, N / Power(bs[k].0, bs[k].1));
      }
    }
    EqualByVal(d, 1);
  }

  /** With b * w == 1 (mod p), agreement of y and b after raising to m makes (y * w)^m == 1. */
  lemma InverseCancels(y: int, b: int, w: int, p: int, m: nat)
    requires p > 1 && (b * w) % p == 1 && Power(y, m) % p == Power(b, m) % p
    ensures Power((y * w) % p, m) % p == 1
  {
    PowerMod(y * w, m, p);
    PowerOfProduct(y, w, m);
    CongMul(Power(y, m), Power(b, m), Power(w, m), Power(w, m), p);
    PowerOfProduct(b, w, m);
    PowerMod(b * w, m, p);
    PowerOne(m);
    ModSmall(1, p);
  }

  /**
   * The recombination step of Pohlig and Hellman: a unit y and a residue b
   * whose powers agree at every cofactor (p - 1) / q of the prime-power
   * blocks q of p - 1 are equal.
   */
  lemma Cofactors(p: int, y: int, b: int, bs: seq<(int, nat)>, ws: seq<int>)
    requires IsPrime(p) && p > 2 && 0 < y < p && 0 <= b < p && BlockList(bs, p - 1)
    requires |ws| == |bs| && forall k :: 0 <= k < |ws| ==> ws[k] == Power(bs[k].0, bs[k].1)
    requires forall k :: 0 <= k < |ws| ==> ws[k] >= 1 && (p - 1) / ws[k] >= 0 && Power(y, (p - 1) / ws[k]) % p == Power(b, (p - 1) / ws[k]) % p
    ensures y == b
  {
    var N := p - 1;
    assert b != 0 by {
      var t := SmallestFactor(N);
      assert Val(t, N) > 0;
      var k0 :| 0 <= k0 < |bs| && bs[k0].0 == t;
      BlockCofactor(N, bs, k0);
      NonzeroPower(p, y, b, N / ws[k0]);
    }
    var w := Power(b, p - 2);
    var z := InverseProduct(p, y, b);
    var d := Order(z, p);
    forall k | 0 <= k < |bs|
      ensures Power(bs[k].0, bs[k].1) >= 1 && (N / Power(bs[k].0, bs[k].1)) % d == 0
    {
      BlockCofactor(N, bs, k);
      InverseCancels(y, b, w, p, N / ws[k]);
      OrderDivides(z, p, N / ws[k]);
    }
    OrderDivides(z, p, N);
    DividesAllCofactors(d, N, bs);
    UnitOne(p, y, b, w, z);
  }

  /** A residue whose power agrees with a power of a unit is not 0. */
  lemma NonzeroPower(p: int, y: int, b: int, m: int)
    requires IsPrime(p) && 0 < y < p && m >= 1 && Power(y, m) % p == Power(b, m) % p
    ensures b != 0
  {
    ModSmall(y, p);
    UnitPower(y, p, m);
    if b == 0 {
      assert Power(b, m) == b * Power(b, m - 1);
      ModSmall(0, p);
    }
  }

  /** y * b^(p-2) reduced modulo p is a unit, and b * b^(p-2) == 1. */
  lemma InverseProduct(p: int, y: int, b: int) returns (z: int)
    requires IsPrime(p) && 0 < y < p && 0 < b < p
    ensures (b * Power(b, p - 2)) % p == 1
    ensures z == (y * Power(b, p - 2)) % p && Unit(z, p)
  {
    var w := Power(b, p - 2);
    assert (b * w) % p == 1 by {
      ModSmall(b, p);
      FermatInverse(p, b);
    }
    assert w % p != 0 by {
      if w % p == 0 {
        DividesMul(p, w, b);
      }
    }
    z := (y * w) % p;
    assert z != 0 by {
      ModSmall(y, p);
      if z == 0 {
        EuclidLemma(p, y, w);
      }
    }
  }

  /** z == y * w with z of order 1 and b * w == 1 gives y == b. */
  lemma UnitOne(p: int, y: int, b: int, w: int, z: int)
    requires IsPrime(p) && 0 < y < p && 0 < b < p && (b * w) % p == 1
    requires z == (y * w) % p && Unit(z, p) && Order(z, p) == 1
    ensures y == b
  {
    assert Power(z, 1) == z;
    ModSmall(z, p);
    ModSmall(y, p);
    ModSmall(b, p);
    assert (w * y) % p == (w * b) % p;
    if w % p == 0 {
      DividesMul(p, w, b);
    }
    CancelMod(p, w, y, b);
  }

  // ------------------------------------------------------------------
  // findOrder
  // ------------------------------------------------------------------

  /** ds lists the divisors of n in increasing order, as generateDivisors returns them. */
  ghost predicate DivisorTable(ds: seq<int>, n: int)
  {
    Factorization.StrictlySorted(ds) && (forall k :: 0 <= k < |ds| ==> ds[k] >= 1) &&
    forall x :: x in ds <==> x >= 1 && n % x == 0
  }

  /** The table starts with 1 and ends with n. */
  lemma DivisorEnds(ds: seq<int>, n: int)
    requires n >= 1 && DivisorTable(ds, n)
    ensures |ds| >= 1 && ds[0] == 1 && ds[|ds| - 1] == n
    ensures n >= 2 ==> |ds| >= 2
  {
    ModSmall(0, 1);
    assert 1 in ds && n in ds;
    var i :| 0 <= i < |ds| && ds[i] == 1;
    var j :| 0 <= j < |ds| && ds[j] == n;
    if j < |ds| - 1 {
      assert ds[|ds| - 1] in ds;
      DivisorAtMost(ds[|ds| - 1], n);
      assert false;
    }
  }

  /**
   * The order of a unit a >= 2 is the divisor at index i when the powers at
   * the earlier indices past 0 are not 1 and either a^ds[i] == 1 or i is the
   * last index.
   */
  lemma OrderAt(a: int, p: int, ds: seq<int>, i: int)
    requires IsPrime(p) && 2 <= a < p && DivisorTable(ds, p - 1) && 1 <= i < |ds|
    requires forall k :: 1 <= k < i ==> PowMod(a, ds[k], p) != 1
    requires PowMod(a, ds[i], p) == 1 || i == |ds| - 1
    ensures ds[i] == Order(a, p)
  {
    var L := Order(a, p);
    OrderDivides(a, p, 0);
    assert L in ds;
    var k :| 0 <= k < |ds| && ds[k] == L;
    DivisorEnds(ds, p - 1);
    ModSmall(a, p);
    assert PowMod(a, 1, p) == a;
  }

  /** Reaching a^dj from a^di by the power dj / di. */
  lemma PowerFromDivisor(a: int, p: int, di: int, dj: int, x: int)
    requires p > 0 && di >= 1 && dj >= 1 && dj % di == 0 && x == Power(a, di) % p
    ensures dj / di >= 1 && Power(x, dj / di) % p == Power(a, dj) % p
  {
    DivOfMultiple(dj, di);
    var d := dj / di;
    if d < 1 {
      FactorSign(di, d);
      assert false;
    }
    PowerMod(Power(a, di), d, p);
    PowerMul(a, di, d);
  }

  /**
   * findOrder(a, p, divisors): 1 for a < 2; otherwise the first divisor d of
   * p - 1 past 1 with a^d == 1, where a^d is reached from the stored power of
   * the largest earlier divisor (past index 1) that divides d, and p - 1 when
   * no proper divisor reaches 1. For a >= 2 this is the multiplicative order.
   */
  method FindOrder(a: int, p: int, divisors: seq<int>) returns (ord: int)
    requires IsPrime(p) && 0 <= a < p && DivisorTable(divisors, p - 1)
    ensures a < 2 ==> ord == 1
    ensures a >= 2 ==> ord == Order(a, p)
  {
    if a < 2 {
      return 1;
    }
    DivisorEnds(divisors, p - 1);
    var pows := new int[|divisors|];
    var i := 1;
    while i + 1 < |divisors|
      invariant 1 <= i < |divisors|
      invariant forall k :: 1 <= k < i ==> pows[k] == PowMod(a, divisors[k], p) && pows[k] != 1
    {
      assert divisors[i] in divisors;
      var d := divisors[i];
      var b := a;
      var j := i - 1;
      while j > 1
        invariant 0 <= j < i
        invariant d >= 1 && Power(b, d) % p == Power(a, divisors[i]) % p
      {
        assert divisors[j] in divisors;
        if divisors[i] % divisors[j] == 0 {
          PowerFromDivisor(a, p, divisors[j], divisors[i], pows[j]);
          d := divisors[i] / divisors[j];
          b := pows[j];
          break;
        }
        j := j - 1;
      }
      pows[i] := Modules.Pow(b, d, p);
      if pows[i] == 1 {
        OrderAt(a, p, divisors, i);
        return divisors[i];
      }
      i := i + 1;
    }
    OrderAt(a, p, divisors, i);
    return p - 1;
  }

  // ------------------------------------------------------------------
  // calculateRestriction: the prime-power split of p - 1
  // ------------------------------------------------------------------

  /** The divisors generateDivisors lists for a factorization of n. */
  lemma DivisorTableOf(pf: seq<int>, ds: seq<int>, n: int)
    requires Primes.Factored(pf) && Common.Product(pf) == n
    requires Factorization.StrictlySorted(ds) && forall x :: x in ds <==> x >= 1 && Common.Product(pf) % x == 0
    ensures DivisorTable(ds, n)
  {
    forall k | 0 <= k < |ds|
      ensures ds[k] >= 1
    {
      assert ds[k] in ds;
    }
  }

  /** A unit other than 1 has order at least 2. */
  lemma OrderAboveOne(b: int, p: int)
    requires IsPrime(p) && 2 <= b < p
    ensures Order(b, p) >= 2
  {
    ModSmall(b, p);
    assert PowMod(b, 1, p) == b;
  }

  /** b == a^e (mod p) for a unit a: then b^L == 1 for the order L of a. */
  lemma PowerOfPower(a: int, p: int, e: nat, L: nat, b: int)
    requires p > 1 && b == Power(a, e) % p && Power(a, L) % p == 1
    ensures Power(b, L) % p == 1
  {
    PowerMod(Power(a, e), L, p);
    PowerMul(a, e, L);
    PowerMul(a, L, e);
    assert e * L == L * e;
    PowerMod(Power(a, L), e, p);
    PowerOne(e);
    ModSmall(1, p);
  }

  /** When the order of b does not divide the order of a, b is not a power of a. */
  lemma OrderMismatch(a: int, p: int, b: int, orderA: int, orderB: int)
    requires IsPrime(p) && 0 <= a < p && 0 <= b < p
    requires (a < 2 ==> orderA == 1) && (a >= 2 ==> orderA == Order(a, p))
    requires (b < 2 ==> orderB == 1) && (b >= 2 ==> orderB == Order(b, p))
    requires orderA % orderB != 0
    ensures Restrictions.Restriction(a, p, b) == None
  {
    ModSmall(a, p);
    ModSmall(b, p);
    if b >= 2 {
      OrderAboveOne(b, p);
    }
    if a >= 2 && Restrictions.Restriction(a, p, b).Some? {
      var L := Order(a, p);
      var e := Log(a, p, L, b).value;
      PowerOfPower(a, p, e, L, b);
      if b >= 2 {
        OrderDivides(b, p, L);
      }
    }
  }

  /** Facts about one block of p - 1: the cofactor dq and the base of the block, a^dq. */
  lemma BlockBase(a: int, p: int, q: int)
    requires IsPrime(p) && 2 <= a < p && q >= 1 && (p - 1) % q == 0
    ensures (p - 1) / q >= 1
    ensures Unit(Power(a, (p - 1) / q) % p, p)
    ensures Order(Power(a, (p - 1) / q) % p, p) <= q && q % Order(Power(a, (p - 1) / q) % p, p) == 0
  {
    var m := (p - 1) / q;
    assert m >= 1 && m * q == p - 1 by {
      DivOfMultiple(p - 1, q);
      FactorSign(q, m);
    }
    var A := Power(a, m) % p;
    assert Unit(A, p) by {
      ModSmall(a, p);
      UnitPower(a, p, m);
    }
    assert Power(A, q) % p == 1 by {
      PowerMod(Power(a, m), q, p);
      PowerMul(a, m, q);
      ModSmall(a, p);
      FermatUnit(p, a);
    }
    OrderDivides(A, p, q);
    DivisorAtMost(Order(A, p), q);
  }

  /** (a^dq)^e == (a^e)^dq modulo p. */
  lemma SwapPowers(a: int, p: int, m: nat, e: nat)
    requires p > 0
    ensures Power(Power(a, m) % p, e) % p == Power(Power(a, e) % p, m) % p
  {
    PowerMod(Power(a, m), e, p);
    PowerMul(a, m, e);
    assert m * e == e * m;
    PowerMul(a, e, m);
    PowerMod(Power(a, e), m, p);
  }

  /**
   * x solves the block q: 0 <= x < q and, for a >= 2, (a^dq)^x == b^dq
   * (mod p) with dq = (p - 1) / q.
   */
  ghost predicate Solved(a: int, p: int, b: int, q: int, x: int)
    requires p > 0
  {
    q >= 1 && (p - 1) % q == 0 && 0 <= x < q &&
    (a >= 2 ==> (p - 1) / q >= 0 && Power(Power(a, (p - 1) / q) % p, x) % p == Power(b, (p - 1) / q) % p)
  }

  /**
   * One block of calculateRestriction: A = a^dq and B = b^dq with
   * dq = (p - 1) / q, and the restriction of A for target B with cycle size
   * q. None only when b is not a power of a; otherwise its offset solves the
   * block.
   */
  method SolveBlock(a: int, p: int, b: int, q: int) returns (x: Option<(int, int)>)
    requires IsPrime(p) && 0 <= a < p && 0 <= b < p && q >= 1 && (p - 1) % q == 0
    requires a < 2 ==> b < 2
    ensures x.None? ==> Restrictions.Restriction(a, p, b) == None
    ensures x.Some? ==> Solved(a, p, b, q, x.value.1)
    ensures x.Some? && a < 2 ==> b == a
  {
    var dq := (p - 1) / q;
    assert dq >= 1 by {
      DivOfMultiple(p - 1, q);
      if dq < 1 {
        FactorSign(q, dq);
      }
    }
    var A := Modules.Pow(a, dq, p);
    var B := Modules.Pow(b, dq, p);
    x := Restrictions.CalculateRestrictionCycle(A, p, B, q);
    ModSmall(A, p);
    ModSmall(B, p);
    ModSmall(a, p);
    ModSmall(b, p);
    if a < 2 {
      SmallPower(a, dq);
      SmallPower(b, dq);
      ModSmall(0, p);
      ModSmall(1, p);
    } else {
      BlockBase(a, p, q);
      if x.None? && Restrictions.Restriction(a, p, b).Some? {
        var e := Log(a, p, Order(a, p), b).value;
        SwapPowers(a, p, dq, e);
        LogIs(A, p, Order(A, p), B, e);
      }
    }
  }

  /** 0 and 1 are their own powers, for exponents from 1 on. */
  lemma SmallPower(a: int, m: nat)
    requires 0 <= a < 2 && m >= 1
    ensures Power(a, m) == a
  {
    if a == 1 {
      PowerOne(m);
    } else {
      assert Power(a, m) == a * Power(a, m - 1);
    }
  }

  /** Agreement modulo q carries over to every divisor L of q. */
  lemma CongDivisor(x: int, y: int, q: int, L: int)
    requires q >= 1 && L >= 1 && q % L == 0 && x % q == y % q
    ensures x % L == y % L
  {
    CongIffDivides(x, y, q);
    DividesTrans(L, q, x - y);
    CongIffDivides(x, y, L);
  }

  /** A solution crt of all blocks raises a to b^dq at every block's cofactor dq. */
  lemma RecombineBlock(a: int, p: int, b: int, q: int, x: int, crt: nat)
    requires IsPrime(p) && 2 <= a < p && Solved(a, p, b, q, x) && crt % q == x % q
    ensures (p - 1) / q >= 0
    ensures Power(Power(a, crt) % p, (p - 1) / q) % p == Power(b, (p - 1) / q) % p
  {
    var m := (p - 1) / q;
    BlockBase(a, p, q);
    var A := Power(a, m) % p;
    CongDivisor(crt, x, q, Order(A, p));
    PowerEqIff(A, p, Order(A, p), crt, x);
    SwapPowers(a, p, m, crt);
  }

  /** The blocks are powers of distinct primes, so pairwise coprime. */
  lemma BlocksCoprime(bs: seq<(int, nat)>, N: int, ws: seq<int>)
    requires N >= 1 && BlockList(bs, N)
    requires |ws| == |bs| && forall k :: 0 <= k < |ws| ==> ws[k] == Power(bs[k].0, bs[k].1)
    ensures forall k :: 0 <= k < |ws| ==> ws[k] >= 2 && N % ws[k] == 0
    ensures forall j, i :: 0 <= j < i < |ws| ==> Gcd(ws[j], ws[i]) == 1
  {
    forall k | 0 <= k < |ws|
      ensures ws[k] >= 2 && N % ws[k] == 0
    {
      BlockCofactor(N, bs, k);
    }
    forall j, i | 0 <= j < i < |ws|
      ensures Gcd(ws[j], ws[i]) == 1
    {
      forall t | IsPrime(t)
        ensures Val(t, ws[j]) == 0 || Val(t, ws[i]) == 0
      {
        Factorization.ValPowerOf(t, bs[j].0, bs[j].1);
        Factorization.ValPowerOf(t, bs[i].0, bs[i].1);
      }
      CoprimeByVal(ws[j], ws[i]);
    }
  }

  /** Solving every block and remaindering the offsets gives a logarithm of b. */
  lemma Recombine(a: int, p: int, b: int, bs: seq<(int, nat)>, ws: seq<int>, xs: seq<int>, crt: int)
    requires IsPrime(p) && p > 2 && 2 <= a < p && 0 <= b < p && BlockList(bs, p - 1)
    requires |ws| == |bs| == |xs| && forall k :: 0 <= k < |ws| ==> ws[k] == Power(bs[k].0, bs[k].1)
    requires forall k :: 0 <= k < |ws| ==> Solved(a, p, b, ws[k], xs[k]) && crt % ws[k] == xs[k] % ws[k]
    requires crt >= 0
    ensures Power(a, crt) % p == b
  {
    var y := Power(a, crt) % p;
    ModSmall(a, p);
    UnitPower(a, p, crt);
    forall k | 0 <= k < |ws|
      ensures ws[k] >= 1 && (p - 1) / ws[k] >= 0 && Power(y, (p - 1) / ws[k]) % p == Power(b, (p - 1) / ws[k]) % p
    {
      RecombineBlock(a, p, b, ws[k], xs[k], crt);
    }
    Cofactors(p, y, b, bs, ws);
  }

  /**
   * The private calculateRestriction(a, p, b): for p < 10 the baby-step
   * giant-step restriction; otherwise the orders of a and b from the divisors
   * of p - 1, none when the order of b does not divide the order of a, one
   * restriction per prime-power block q of p - 1 (none as soon as one has
   * none), and the offsets combined by the Chinese remainder theorem and
   * reduced modulo the order of a. For a prime p the answer is the
   * brute-force restriction: the order of a and the logarithm of b.
   */
  method CalculateRestriction(a: int, p: int, b: int, primes: Primes.Primes) returns (r: Option<(int, int)>)
    requires IsPrime(p) && 0 <= a < p && 0 <= b < p && primes.Valid()
    ensures r == Restrictions.Restriction(a, p, b)
  {
    if p < 10 {
      r := Restrictions.CalculateRestriction(a, p, b);
      return;
    }
    var pf := primes.Factorize(p - 1);
    var divisors := Factorization.GenerateDivisors(pf);
    DivisorTableOf(pf, divisors, p - 1);
    var orderA := FindOrder(a, p, divisors);
    var orderB := FindOrder(b, p, divisors);
    if orderA % orderB != 0 {
      OrderMismatch(a, p, b, orderA, orderB);
      return None;
    }
    assert a < 2 ==> b < 2 by {
      if a < 2 && b >= 2 {
        OrderAboveOne(b, p);
      }
    }
    r := SolveAndCombine(a, p, b, pf, orderA);
  }

  /**
   * The second half of calculateRestriction: the per-block restrictions,
   * then the Chinese remainder theorem over the blocks, reduced modulo the
   * order of a.
   */
  method SolveAndCombine(a: int, p: int, b: int, pf: seq<int>, orderA: int) returns (r: Option<(int, int)>)
    requires IsPrime(p) && p >= 3 && 0 <= a < p && 0 <= b < p && (a < 2 ==> b < 2)
    requires Primes.Factored(pf) && Common.Product(pf) == p - 1
    requires (a < 2 ==> orderA == 1) && (a >= 2 ==> orderA == Order(a, p))
    ensures r == Restrictions.Restriction(a, p, b)
  {
    var ws, xs, solved := SolveBlocks(a, p, b, pf);
    if !solved {
      return None;
    }
    ModuliCoprime(pf, p, ws);
    var wa := new int[|ws|](k requires 0 <= k < |ws| => ws[k]);
    var ra := new int[|xs|](k requires 0 <= k < |xs| => xs[k]);
    assert wa[..] == ws && ra[..] == xs;
    var crt := ModUtils.RestoreByCRT(wa, ra);
    if a >= 2 {
      assert crt >= 0 && forall k :: 0 <= k < |ws| ==> crt % ws[k] == xs[k] % ws[k];
      RecombineAll(a, p, b, pf, ws, xs, crt);
      RestrictionOfLog(a, p, b, crt);
      assert Restrictions.Restriction(a, p, b) == Some((orderA, crt % orderA));
    } else {
      ModSmall(a, p);
      assert Restrictions.Restriction(a, p, b) == Some((orderA, crt % orderA));
    }
    r := Some((orderA, crt % orderA));
  }

  /**
   * The loop of calculateRestriction over the prime-power blocks q of p - 1:
   * one offset per block, or not solved as soon as one block has none.
   */
  method SolveBlocks(a: int, p: int, b: int, pf: seq<int>) returns (ws: seq<int>, xs: seq<int>, solved: bool)
    requires IsPrime(p) && 0 <= a < p && 0 <= b < p && (a < 2 ==> b < 2)
    requires Primes.Factored(pf) && Common.Product(pf) == p - 1
    ensures !solved ==> Restrictions.Restriction(a, p, b) == None
    ensures solved ==> |ws| == |xs| == |Blocks(pf, 0)|
    ensures solved ==> forall k :: 0 <= k < |ws| ==> ws[k] == Power(Blocks(pf, 0)[k].0, Blocks(pf, 0)[k].1)
    ensures solved ==> forall k :: 0 <= k < |ws| ==> Solved(a, p, b, ws[k], xs[k])
    ensures solved && a < 2 && |ws| > 0 ==> b == a
  {
    ghost var bl := Blocks(pf, 0);
    ws, xs := [], [];
    var i := 0;
    while i < |pf|
      invariant 0 <= i <= |pf|
      invariant |ws| == |xs| && |ws| + |Blocks(pf, i)| == |bl| && bl[|ws|..] == Blocks(pf, i)
      invariant forall k :: 0 <= k < |ws| ==> ws[k] == Power(bl[k].0, bl[k].1)
      invariant forall k :: 0 <= k < |ws| ==> Solved(a, p, b, ws[k], xs[k])
      invariant a < 2 && |ws| > 0 ==> b == a
      decreases |pf| - i
    {
      var q, end := RunPower(pf, i);
      BlockOfRun(pf, bl, |ws|, i);
      BlockDividesOrder(pf, p, |ws|);
      var x := SolveBlock(a, p, b, q);
      if x.None? {
        return ws, xs, false;
      }
      ws := ws + [q];
      xs := xs + [x.value.1];
      i := end;
    }
    solved := true;
  }

  /**
   * The inner loop of calculateRestriction: multiplies up the run of equal
   * factors at start, returning its prime power and where the run ends.
   */
  method RunPower(pf: seq<int>, start: nat) returns (q: int, end: nat)
    requires Primes.Factored(pf) && start < |pf|
    ensures end == Factorization.Run(pf, start)
    ensures q == Power(pf[start], end - start)
    ensures q == Power(Blocks(pf, start)[0].0, Blocks(pf, start)[0].1)
  {
    var i := start;
    q := pf[i];
    while i + 1 < |pf| && pf[i + 1] == pf[i]
      invariant start <= i < |pf| && q == Power(pf[start], i + 1 - start)
      invariant forall k :: start <= k <= i ==> pf[k] == pf[start]
    {
      q := q * pf[i];
      i := i + 1;
    }
    end := i + 1;
    RunBlock(pf, start, end, q);
  }

  /** A maximal run of equal primes from start to end is the first block from start. */
  lemma RunBlock(pf: seq<int>, start: nat, end: nat, q: int)
    requires start < end <= |pf| && q == Power(pf[start], end - start)
    requires forall k :: start <= k < end ==> pf[k] == pf[start]
    requires end < |pf| ==> pf[end] != pf[end - 1]
    ensures end == Factorization.Run(pf, start)
    ensures q == Power(Blocks(pf, start)[0].0, Blocks(pf, start)[0].1)
  {
    RunIs(pf, start, end);
    BlocksUnfold(pf, start);
  }

  /** Every block of a factorization of p - 1 is a prime power q >= 2 dividing p - 1. */
  lemma BlockDividesOrder(pf: seq<int>, p: int, n: nat)
    requires Primes.Factored(pf) && Common.Product(pf) == p - 1 && n < |Blocks(pf, 0)|
    ensures Power(Blocks(pf, 0)[n].0, Blocks(pf, 0)[n].1) >= 2
    ensures (p - 1) % Power(Blocks(pf, 0)[n].0, Blocks(pf, 0)[n].1) == 0
  {
    BlocksFacts(pf, 0);
    assert pf[0..] == pf;
    BlockCofactor(p - 1, Blocks(pf, 0), n);
  }

  /** An exponent e with a^e == b fixes the restriction: the order of a and e reduced modulo it. */
  lemma RestrictionOfLog(a: int, p: int, b: int, e: nat)
    requires IsPrime(p) && 2 <= a < p && 0 <= b < p && Power(a, e) % p == b
    ensures Restrictions.Restriction(a, p, b) == Some((Order(a, p), e % Order(a, p)))
  {
    ModSmall(a, p);
    ModSmall(b, p);
    LogIs(a, p, Order(a, p), b, e);
  }

  /** The moduli of the blocks of p - 1 are pairwise coprime, and there is at least one. */
  lemma ModuliCoprime(pf: seq<int>, p: int, ws: seq<int>)
    requires Primes.Factored(pf) && Common.Product(pf) == p - 1 && p >= 3
    requires |ws| == |Blocks(pf, 0)|
    requires forall k :: 0 <= k < |ws| ==> ws[k] == Power(Blocks(pf, 0)[k].0, Blocks(pf, 0)[k].1)
    ensures |ws| > 0 && forall k :: 0 <= k < |ws| ==> ws[k] >= 2
    ensures forall j, i :: 0 <= j < i < |ws| ==> Gcd(ws[j], ws[i]) == 1
  {
    var bs := Blocks(pf, 0);
    assert BlockList(bs, p - 1) by {
      BlocksFacts(pf, 0);
      assert pf[0..] == pf;
    }
    SomePrime(p - 1, bs);
    BlocksCoprime(bs, p - 1, ws);
  }

  /** Recombine, stated over the factorization of p - 1. */
  lemma RecombineAll(a: int, p: int, b: int, pf: seq<int>, ws: seq<int>, xs: seq<int>, crt: int)
    requires IsPrime(p) && p > 2 && 2 <= a < p && 0 <= b < p
    requires Primes.Factored(pf) && Common.Product(pf) == p - 1
    requires |ws| == |xs| == |Blocks(pf, 0)|
    requires forall k :: 0 <= k < |ws| ==> ws[k] == Power(Blocks(pf, 0)[k].0, Blocks(pf, 0)[k].1)
    requires forall k :: 0 <= k < |ws| ==> Solved(a, p, b, ws[k], xs[k]) && crt % ws[k] == xs[k] % ws[k]
    requires crt >= 0
    ensures Power(a, crt) % p == b
  {
    assert BlockList(Blocks(pf, 0), p - 1) by {
      BlocksFacts(pf, 0);
      assert pf[0..] == pf;
    }
    Recombine(a, p, b, Blocks(pf, 0), ws, xs, crt);
  }

  /** The loop over a run of equal factors stops at the end of the run. */
  lemma RunIs(pf: seq<int>, start: nat, end: nat)
    requires start < end <= |pf|
    requires forall k :: start <= k < end ==> pf[k] == pf[start]
    requires end < |pf| ==> pf[end] != pf[end - 1]
    ensures end == Factorization.Run(pf, start)
  {
  }

  /** The run at start is the next block, and the list of blocks moves on past it. */
  lemma BlockOfRun(pf: seq<int>, bl: seq<(int, nat)>, n: nat, start: nat)
    requires start < |pf| && n + |Blocks(pf, start)| == |bl| && bl[n..] == Blocks(pf, start)
    ensures var end := Factorization.Run(pf, start);
            n < |bl| && bl[n] == (pf[start], end - start) &&
            n + 1 + |Blocks(pf, end)| == |bl| && bl[n + 1..] == Blocks(pf, end)
  {
    var end := Factorization.Run(pf, start);
    BlocksUnfold(pf, start);
    assert bl[n..][0] == bl[n];
    assert bl[n + 1..] == bl[n..][1..];
  }

  /** A number above 1 has at least one block. */
  lemma SomePrime(N: int, bs: seq<(int, nat)>)
    requires N >= 2 && BlockList(bs, N)
    ensures |bs| > 0
  {
    var t := SmallestFactor(N);
    assert Val(t, N) > 0;
  }

  // ------------------------------------------------------------------
  // generate: one shard of the prime table
  // ------------------------------------------------------------------

  /** One good prime: p, its restriction {A, B} and gcd(A, B); one index of the four parallel result arrays. */
  datatype Row = Row(p: int, a: int, b: int, gcdAB: int)

  /** The prime table of a valid Primes: primes, increasing. */
  ghost predicate PrimeTable(table: seq<int>)
  {
    (forall k :: 0 <= k < |table| ==> IsPrime(table[k])) &&
    (forall j, k :: 0 <= j < k < |table| ==> table[j] < table[k])
  }

  lemma ValidTable(primes: Primes.Primes)
    requires primes.Valid()
    ensures PrimeTable(primes.table)
  {
    forall k | 0 <= k < |primes.table|
      ensures IsPrime(primes.table[k])
    {
      assert primes.table[k] in primes.table;
    }
  }

  /** r is the good-prime record of its prime: its restriction for base and target, and the gcd of the two parts. */
  ghost predicate RowOf(base: int, target: int, r: Row)
  {
    IsPrime(r.p) && Restrictions.Restriction(base, r.p, target) == Some((r.a, r.b)) &&
    r.a >= 1 && r.b >= 0 && r.gcdAB == Gcd(r.a, r.b)
  }

  /** The row of the prime p, if it has a restriction. */
  ghost function RowsAt(base: int, target: int, p: int): (rs: seq<Row>)
    requires IsPrime(p)
    ensures |rs| <= 1 && (|rs| == 1 <==> Restrictions.Restriction(base, p, target).Some?)
    ensures |rs| == 1 ==> rs[0].p == p && RowOf(base, target, rs[0])
  {
    match Restrictions.Restriction(base, p, target)
    case None => []
    case Some((a, b)) => [Row(p, a, b, Gcd(a, b))]
  }

  /** The row, if any, of every table index. */
  ghost function Records(table: seq<int>, base: int, target: int): (recs: seq<seq<Row>>)
    requires PrimeTable(table)
    ensures |recs| == |table|
  {
    RecordsFrom(table, base, target, 0)
  }

  ghost function RecordsFrom(table: seq<int>, base: int, target: int, k: nat): (recs: seq<seq<Row>>)
    requires PrimeTable(table) && k <= |table|
    ensures |recs| == |table| - k
    decreases |table| - k
  {
    if k == |table| then [] else [RowsAt(base, target, table[k])] + RecordsFrom(table, base, target, k + 1)
  }

  lemma {:induction false} RecordFromAt(table: seq<int>, base: int, target: int, k: nat, i: nat)
    requires PrimeTable(table) && k <= i < |table|
    ensures RecordsFrom(table, base, target, k)[i - k] == RowsAt(base, target, table[i])
    decreases i - k
  {
    if k < i {
      RecordFromAt(table, base, target, k + 1, i);
    }
  }

  lemma RecordAt(table: seq<int>, base: int, target: int, k: nat)
    requires PrimeTable(table) && k < |table|
    ensures Records(table, base, target)[k] == RowsAt(base, target, table[k])
  {
    RecordFromAt(table, base, target, 0, k);
  }

  /** At most one row per index, carrying that index's prime. */
  ghost predicate RecordsOk(table: seq<int>, recs: seq<seq<Row>>)
  {
    |recs| == |table| &&
    forall k :: 0 <= k < |recs| ==> |recs[k]| <= 1 && (|recs[k]| == 1 ==> recs[k][0].p == table[k])
  }

  lemma RecordsFacts(table: seq<int>, base: int, target: int)
    requires PrimeTable(table)
    ensures RecordsOk(table, Records(table, base, target))
  {
    forall k | 0 <= k < |table|
      ensures Records(table, base, target)[k] == RowsAt(base, target, table[k])
    {
      RecordAt(table, base, target, k);
    }
  }

  /**
   * The rows a shard emits from table index k on, stepping by step: nothing
   * once the index leaves the table or its prime exceeds limit, otherwise
   * the index's row, if any, then the rest of the shard.
   */
  ghost function Shard(table: seq<int>, recs: seq<seq<Row>>, limit: int, step: nat, k: nat): seq<Row>
    requires |recs| == |table| && step >= 1
    decreases |table| - k
  {
    if k >= |table| || table[k] > limit then []
    else recs[k] + Shard(table, recs, limit, step, k + step)
  }

  lemma ShardUnfold(table: seq<int>, recs: seq<seq<Row>>, limit: int, step: nat, k: nat)
    requires |recs| == |table| && step >= 1 && k < |table| && table[k] <= limit
    ensures Shard(table, recs, limit, step, k) == recs[k] + Shard(table, recs, limit, step, k + step)
  {
  }

  /** The restriction of base and target modulo p depends only on their residues. */
  lemma RestrictionOfResidues(base: int, p: int, target: int)
    requires IsPrime(p)
    ensures Restrictions.Restriction(Common.Mod(base, p), p, Common.Mod(target, p)) == Restrictions.Restriction(base, p, target)
  {
    ModIdempotent(base, p);
    ModIdempotent(target, p);
  }

  /**
   * The private generate(limit, base, target, shift, step, primes): visits
   * the table indices shift, shift + step, ..., stops at the first prime
   * above limit, and records each prime that has a restriction.
   */
  method GenerateShard(limit: int, base: int, target: int, shift: nat, step: nat, primes: Primes.Primes)
    returns (rows: seq<Row>)
    requires primes.Valid() && step >= 1
    ensures PrimeTable(primes.table)
    ensures rows == Shard(primes.table, Records(primes.table, base, target), limit, step, shift)
  {
    ValidTable(primes);
    ghost var recs := Records(primes.table, base, target);
    rows := [];
    var i := shift;
    while i < primes.Size()
      invariant i >= shift
      invariant Shard(primes.table, recs, limit, step, shift) == rows + Shard(primes.table, recs, limit, step, i)
      decreases |primes.table| - i
    {
      var p := primes.Get(i);
      if p > limit {
        break;
      }
      var found := ShardStep(limit, base, target, i, primes);
      var next := i + step;
      ShardAdvance(primes.table, recs, limit, step, shift, i, next, rows, found);
      rows := rows + found;
      i := next;
    }
  }

  /** Appending the record of index i moves the shard's remainder on to i + step. */
  lemma ShardAdvance(table: seq<int>, recs: seq<seq<Row>>, limit: int, step: nat, shift: nat, i: nat, next: nat,
                     rows: seq<Row>, found: seq<Row>)
    requires |recs| == |table| && step >= 1 && i < |table| && table[i] <= limit && found == recs[i] && next == i + step
    requires Shard(table, recs, limit, step, shift) == rows + Shard(table, recs, limit, step, i)
    ensures Shard(table, recs, limit, step, shift) == (rows + found) + Shard(table, recs, limit, step, next)
  {
    ShardUnfold(table, recs, limit, step, i);
    AppendAssoc(rows, found, Shard(table, recs, limit, step, i + step));
  }

  lemma AppendAssoc<T>(a: seq<T>, b: seq<T>, c: seq<T>)
    ensures a + (b + c) == (a + b) + c
  {
  }

  /** One index of a shard: the row of its prime, if the prime has a restriction. */
  method ShardStep(limit: int, base: int, target: int, i: nat, primes: Primes.Primes)
    returns (found: seq<Row>)
    requires primes.Valid() && i < |primes.table|
    ensures PrimeTable(primes.table) && found == Records(primes.table, base, target)[i]
  {
    ValidTable(primes);
    var p := primes.Get(i);
    var r := CalculateRestriction(Common.Mod(base, p), p, Common.Mod(target, p), primes);
    RestrictionOfResidues(base, p, target);
    found := [];
    if r.Some? {
      found := [Row(p, r.value.0, r.value.1, Gcd(r.value.0, r.value.1))];
    }
    RecordAt(primes.table, base, target, i);
  }

  /** The primes of a list of rows, in order: the first result array. */
  function PrimesOf(rows: seq<Row>): (ps: seq<int>)
    ensures |ps| == |rows|
  {
    if rows == [] then [] else PrimesOf(rows[..|rows| - 1]) + [rows[|rows| - 1].p]
  }

  lemma {:induction false} PrimesOfIndex(rows: seq<Row>, k: nat)
    requires k < |rows|
    ensures PrimesOf(rows)[k] == rows[k].p
    decreases |rows|
  {
    if k < |rows| - 1 {
      assert rows[..|rows| - 1][k] == rows[k];
      PrimesOfIndex(rows[..|rows| - 1], k);
    }
  }

  /** A prime is among the rows exactly when some row carries it. */
  lemma PrimesOfMember(rows: seq<Row>, x: int)
    ensures x in PrimesOf(rows) <==> exists k :: 0 <= k < |rows| && rows[k].p == x
  {
    if x in PrimesOf(rows) {
      var k :| 0 <= k < |rows| && PrimesOf(rows)[k] == x;
      PrimesOfIndex(rows, k);
    }
    if exists k :: 0 <= k < |rows| && rows[k].p == x {
      var k :| 0 <= k < |rows| && rows[k].p == x;
      PrimesOfIndex(rows, k);
    }
  }

  /** Past the first prime above limit every later start is empty, the table being increasing. */
  lemma ShardBeyond(table: seq<int>, recs: seq<seq<Row>>, limit: int, step: nat, k: nat, k': nat)
    requires PrimeTable(table) && |recs| == |table| && step >= 1 && k <= k'
    requires k >= |table| || table[k] > limit
    ensures Shard(table, recs, limit, step, k') == []
  {
    if k' < |table| && k < |table| {
      assert table[k] <= table[k'];
    }
  }

  /**
   * Every row of a shard is the row recorded at one of its indices, carries a
   * prime at most limit and no smaller than the prime at k, and the rows come
   * in increasing order of prime.
   */
  lemma {:induction false} ShardRows(table: seq<int>, recs: seq<seq<Row>>, limit: int, step: nat, k: nat)
    requires PrimeTable(table) && RecordsOk(table, recs) && step >= 1
    ensures ShardOrdered(table, recs, limit, k, Shard(table, recs, limit, step, k))
    decreases |table| - k
  {
    if k < |table| && table[k] <= limit {
      ShardRows(table, recs, limit, step, k + step);
      OrderedCons(table, recs, limit, step, k, Shard(table, recs, limit, step, k + step));
    }
  }

  /** Putting the row at k in front of the rest of the shard keeps it ordered. */
  lemma OrderedCons(table: seq<int>, recs: seq<seq<Row>>, limit: int, step: nat, k: nat, rest: seq<Row>)
    requires PrimeTable(table) && RecordsOk(table, recs) && step >= 1 && k < |table| && table[k] <= limit
    requires ShardOrdered(table, recs, limit, k + step, rest)
    ensures ShardOrdered(table, recs, limit, k, recs[k] + rest)
  {
    var s := recs[k] + rest;
    if |rest| > 0 {
      assert k + step < |table| && table[k + step] <= rest[0].p;
      assert table[k] < table[k + step];
    }
    forall i | 0 <= i < |s|
      ensures Recorded(recs, s[i]) && s[i].p <= limit && table[k] <= s[i].p
    {
      if i < |recs[k]| {
        assert s[i] == recs[k][0] && recs[k][0].p == table[k];
        assert 0 <= k < |recs| && |recs[k]| == 1 && recs[k][0] == s[i];
      } else {
        assert s[i] == rest[i - |recs[k]|];
      }
    }
    forall i, j | 0 <= i < j < |s|
      ensures s[i].p < s[j].p
    {
      assert s[j] == rest[j - |recs[k]|];
      if i >= |recs[k]| {
        assert s[i] == rest[i - |recs[k]|];
      }
    }
  }

  /**
   * The rows s, emitted from index k on, are recorded rows with primes at
   * most limit and no smaller than the prime at k, in increasing order.
   */
  ghost predicate ShardOrdered(table: seq<int>, recs: seq<seq<Row>>, limit: int, k: nat, s: seq<Row>)
  {
    (forall i :: 0 <= i < |s| ==> Recorded(recs, s[i]) && s[i].p <= limit && k < |table| && table[k] <= s[i].p) &&
    (forall i, j :: 0 <= i < j < |s| ==> s[i].p < s[j].p)
  }

  /** r is the row recorded at some index. */
  ghost predicate Recorded(recs: seq<seq<Row>>, r: Row)
  {
    exists m :: 0 <= m < |recs| && |recs[m]| == 1 && recs[m][0] == r
  }

  /** A recorded row of the good-prime records is the record of its prime. */
  lemma RecordedRow(table: seq<int>, base: int, target: int, r: Row)
    requires PrimeTable(table) && Recorded(Records(table, base, target), r)
    ensures RowOf(base, target, r)
  {
    var recs := Records(table, base, target);
    var m :| 0 <= m < |recs| && |recs[m]| == 1 && recs[m][0] == r;
    RecordAt(table, base, target, m);
  }

  /** Index m is one of k, k + step, ..., holds x at most limit, and has a row. */
  ghost predicate VisitedAt(table: seq<int>, recs: seq<seq<Row>>, limit: int, step: nat, k: nat, x: int, m: int)
    requires |recs| == |table| && step >= 1
  {
    k <= m < |table| && (m - k) % step == 0 && table[m] == x && x <= limit && |recs[m]| == 1
  }

  ghost predicate Visited(table: seq<int>, recs: seq<seq<Row>>, limit: int, step: nat, k: nat, x: int)
    requires |recs| == |table| && step >= 1
  {
    exists m :: VisitedAt(table, recs, limit, step, k, x, m)
  }

  lemma VisitedEarlier(table: seq<int>, recs: seq<seq<Row>>, limit: int, step: nat, k: nat, x: int, m: int)
    requires |recs| == |table| && step >= 1 && VisitedAt(table, recs, limit, step, k + step, x, m)
    ensures VisitedAt(table, recs, limit, step, k, x, m)
  {
    ModAddMultiple(m - (k + step), step, 1);
    assert m - (k + step) + step * 1 == m - k;
  }

  lemma VisitedLater(table: seq<int>, recs: seq<seq<Row>>, limit: int, step: nat, k: nat, x: int, m: int)
    requires |recs| == |table| && step >= 1 && VisitedAt(table, recs, limit, step, k, x, m) && m != k
    ensures VisitedAt(table, recs, limit, step, k + step, x, m)
  {
    if m - k < step {
      ModSmall(m - k, step);
    }
    ModAddMultiple(m - k, step, -1);
    assert m - k + step * (-1) == m - (k + step);
  }

  /**
   * A prime is in the shard starting at k exactly when it sits at one of the
   * indices k, k + step, ..., is at most limit and has a row.
   */
  lemma {:induction false} ShardMembers(table: seq<int>, recs: seq<seq<Row>>, limit: int, step: nat, k: nat, x: int)
    requires PrimeTable(table) && RecordsOk(table, recs) && step >= 1
    ensures x in PrimesOf(Shard(table, recs, limit, step, k)) <==> Visited(table, recs, limit, step, k, x)
    decreases |table| - k
  {
    if k < |table| && table[k] <= limit {
      ShardMembers(table, recs, limit, step, k + step, x);
      var s := Shard(table, recs, limit, step, k);
      if x in PrimesOf(s) {
        MemberVisited(table, recs, limit, step, k, x);
      }
      if Visited(table, recs, limit, step, k, x) {
        VisitedMember(table, recs, limit, step, k, x);
      }
    } else {
      PrimesOfMember(Shard(table, recs, limit, step, k), x);
    }
  }

  /** The step of ShardMembers from left to right: a prime of the shard at k is visited from k. */
  lemma MemberVisited(table: seq<int>, recs: seq<seq<Row>>, limit: int, step: nat, k: nat, x: int)
    requires PrimeTable(table) && RecordsOk(table, recs) && step >= 1 && k < |table| && table[k] <= limit
    requires x in PrimesOf(Shard(table, recs, limit, step, k + step)) ==> Visited(table, recs, limit, step, k + step, x)
    requires x in PrimesOf(Shard(table, recs, limit, step, k))
    ensures Visited(table, recs, limit, step, k, x)
  {
    var s := Shard(table, recs, limit, step, k);
    var rest := Shard(table, recs, limit, step, k + step);
    assert s == recs[k] + rest;
    PrimesOfMember(s, x);
    PrimesOfMember(rest, x);
    var i :| 0 <= i < |s| && s[i].p == x;
    if i < |recs[k]| {
      assert VisitedAt(table, recs, limit, step, k, x, k);
    } else {
      assert rest[i - |recs[k]|].p == x;
      var m :| VisitedAt(table, recs, limit, step, k + step, x, m);
      VisitedEarlier(table, recs, limit, step, k, x, m);
    }
  }

  /** The step of ShardMembers from right to left: a prime visited from k is in the shard at k. */
  lemma VisitedMember(table: seq<int>, recs: seq<seq<Row>>, limit: int, step: nat, k: nat, x: int)
    requires PrimeTable(table) && RecordsOk(table, recs) && step >= 1 && k < |table| && table[k] <= limit
    requires Visited(table, recs, limit, step, k + step, x) ==> x in PrimesOf(Shard(table, recs, limit, step, k + step))
    requires Visited(table, recs, limit, step, k, x)
    ensures x in PrimesOf(Shard(table, recs, limit, step, k))
  {
    var s := Shard(table, recs, limit, step, k);
    var rest := Shard(table, recs, limit, step, k + step);
    assert s == recs[k] + rest;
    PrimesOfMember(s, x);
    PrimesOfMember(rest, x);
    var m :| VisitedAt(table, recs, limit, step, k, x, m);
    if m == k {
      assert s[0].p == x;
    } else {
      VisitedLater(table, recs, limit, step, k, x, m);
      var i :| 0 <= i < |rest| && rest[i].p == x;
      assert s[i + |recs[k]|].p == x;
    }
  }

  // ------------------------------------------------------------------
  // isGcdGood
  // ------------------------------------------------------------------

  /** The maps aOf and bOf (the source's as and bs) hold, per recorded prime, its restriction {A, B} with 0 <= B < A. */
  ghost predicate RestrictionMaps(aOf: map<int, int>, bOf: map<int, int>)
  {
    (forall s :: s in aOf ==> IsPrime(s) && aOf[s] > 0 && Restrictions.Get(bOf, s) < aOf[s]) &&
    (forall s :: s in bOf ==> bOf[s] >= 0)
  }

  /**
   * The fold isGcdGood performs over the prime factors fs of the gcd,
   * smallest first: each factor needs a recorded restriction (a nonzero
   * entry of aOf), and Restrictions.merge must fold it into the class B mod A
   * over modulus C.
   */
  ghost predicate FoldsGood(base: int, target: int, fs: seq<int>, C: int, A: int, B: int, aOf: map<int, int>, bOf: map<int, int>)
    requires C > 0 && A > 0 && forall k :: 0 <= k < |fs| ==> IsPrime(fs[k])
    decreases |fs|
  {
    |fs| == 0 ||
    (var p := fs[0];
     assert IsPrime(p);
     MulAtLeast(C, p);
     Restrictions.Get(aOf, p) > 0 &&
     exists A', B' :: Restrictions.MergesTo(base, target, C, A, B, p, Restrictions.Get(aOf, p), Restrictions.Get(bOf, p), A', B') &&
                     FoldsGood(base, target, fs[1..], C * p, A', B', aOf, bOf))
  }

  /**
   * The verdict isGcdGood is meant to reach on g: the recorded restrictions
   * of g's prime factors, smallest first and each as often as it divides g,
   * fold by Restrictions.merge from the class 0 mod 1 over modulus 1.
   */
  ghost predicate GcdGood(base: int, target: int, g: int, aOf: map<int, int>, bOf: map<int, int>)
  {
    FoldsGood(base, target, PrimeFactors(g), 1, 1, 0, aOf, bOf)
  }

  /** The fold reads the maps at the factors only. */
  lemma {:induction false} FoldsGoodFrame(base: int, target: int, fs: seq<int>, C: int, A: int, B: int,
                                          aOf: map<int, int>, bOf: map<int, int>, aOf': map<int, int>, bOf': map<int, int>)
    requires C > 0 && A > 0 && forall k :: 0 <= k < |fs| ==> IsPrime(fs[k])
    requires forall k :: 0 <= k < |fs| ==>
               Restrictions.Get(aOf, fs[k]) == Restrictions.Get(aOf', fs[k]) && Restrictions.Get(bOf, fs[k]) == Restrictions.Get(bOf', fs[k])
    ensures FoldsGood(base, target, fs, C, A, B, aOf, bOf) == FoldsGood(base, target, fs, C, A, B, aOf', bOf')
    decreases |fs|
  {
    if |fs| > 0 {
      var p := fs[0];
      MulAtLeast(C, p);
      var a, b := Restrictions.Get(aOf, p), Restrictions.Get(bOf, p);
      if a > 0 {
        forall A', B' | Restrictions.MergesTo(base, target, C, A, B, p, a, b, A', B')
          ensures FoldsGood(base, target, fs[1..], C * p, A', B', aOf, bOf) == FoldsGood(base, target, fs[1..], C * p, A', B', aOf', bOf')
        {
          FoldsGoodFrame(base, target, fs[1..], C * p, A', B', aOf, bOf, aOf', bOf');
        }
      }
    }
  }

  /** Whether g is good depends on the maps at the primes up to g only. */
  lemma GcdGoodFrame(base: int, target: int, g: int, aOf: map<int, int>, bOf: map<int, int>, aOf': map<int, int>, bOf': map<int, int>)
    requires forall s :: IsPrime(s) && s <= g ==>
               Restrictions.Get(aOf, s) == Restrictions.Get(aOf', s) && Restrictions.Get(bOf, s) == Restrictions.Get(bOf', s)
    ensures GcdGood(base, target, g, aOf, bOf) == GcdGood(base, target, g, aOf', bOf')
  {
    FoldsGoodFrame(base, target, PrimeFactors(g), 1, 1, 0, aOf, bOf, aOf', bOf');
  }

  /**
   * One merge of the fold: with p the smallest prime of rem, the fold over
   * rem's factors fails when merge fails, and otherwise goes on from the
   * merged class over rem / p.
   */
  lemma FoldDivide(base: int, target: int, rem: int, p: int, C: int, A: int, B: int, aOf: map<int, int>, bOf: map<int, int>,
                   r: Option<(int, int)>)
    requires IsPrime(p) && rem >= 1 && rem % p == 0 && Primes.NoFactorBelow(rem, p) && C > 0 && A > 0
    requires Restrictions.Get(aOf, p) > 0
    requires r.Some? ==> Restrictions.MergesTo(base, target, C, A, B, p, Restrictions.Get(aOf, p), Restrictions.Get(bOf, p), r.value.0, r.value.1)
    requires r.None? ==> forall A', B' :: !Restrictions.MergesTo(base, target, C, A, B, p, Restrictions.Get(aOf, p), Restrictions.Get(bOf, p), A', B')
    ensures C * p > 0
    ensures r.None? ==> !FoldsGood(base, target, PrimeFactors(rem), C, A, B, aOf, bOf)
    ensures r.Some? ==> r.value.0 > 0
    ensures r.Some? ==>
              (FoldsGood(base, target, PrimeFactors(rem), C, A, B, aOf, bOf) <==> FoldsGood(base, target, PrimeFactors(rem / p), C * p, r.value.0, r.value.1, aOf, bOf))
  {
    MulAtLeast(C, p);
    DivisorAtMost(p, rem);
    PrimeFactorsUnfold(rem, p);
    var fs := PrimeFactors(rem);
    assert fs[0] == p && fs[1..] == PrimeFactors(rem / p);
    if r.Some? {
      var a, b := Restrictions.Get(aOf, p), Restrictions.Get(bOf, p);
      forall A', B' | Restrictions.MergesTo(base, target, C, A, B, p, a, b, A', B')
        ensures A' == r.value.0 && B' == r.value.1
      {
        Restrictions.RefinesUnique(C, A, B, p, a, b, A', B', r.value.0, r.value.1);
      }
    }
  }

  /** With no factor below p and rem < p*p, rem is 1 or a prime. */
  lemma SmallRemainder(rem: int, p: int)
    requires rem >= 1 && p >= 2 && Primes.NoFactorBelow(rem, p) && rem / p < p
    ensures rem == 1 || IsPrime(rem)
  {
    if rem >= 2 && !IsPrime(rem) {
      var q := SmallestFactor(rem);
      Primes.DivisorOfQuotient(rem, q);
      var k := rem / q;
      DivOfMultiple(rem, q);
      assert 2 <= k && rem % k == 0;
      assert p <= q && p <= k;
      ProductOfLarge(p, q, k);
      BelowSquare(rem, p);
    }
  }

  /** Two factors of at least p make at least p * p. */
  lemma ProductOfLarge(p: int, q: int, k: int)
    requires 0 <= p <= q && p <= k
    ensures p * p <= q * k
  {
    MulNonneg(q - p, k);
    MulNonneg(p, k - p);
    assert q * k == (q - p) * k + p * (k - p) + p * p;
  }

  /** rem / p < p puts rem below p * p. */
  lemma BelowSquare(rem: int, p: int)
    requires rem >= 0 && p >= 1 && rem / p < p
    ensures rem < p * p
  {
    assert rem == p * (rem / p) + rem % p;
    MulNonneg(p, p - 1 - rem / p);
    assert p * p - p * (rem / p) == p * (p - 1 - rem / p) + p;
  }

  /** Past the whole table, a remainder up to the limit with no factor in the table is 1. */
  lemma BeyondTable(primes: Primes.Primes, rem: int)
    requires primes.Valid() && 1 <= rem <= primes.limit && Primes.NoFactorBelow(rem, primes.Trial(|primes.table|))
    ensures rem == 1
  {
    if rem >= 2 {
      var q := SmallestFactor(rem);
    }
  }

  /** The merge state of isGcdGood: C * rem == gcd, and the merged class B mod A, with 0 <= B < A, passes the check modulo C once C > 1. */
  ghost predicate Folded(base: int, target: int, gcd: int, C: int, A: int, B: int, rem: int)
  {
    C >= 1 && A > 0 && 0 <= B < A && rem >= 1 && C * rem == gcd &&
    (C > 1 ==> Restrictions.CheckPasses(base, target, C, A, B))
  }

  /** The fold still to run over rem's factors decides whether gcd is good. */
  ghost predicate Tracks(base: int, target: int, gcd: int, aOf: map<int, int>, bOf: map<int, int>, C: int, A: int, B: int, rem: int)
    requires C > 0 && A > 0
  {
    GcdGood(base, target, gcd, aOf, bOf) <==> FoldsGood(base, target, PrimeFactors(rem), C, A, B, aOf, bOf)
  }

  /** Dividing out p keeps every other prime factor. */
  lemma OtherPrimeStays(s: int, p: int, n: int)
    requires IsPrime(s) && IsPrime(p) && s != p && n % p == 0 && n % s == 0
    ensures (n / p) % s == 0
  {
    assert n == p * (n / p);
    if p % s == 0 {
      PrimeDivisors(p, s);
    }
    EuclidLemma(s, p, n / p);
  }

  /** Every prime factor of gcd is recorded in aOf or still divides the unprocessed part rem. */
  ghost predicate Covered(gcd: int, aOf: map<int, int>, rem: int)
  {
    forall s :: IsPrime(s) && gcd % s == 0 ==> s in aOf || rem % s == 0
  }

  /**
   * isGcdGood(base, target, gcd, primes, as, bs): folds the recorded
   * restriction of every prime factor of gcd, with multiplicity, into one
   * restriction over the growing modulus C by Restrictions.merge, trial
   * dividing by the table primes p while gcd / p >= p and treating what
   * remains above 1 as one more prime. False when a prime factor has no
   * recorded restriction or a merge fails. Up to the table's limit this is
   * GcdGood; a good gcd has all its prime factors recorded and a merged
   * restriction whose check passes modulo the gcd.
   */
  method IsGcdGood(base: int, target: int, gcd: int, primes: Primes.Primes, aOf: map<int, int>, bOf: map<int, int>)
    returns (good: bool)
    requires base > 1 && gcd >= 1 && primes.Valid() && RestrictionMaps(aOf, bOf)
    ensures gcd <= primes.limit ==> (good <==> GcdGood(base, target, gcd, aOf, bOf))
    ensures gcd == 1 ==> good
    ensures good ==> forall s :: IsPrime(s) && gcd % s == 0 ==> s in aOf
    ensures good && gcd > 1 ==> exists A, B :: A > 0 && B >= 0 && Restrictions.CheckPasses(base, target, gcd, A, B)
  {
    var C, A, B := 1, 1, 0;
    var rem := gcd;
    var i := 0;
    primes.TrialStart();
    ghost var small := false;
    while i < primes.Size()
      invariant 0 <= i <= |primes.table| && !small
      invariant Folded(base, target, gcd, C, A, B, rem) && Covered(gcd, aOf, rem)
      invariant Tracks(base, target, gcd, aOf, bOf, C, A, B, rem) && Primes.NoFactorBelow(rem, primes.Trial(i))
      decreases |primes.table| - i
    {
      var p := primes.Get(i);
      if rem / p < p {
        SmallRemainder(rem, p);
        small := true;
        break;
      }
      var ok;
      ok, C, A, B, rem := TrialPrime(base, target, gcd, aOf, bOf, p, C, A, B, rem);
      if !ok {
        return false;
      }
      primes.NoFactorAdvance(rem, i);
      i := i + 1;
    }
    if !small && gcd <= primes.limit {
      MulAtLeast(rem, C);
      BeyondTable(primes, rem);
    }
    good := Finish(base, target, gcd, aOf, bOf, C, A, B, rem);
  }

  /**
   * One table prime p in isGcdGood's loop: when p divides rem, its recorded
   * restriction is merged in as often as p divides; false when p has no
   * recorded restriction or a merge fails, and then gcd is not good.
   */
  method TrialPrime(base: int, target: int, gcd: int, aOf: map<int, int>, bOf: map<int, int>, p: int,
                    C0: int, A0: int, B0: int, rem0: int)
    returns (ok: bool, C: int, A: int, B: int, rem: int)
    requires base > 1 && IsPrime(p) && RestrictionMaps(aOf, bOf) && Primes.NoFactorBelow(rem0, p)
    requires Folded(base, target, gcd, C0, A0, B0, rem0) && Covered(gcd, aOf, rem0)
    requires Tracks(base, target, gcd, aOf, bOf, C0, A0, B0, rem0)
    ensures ok ==> Folded(base, target, gcd, C, A, B, rem) && Covered(gcd, aOf, rem)
    ensures ok ==> Tracks(base, target, gcd, aOf, bOf, C, A, B, rem)
    ensures ok ==> rem % p != 0 && Primes.NoFactorBelow(rem, p)
    ensures !ok ==> gcd > 1 && !GcdGood(base, target, gcd, aOf, bOf)
  {
    C, A, B, rem := C0, A0, B0, rem0;
    ok := true;
    if rem % p == 0 {
      DivisorAtMost(p, rem);
      MulAtLeast(rem, C);
      var a := Restrictions.Get(aOf, p);
      if a == 0 {
        PrimeFactorsUnfold(rem, p);
        ok := false;
        return;
      }
      var b := Restrictions.Get(bOf, p);
      ok, C, A, B, rem := DivideOut(base, target, gcd, aOf, bOf, p, a, b, C, A, B, rem);
    }
  }

  /**
   * The do-while of isGcdGood for one prime p of the table: divides p out of
   * rem as often as it divides, merging the restriction {a, b} of p each
   * time; false as soon as a merge fails. It runs the fold over rem's
   * factors p, p, ..., and stops where the fold fails.
   */
  method DivideOut(base: int, target: int, gcd: int, aOf: map<int, int>, bOf: map<int, int>, p: int, a: int, b: int,
                   C0: int, A0: int, B0: int, rem0: int)
    returns (merged: bool, C: int, A: int, B: int, rem: int)
    requires base > 1 && IsPrime(p) && RestrictionMaps(aOf, bOf) && rem0 % p == 0 && Primes.NoFactorBelow(rem0, p)
    requires a == Restrictions.Get(aOf, p) && a > 0 && b == Restrictions.Get(bOf, p)
    requires Folded(base, target, gcd, C0, A0, B0, rem0) && Covered(gcd, aOf, rem0)
    ensures merged ==> Folded(base, target, gcd, C, A, B, rem) && Covered(gcd, aOf, rem) && rem % p != 0 && Primes.NoFactorBelow(rem, p)
    ensures merged ==> (FoldsGood(base, target, PrimeFactors(rem0), C0, A0, B0, aOf, bOf) <==> FoldsGood(base, target, PrimeFactors(rem), C, A, B, aOf, bOf))
    ensures !merged ==> !FoldsGood(base, target, PrimeFactors(rem0), C0, A0, B0, aOf, bOf)
  {
    C, A, B, rem := C0, A0, B0, rem0;
    assert p in aOf;
    while rem % p == 0
      invariant Folded(base, target, gcd, C, A, B, rem) && Covered(gcd, aOf, rem) && Primes.NoFactorBelow(rem, p)
      invariant FoldsGood(base, target, PrimeFactors(rem0), C0, A0, B0, aOf, bOf) <==> FoldsGood(base, target, PrimeFactors(rem), C, A, B, aOf, bOf)
      decreases rem
    {
      CoveredStep(gcd, aOf, p, rem);
      var rem' := rem / p;
      var newAB := Restrictions.Merge(base, target, C, A, B, p, a, b);
      FoldDivide(base, target, rem, p, C, A, B, aOf, bOf, newAB);
      if newAB.None? {
        return false, C, A, B, rem';
      }
      FoldStep(base, target, gcd, C, A, B, rem, p, a, b, newAB.value.0, newAB.value.1);
      Primes.NoFactorDivisor(rem, rem', p);
      C, A, B, rem := C * p, newAB.value.0, newAB.value.1, rem';
    }
    merged := true;
  }

  /** A merge of p's restriction into B mod A that passes modulo C * p moves one factor p from rem to C. */
  lemma FoldStep(base: int, target: int, gcd: int, C: int, A: int, B: int, rem: int, p: int, a: int, b: int, A': int, B': int)
    requires base > 1 && IsPrime(p) && a > 0 && b >= 0 && rem % p == 0 && Folded(base, target, gcd, C, A, B, rem)
    requires Restrictions.MergesTo(base, target, C, A, B, p, a, b, A', B')
    ensures Folded(base, target, gcd, C * p, A', B', rem / p)
  {
    Restrictions.MergesToFacts(base, target, C, A, B, p, a, b, A', B');
    FoldArith(C, rem, p);
  }

  lemma FoldArith(C: int, rem: int, p: int)
    requires C >= 1 && rem >= 1 && p >= 2 && rem % p == 0
    ensures C * p >= 1 && rem / p >= 1 && (C * p) * (rem / p) == C * rem
  {
    var rem' := rem / p;
    DivOfMultiple(rem, p);
    MulAssocLeft(p, C, rem');
    FactorSign(p, rem');
    MulAtLeast(C, p);
  }

  /** Dividing a recorded prime p out of rem keeps every unrecorded prime factor in it. */
  lemma CoveredStep(gcd: int, aOf: map<int, int>, p: int, rem: int)
    requires IsPrime(p) && p in aOf && rem >= 1 && rem % p == 0 && Covered(gcd, aOf, rem)
    ensures Covered(gcd, aOf, rem / p) && 1 <= rem / p < rem && rem % (rem / p) == 0
  {
    forall s | IsPrime(s) && gcd % s == 0 && s !in aOf
      ensures (rem / p) % s == 0
    {
      OtherPrimeStays(s, p, rem);
    }
    Primes.DivisorOfQuotient(rem, p);
  }

  /**
   * The end of isGcdGood: what remains above 1 is merged as one more prime,
   * if it is recorded. When the remainder is 1 or a prime, the verdict is
   * the fold over the remainder's factors.
   */
  method Finish(base: int, target: int, gcd: int, aOf: map<int, int>, bOf: map<int, int>, C: int, A: int, B: int, rem: int)
    returns (good: bool)
    requires base > 1 && RestrictionMaps(aOf, bOf)
    requires Folded(base, target, gcd, C, A, B, rem) && Covered(gcd, aOf, rem)
    ensures rem == 1 || IsPrime(rem) ==> (good <==> FoldsGood(base, target, PrimeFactors(rem), C, A, B, aOf, bOf))
    ensures gcd == 1 ==> good
    ensures good ==> forall s :: IsPrime(s) && gcd % s == 0 ==> s in aOf
    ensures good && gcd > 1 ==> exists A, B :: A > 0 && B >= 0 && Restrictions.CheckPasses(base, target, gcd, A, B)
  {
    if rem > 1 {
      var a := Restrictions.Get(aOf, rem);
      if a == 0 {
        if IsPrime(rem) {
          PrimeFactorsOfPrime(rem);
        }
        return false;
      }
      var b := Restrictions.Get(bOf, rem);
      var AB := Restrictions.Merge(base, target, C, A, B, rem, a, b);
      PrimeFactorsOfPrime(rem);
      MulAtLeast(C, rem);
      if AB.Some? {
        assert Restrictions.CheckPasses(base, target, gcd, AB.value.0, AB.value.1);
        assert [rem][1..] == [];
        assert FoldsGood(base, target, PrimeFactors(rem), C, A, B, aOf, bOf);
        forall s | IsPrime(s) && gcd % s == 0
          ensures s in aOf
        {
          if s !in aOf {
            PrimeDivisors(rem, s);
          }
        }
      }
      return AB.Some?;
    } else {
      if gcd > 1 {
        assert Restrictions.CheckPasses(base, target, gcd, A, B);
      }
      forall s | IsPrime(s) && gcd % s == 0
        ensures s in aOf
      {
        if s !in aOf {
          DivisorAtMost(s, rem);
        }
      }
      return true;
    }
  }

  // ------------------------------------------------------------------
  // mergeResults
  // ------------------------------------------------------------------

  /**
   * A gcd > 1 is good for the rows kept so far: every prime factor of it is a
   * kept prime, and merging their restrictions gave one whose check passes
   * modulo the gcd.
   */
  ghost predicate GoodGcd(base: int, target: int, g: int, kept: seq<int>)
  {
    g > 1 && (forall s :: IsPrime(s) && g % s == 0 ==> s in kept) &&
    exists A, B :: A > 0 && B >= 0 && Restrictions.CheckPasses(base, target, g, A, B)
  }

  lemma PrimesOfSnoc(rows: seq<Row>, r: Row)
    ensures PrimesOf(rows + [r]) == PrimesOf(rows) + [r.p]
  {
    assert (rows + [r])[..|rows|] == rows;
  }

  /** The largest gcdAB over all shards (Math.max over the fourth arrays), 0 when there is none. */
  method MaxGcd(results: seq<seq<Row>>) returns (m: int)
    ensures m >= 0
    ensures forall j, k :: 0 <= j < |results| && 0 <= k < |results[j]| ==> results[j][k].gcdAB <= m
    ensures m == 0 || exists j, k :: 0 <= j < |results| && 0 <= k < |results[j]| && results[j][k].gcdAB == m
  {
    m := 0;
    for j := 0 to |results|
      invariant m >= 0
      invariant forall j', k :: 0 <= j' < j && 0 <= k < |results[j']| ==> results[j'][k].gcdAB <= m
      invariant m == 0 || exists j', k :: 0 <= j' < j && 0 <= k < |results[j']| && results[j'][k].gcdAB == m
    {
      for k := 0 to |results[j]|
        invariant m >= 0
        invariant forall j', k' :: 0 <= j' < j && 0 <= k' < |results[j']| ==> results[j'][k'].gcdAB <= m
        invariant forall k' :: 0 <= k' < k ==> results[j][k'].gcdAB <= m
        invariant m == 0 || exists j', k' :: 0 <= j' <= j && 0 <= k' < |results[j']| && results[j'][k'].gcdAB == m
      {
        m := if m >= results[j][k].gcdAB then m else results[j][k].gcdAB;
      }
    }
  }

  /**
   * The shard cursors before table index i + j: shard j' has consumed its
   * rows below that index, so what is left of it is the shard from its next
   * index on (i + n + j' once visited in this round, i + j' otherwise).
   */
  ghost predicate Cursors(table: seq<int>, recs: seq<seq<Row>>, limit: int, results: seq<seq<Row>>, pos: seq<int>, i: nat, j: nat)
    requires |recs| == |table|
  {
    |results| >= 1 && |pos| == |results| &&
    forall j' :: 0 <= j' < |results| ==>
      0 <= pos[j'] <= |results[j']| &&
      results[j'][pos[j']..] == Shard(table, recs, limit, |results|, if j' < j then i + |results| + j' else i + j')
  }

  /**
   * The output before table index t: recorded rows with primes at most limit,
   * increasing and below the prime at t; each with gcd 1 or a good gcd.
   */
  ghost predicate Emitted(table: seq<int>, recs: seq<seq<Row>>, limit: int, base: int, target: int, t: nat, out: seq<Row>)
  {
    (forall k :: 0 <= k < |out| ==> Recorded(recs, out[k]) && out[k].p <= limit) &&
    (forall k, l :: 0 <= k < l < |out| ==> out[k].p < out[l].p) &&
    (t < |table| ==> forall k :: 0 <= k < |out| ==> out[k].p < table[t]) &&
    GoodRows(base, target, out)
  }

  /**
   * The memo and the maps: a remembered good gcd is good for the kept primes
   * and GcdGood for the maps, a remembered bad gcd is not GcdGood, and the
   * maps hold restrictions of kept primes only.
   */
  ghost predicate Memo(base: int, target: int, out: seq<Row>, aOf: map<int, int>, bOf: map<int, int>, goodGcd: set<int>, badGcd: set<int>)
  {
    (forall g :: g in goodGcd ==> GoodGcd(base, target, g, PrimesOf(out)) && GcdGood(base, target, g, aOf, bOf)) &&
    (forall g :: g in badGcd ==> !GcdGood(base, target, g, aOf, bOf)) &&
    RestrictionMaps(aOf, bOf) &&
    (forall s :: s in aOf ==> s in PrimesOf(out))
  }

  /** Every remembered gcd lies below the prime of index t, whose restriction may be stored next. */
  ghost predicate MemoBelow(table: seq<int>, t: nat, goodGcd: set<int>, badGcd: set<int>)
  {
    t < |table| ==> (forall g :: g in goodGcd ==> g < table[t]) && (forall g :: g in badGcd ==> g < table[t])
  }

  /** The restrictions of the rows as a map from prime to a. */
  ghost function AOf(rows: seq<Row>): map<int, int>
  {
    if rows == [] then map[] else AOf(rows[..|rows| - 1])[rows[|rows| - 1].p := rows[|rows| - 1].a]
  }

  /** The restrictions of the rows as a map from prime to b. */
  ghost function BOf(rows: seq<Row>): map<int, int>
  {
    if rows == [] then map[] else BOf(rows[..|rows| - 1])[rows[|rows| - 1].p := rows[|rows| - 1].b]
  }

  lemma MapsSnoc(rows: seq<Row>, r: Row)
    ensures AOf(rows + [r]) == AOf(rows)[r.p := r.a] && BOf(rows + [r]) == BOf(rows)[r.p := r.b]
  {
    assert (rows + [r])[..|rows|] == rows;
  }

  /** The maps agree with the restrictions of the kept rows at every key up to maxGcd (the source's m). */
  ghost predicate Stored(out: seq<Row>, aOf: map<int, int>, bOf: map<int, int>, maxGcd: int)
  {
    forall s :: s <= maxGcd ==>
      Restrictions.Get(aOf, s) == Restrictions.Get(AOf(out), s) && Restrictions.Get(bOf, s) == Restrictions.Get(BOf(out), s)
  }

  /** A row is kept after the rows kept before it: its gcd is 1, or GcdGood for their restrictions. */
  ghost predicate KeptRow(base: int, target: int, r: Row, kept: seq<Row>)
  {
    r.gcdAB == 1 || GcdGood(base, target, r.gcdAB, AOf(kept), BOf(kept))
  }

  /** Below index t, a prime up to limit is kept exactly when it has a row and that row is kept. */
  ghost predicate Exact(table: seq<int>, recs: seq<seq<Row>>, limit: int, base: int, target: int, t: nat, out: seq<Row>)
    requires |recs| == |table|
  {
    forall m :: 0 <= m < t && m < |table| && table[m] <= limit ==>
      (table[m] in PrimesOf(out) <==> |recs[m]| == 1 && KeptRow(base, target, recs[m][0], out))
  }

  /** A row's gcd divides its period a <= p - 1, so it lies in 1 .. p - 1. */
  lemma RowGcd(base: int, target: int, r: Row)
    requires RowOf(base, target, r)
    ensures 0 <= r.b < r.a && 1 <= r.gcdAB < r.p
  {
    GcdFactors(r.a, r.b);
    DivisorAtMost(r.gcdAB, r.a);
  }

  /** Under Stored, a gcd up to maxGcd gets the same verdict from the maps as from the kept rows. */
  lemma StoredGcdGood(base: int, target: int, g: int, out: seq<Row>, aOf: map<int, int>, bOf: map<int, int>, maxGcd: int)
    requires Stored(out, aOf, bOf, maxGcd) && g <= maxGcd
    ensures GcdGood(base, target, g, aOf, bOf) == GcdGood(base, target, g, AOf(out), BOf(out))
  {
    GcdGoodFrame(base, target, g, aOf, bOf, AOf(out), BOf(out));
  }

  /** Storing the restriction of a prime above g leaves the verdict on g as it was. */
  lemma GcdGoodPut(base: int, target: int, g: int, p: int, a: int, b: int, aOf: map<int, int>, bOf: map<int, int>)
    requires g < p
    ensures GcdGood(base, target, g, aOf[p := a], bOf[p := b]) == GcdGood(base, target, g, aOf, bOf)
  {
    GcdGoodFrame(base, target, g, aOf[p := a], bOf[p := b], aOf, bOf);
  }

  /**
   * The shard of index t in the round-robin: its next row is that index's row
   * exactly when the prime matches; otherwise the index has no row below limit
   * and the shard moves on unchanged.
   */
  lemma ShardVisit(table: seq<int>, recs: seq<seq<Row>>, limit: int, n: nat, t: nat, rs: seq<Row>, q: int)
    requires PrimeTable(table) && RecordsOk(table, recs) && n >= 1 && t < |table|
    requires 0 <= q <= |rs| && rs[q..] == Shard(table, recs, limit, n, t)
    ensures q < |rs| && rs[q].p == table[t] ==>
              table[t] <= limit && |recs[t]| == 1 && rs[q] == recs[t][0] && rs[q + 1..] == Shard(table, recs, limit, n, t + n)
    ensures !(q < |rs| && rs[q].p == table[t]) ==>
              rs[q..] == Shard(table, recs, limit, n, t + n) && !(table[t] <= limit && |recs[t]| == 1)
  {
    if table[t] <= limit {
      ShardUnfold(table, recs, limit, n, t);
      ShardRows(table, recs, limit, n, t + n);
      var rest := Shard(table, recs, limit, n, t + n);
      if |rest| > 0 {
        assert t + n < |table| && table[t + n] <= rest[0].p;
        assert table[t] < table[t + n];
      }
      if |recs[t]| == 1 {
        assert rs[q..][0] == rs[q];
        assert rs[q + 1..] == rs[q..][1..];
      }
    } else {
      ShardBeyond(table, recs, limit, n, t, t + n);
    }
  }

  /** Good gcds stay good as more primes are kept. */
  lemma GoodGcdGrows(base: int, target: int, g: int, kept: seq<int>, kept': seq<int>)
    requires GoodGcd(base, target, g, kept) && forall x :: x in kept ==> x in kept'
    ensures GoodGcd(base, target, g, kept')
  {
  }

  /** Every row has gcd 1 or a gcd that is good for the kept primes. */
  ghost predicate GoodRows(base: int, target: int, out: seq<Row>)
  {
    forall k :: 0 <= k < |out| ==> out[k].gcdAB == 1 || GoodGcd(base, target, out[k].gcdAB, PrimesOf(out))
  }

  lemma GoodRowsGrow(base: int, target: int, out: seq<Row>, row: Row)
    requires GoodRows(base, target, out)
    requires row.gcdAB == 1 || GoodGcd(base, target, row.gcdAB, PrimesOf(out))
    ensures GoodRows(base, target, out + [row])
  {
    var out' := out + [row];
    PrimesOfSnoc(out, row);
    forall k | 0 <= k < |out'| && out'[k].gcdAB != 1
      ensures GoodGcd(base, target, out'[k].gcdAB, PrimesOf(out'))
    {
      GoodGcdGrows(base, target, out'[k].gcdAB, PrimesOf(out), PrimesOf(out'));
    }
  }

  /** Keeping the row of index t extends the output of indices below t to the output below t + 1. */
  lemma EmitStep(table: seq<int>, recs: seq<seq<Row>>, limit: int, base: int, target: int, t: nat, out: seq<Row>, row: Row)
    requires PrimeTable(table) && RecordsOk(table, recs) && t < |table|
    requires Emitted(table, recs, limit, base, target, t, out)
    requires |recs[t]| == 1 && row == recs[t][0] && table[t] <= limit
    requires row.gcdAB == 1 || GoodGcd(base, target, row.gcdAB, PrimesOf(out))
    ensures Emitted(table, recs, limit, base, target, t + 1, out + [row])
  {
    var out' := out + [row];
    GoodRowsGrow(base, target, out, row);
    forall k | 0 <= k < |out'|
      ensures Recorded(recs, out'[k]) && out'[k].p <= limit
    {
      if k == |out| {
        assert out'[k] == recs[t][0];
      }
    }
    if t + 1 < |table| {
      assert table[t] < table[t + 1];
    }
  }

  /** Skipping index t keeps the output as it is. */
  lemma SkipStep(table: seq<int>, recs: seq<seq<Row>>, limit: int, base: int, target: int, t: nat, out: seq<Row>)
    requires PrimeTable(table) && t < |table|
    requires Emitted(table, recs, limit, base, target, t, out)
    ensures Emitted(table, recs, limit, base, target, t + 1, out)
  {
    if t + 1 < |table| {
      assert table[t] < table[t + 1];
    }
  }

  /**
   * Appending a kept row keeps the memo valid, with or without storing its
   * restriction: the remembered gcds lie below its prime, so storing it
   * changes none of their verdicts.
   */
  lemma MemoStep(base: int, target: int, out: seq<Row>, row: Row, aOf: map<int, int>, bOf: map<int, int>,
                 goodGcd: set<int>, badGcd: set<int>, put: bool)
    requires Memo(base, target, out, aOf, bOf, goodGcd, badGcd)
    requires (forall g :: g in goodGcd ==> g < row.p) && (forall g :: g in badGcd ==> g < row.p)
    requires IsPrime(row.p) && 0 <= row.b < row.a
    ensures Memo(base, target, out + [row], if put then aOf[row.p := row.a] else aOf, if put then bOf[row.p := row.b] else bOf,
                 goodGcd, badGcd)
  {
    PrimesOfSnoc(out, row);
    forall g | g in goodGcd
      ensures GoodGcd(base, target, g, PrimesOf(out + [row]))
    {
      GoodGcdGrows(base, target, g, PrimesOf(out), PrimesOf(out + [row]));
    }
    if put {
      forall g | g in goodGcd || g in badGcd
        ensures GcdGood(base, target, g, aOf[row.p := row.a], bOf[row.p := row.b]) == GcdGood(base, target, g, aOf, bOf)
      {
        GcdGoodPut(base, target, g, row.p, row.a, row.b, aOf, bOf);
      }
    }
  }

  /** The maps follow the kept rows: a row's restriction is stored exactly when its prime is at most maxGcd. */
  lemma StoredStep(out: seq<Row>, row: Row, aOf: map<int, int>, bOf: map<int, int>, maxGcd: int, put: bool)
    requires Stored(out, aOf, bOf, maxGcd) && put == (row.p <= maxGcd)
    ensures Stored(out + [row], if put then aOf[row.p := row.a] else aOf, if put then bOf[row.p := row.b] else bOf, maxGcd)
  {
    MapsSnoc(out, row);
    var aOf', bOf' := if put then aOf[row.p := row.a] else aOf, if put then bOf[row.p := row.b] else bOf;
    forall s | s <= maxGcd
      ensures Restrictions.Get(aOf', s) == Restrictions.Get(AOf(out + [row]), s)
      ensures Restrictions.Get(bOf', s) == Restrictions.Get(BOf(out + [row]), s)
    {
      if s != row.p {
        assert Restrictions.Get(aOf', s) == Restrictions.Get(aOf, s);
        assert Restrictions.Get(bOf', s) == Restrictions.Get(bOf, s);
      }
    }
  }

  /**
   * Keeping the row of index t: the verdicts below t stand (their gcds lie
   * below their primes, hence below the new prime), and index t is kept.
   */
  lemma ExactKeep(table: seq<int>, base: int, target: int, limit: int, t: nat, out: seq<Row>, row: Row)
    requires PrimeTable(table) && t < |table| && table[t] <= limit
    requires |Records(table, base, target)[t]| == 1 && row == Records(table, base, target)[t][0]
    requires Exact(table, Records(table, base, target), limit, base, target, t, out)
    requires forall k :: 0 <= k < |out| ==> out[k].p < table[t]
    requires KeptRow(base, target, row, out)
    ensures Exact(table, Records(table, base, target), limit, base, target, t + 1, out + [row])
  {
    var recs := Records(table, base, target);
    var out' := out + [row];
    PrimesOfSnoc(out, row);
    MapsSnoc(out, row);
    RecordAt(table, base, target, t);
    RowGcd(base, target, row);
    GcdGoodPut(base, target, row.gcdAB, row.p, row.a, row.b, AOf(out), BOf(out));
    forall m | 0 <= m < t && table[m] <= limit
      ensures table[m] in PrimesOf(out') <==> |recs[m]| == 1 && KeptRow(base, target, recs[m][0], out')
    {
      assert table[m] < table[t];
      if |recs[m]| == 1 {
        RecordAt(table, base, target, m);
        RowGcd(base, target, recs[m][0]);
        GcdGoodPut(base, target, recs[m][0].gcdAB, row.p, row.a, row.b, AOf(out), BOf(out));
      }
    }
  }

  /** Dropping index t: its prime is not among the kept ones, and the verdicts below t stand. */
  lemma ExactDrop(table: seq<int>, recs: seq<seq<Row>>, limit: int, base: int, target: int, t: nat, out: seq<Row>)
    requires PrimeTable(table) && |recs| == |table| && t < |table|
    requires Exact(table, recs, limit, base, target, t, out)
    requires forall k :: 0 <= k < |out| ==> out[k].p < table[t]
    requires !(table[t] <= limit && |recs[t]| == 1 && KeptRow(base, target, recs[t][0], out))
    ensures Exact(table, recs, limit, base, target, t + 1, out)
  {
    PrimesOfMember(out, table[t]);
  }

  /** Moving shard j's cursor to its row beyond index i + j. */
  lemma CursorStep(table: seq<int>, recs: seq<seq<Row>>, limit: int, results: seq<seq<Row>>, ps: seq<int>, i: nat, j: nat, j': nat, v: int)
    requires |recs| == |table| && Cursors(table, recs, limit, results, ps, i, j) && j < |results| && j' == j + 1
    requires 0 <= v <= |results[j]| && results[j][v..] == Shard(table, recs, limit, |results|, i + |results| + j)
    ensures Cursors(table, recs, limit, results, ps[j := v], i, j')
  {
  }

  /**
   * The memoised gcd decision: gcd 1 is good, a remembered gcd keeps its
   * verdict (the good set is consulted first), and any other gcd is decided
   * by IsGcdGood and remembered. For a gcd up to the table's limit the
   * verdict is GcdGood on the maps whichever way it was reached, so the memo
   * never changes an outcome.
   */
  method Decide(base: int, target: int, g: int, primes: Primes.Primes, aOf: map<int, int>, bOf: map<int, int>,
                goodGcd: set<int>, badGcd: set<int>, ghost out: seq<Row>)
    returns (good: bool, goodGcd': set<int>, badGcd': set<int>)
    requires base > 1 && 1 <= g <= primes.limit && primes.Valid() && Memo(base, target, out, aOf, bOf, goodGcd, badGcd)
    ensures good <==> g == 1 || GcdGood(base, target, g, aOf, bOf)
    ensures good && g != 1 ==> GoodGcd(base, target, g, PrimesOf(out))
    ensures goodGcd' == (if good && g != 1 then goodGcd + {g} else goodGcd)
    ensures badGcd' == (if good then badGcd else badGcd + {g})
    ensures Memo(base, target, out, aOf, bOf, goodGcd', badGcd')
  {
    goodGcd', badGcd' := goodGcd, badGcd;
    if g == 1 {
      good := true;
    } else if g in goodGcd {
      good := true;
      assert goodGcd + {g} == goodGcd;
    } else if g in badGcd {
      good := false;
      assert badGcd + {g} == badGcd;
    } else {
      good := IsGcdGood(base, target, g, primes, aOf, bOf);
      if good {
        goodGcd' := goodGcd + {g};
      } else {
        badGcd' := badGcd + {g};
      }
    }
  }

  /**
   * The merge state before table index t: the output, the memo and the maps
   * (the maps being the kept restrictions up to maxGcd), and below t each
   * prime kept exactly when its row is.
   */
  ghost predicate Merged(table: seq<int>, recs: seq<seq<Row>>, limit: int, base: int, target: int, maxGcd: int, t: nat,
                         out: seq<Row>, aOf: map<int, int>, bOf: map<int, int>, goodGcd: set<int>, badGcd: set<int>)
    requires |recs| == |table|
  {
    Emitted(table, recs, limit, base, target, t, out) && Memo(base, target, out, aOf, bOf, goodGcd, badGcd) &&
    MemoBelow(table, t, goodGcd, badGcd) && Stored(out, aOf, bOf, maxGcd) && Exact(table, recs, limit, base, target, t, out)
  }

  /** Keeping the row of index t (and storing its restriction when its prime is at most maxGcd) advances the merge state. */
  lemma KeepStep(table: seq<int>, recs: seq<seq<Row>>, limit: int, base: int, target: int, maxGcd: int, t: nat, t': nat,
                 out: seq<Row>, row: Row, aOf: map<int, int>, bOf: map<int, int>, goodGcd0: set<int>, badGcd0: set<int>,
                 goodGcd: set<int>, badGcd: set<int>, put: bool)
    requires PrimeTable(table) && recs == Records(table, base, target) && t < |table| && t' == t + 1
    requires Merged(table, recs, limit, base, target, maxGcd, t, out, aOf, bOf, goodGcd0, badGcd0)
    requires Memo(base, target, out, aOf, bOf, goodGcd, badGcd)
    requires goodGcd <= goodGcd0 + {row.gcdAB} && badGcd <= badGcd0 + {row.gcdAB}
    requires |recs[t]| == 1 && row == recs[t][0] && table[t] <= limit && row.gcdAB <= maxGcd && put == (row.p <= maxGcd)
    requires row.gcdAB == 1 || (GoodGcd(base, target, row.gcdAB, PrimesOf(out)) && GcdGood(base, target, row.gcdAB, aOf, bOf))
    ensures Merged(table, recs, limit, base, target, maxGcd, t', out + [row],
                   if put then aOf[row.p := row.a] else aOf, if put then bOf[row.p := row.b] else bOf, goodGcd, badGcd)
  {
    RecordsFacts(table, base, target);
    RecordAt(table, base, target, t);
    RowGcd(base, target, row);
    EmitStep(table, recs, limit, base, target, t, out, row);
    assert MemoBelow(table, t, goodGcd, badGcd);
    KeepMemo(table, base, target, maxGcd, t, t', out, row, aOf, bOf, goodGcd, badGcd, put);
    StoredGcdGood(base, target, row.gcdAB, out, aOf, bOf, maxGcd);
    ExactKeep(table, base, target, limit, t, out, row);
  }

  /** Keeping the row of index t keeps the memo, its bound and the stored maps. */
  lemma KeepMemo(table: seq<int>, base: int, target: int, maxGcd: int, t: nat, t': nat, out: seq<Row>, row: Row,
                 aOf: map<int, int>, bOf: map<int, int>, goodGcd: set<int>, badGcd: set<int>, put: bool)
    requires PrimeTable(table) && t < |table| && t' == t + 1
    requires Memo(base, target, out, aOf, bOf, goodGcd, badGcd) && MemoBelow(table, t, goodGcd, badGcd) && Stored(out, aOf, bOf, maxGcd)
    requires row.p == table[t] && 0 <= row.b < row.a && put == (row.p <= maxGcd)
    ensures Memo(base, target, out + [row], if put then aOf[row.p := row.a] else aOf, if put then bOf[row.p := row.b] else bOf,
                 goodGcd, badGcd)
    ensures MemoBelow(table, t', goodGcd, badGcd)
    ensures Stored(out + [row], if put then aOf[row.p := row.a] else aOf, if put then bOf[row.p := row.b] else bOf, maxGcd)
  {
    MemoStep(base, target, out, row, aOf, bOf, goodGcd, badGcd, put);
    StoredStep(out, row, aOf, bOf, maxGcd, put);
    if t' < |table| {
      assert table[t] < table[t'];
    }
  }

  /** Dropping index t (no row, or a row that is not kept) advances the merge state. */
  lemma DropStep(table: seq<int>, recs: seq<seq<Row>>, limit: int, base: int, target: int, maxGcd: int, t: nat, t': nat,
                 out: seq<Row>, aOf: map<int, int>, bOf: map<int, int>, goodGcd: set<int>, badGcd: set<int>)
    requires PrimeTable(table) && |recs| == |table| && t < |table| && t' == t + 1
    requires Emitted(table, recs, limit, base, target, t, out) && Exact(table, recs, limit, base, target, t, out)
    requires Memo(base, target, out, aOf, bOf, goodGcd, badGcd) && MemoBelow(table, t, goodGcd, badGcd) && Stored(out, aOf, bOf, maxGcd)
    requires !(table[t] <= limit && |recs[t]| == 1 && KeptRow(base, target, recs[t][0], out))
    ensures Merged(table, recs, limit, base, target, maxGcd, t', out, aOf, bOf, goodGcd, badGcd)
  {
    SkipStep(table, recs, limit, base, target, t, out);
    ExactDrop(table, recs, limit, base, target, t, out);
    if t' < |table| {
      assert table[t] < table[t'];
    }
  }

  /** Dropping the row of index t, whose gcd was decided not good, advances the merge state with the grown memo. */
  lemma DropTaken(table: seq<int>, recs: seq<seq<Row>>, limit: int, base: int, target: int, maxGcd: int, t: nat, t': nat,
                  out: seq<Row>, row: Row, aOf: map<int, int>, bOf: map<int, int>, goodGcd0: set<int>, badGcd0: set<int>,
                  goodGcd: set<int>, badGcd: set<int>)
    requires PrimeTable(table) && recs == Records(table, base, target) && t < |table| && t' == t + 1
    requires Merged(table, recs, limit, base, target, maxGcd, t, out, aOf, bOf, goodGcd0, badGcd0)
    requires Memo(base, target, out, aOf, bOf, goodGcd, badGcd)
    requires goodGcd <= goodGcd0 + {row.gcdAB} && badGcd <= badGcd0 + {row.gcdAB}
    requires |recs[t]| == 1 && row == recs[t][0] && row.gcdAB <= maxGcd
    requires !(row.gcdAB == 1 || GcdGood(base, target, row.gcdAB, aOf, bOf))
    ensures Merged(table, recs, limit, base, target, maxGcd, t', out, aOf, bOf, goodGcd, badGcd)
  {
    RecordAt(table, base, target, t);
    RowGcd(base, target, row);
    StoredGcdGood(base, target, row.gcdAB, out, aOf, bOf, maxGcd);
    assert MemoBelow(table, t, goodGcd, badGcd);
    DropStep(table, recs, limit, base, target, maxGcd, t, t', out, aOf, bOf, goodGcd, badGcd);
  }

  /** The row of a table index: its prime is that entry, within the table's limit, and its gcd lies below it. */
  lemma RowInTable(primes: Primes.Primes, base: int, target: int, t: nat, row: Row)
    requires primes.Valid() && PrimeTable(primes.table) && t < |primes.table|
    requires |Records(primes.table, base, target)[t]| == 1 && row == Records(primes.table, base, target)[t][0]
    ensures row.p == primes.table[t] <= primes.limit && 1 <= row.gcdAB < row.p
  {
    RecordAt(primes.table, base, target, t);
    RowGcd(base, target, row);
    assert primes.table[t] in primes.table;
  }

  /**
   * The row of index t is kept or dropped: kept when its gcd is 1 or good
   * (decided through the memo), and then its restriction is stored in the
   * maps when its prime is at most maxGcd.
   */
  method Take(base: int, target: int, primes: Primes.Primes, ghost recs: seq<seq<Row>>, ghost limit: int, t: nat, ghost t': nat, row: Row, maxGcd: int,
              out: seq<Row>, aOf: map<int, int>, bOf: map<int, int>, goodGcd: set<int>, badGcd: set<int>)
    returns (out': seq<Row>, aOf': map<int, int>, bOf': map<int, int>, goodGcd': set<int>, badGcd': set<int>)
    requires base > 1 && primes.Valid() && PrimeTable(primes.table) && recs == Records(primes.table, base, target)
    requires t < |primes.table| && t' == t + 1
    requires |recs[t]| == 1 && row == recs[t][0] && primes.table[t] <= limit && row.gcdAB <= maxGcd
    requires Merged(primes.table, recs, limit, base, target, maxGcd, t, out, aOf, bOf, goodGcd, badGcd)
    ensures Merged(primes.table, recs, limit, base, target, maxGcd, t', out', aOf', bOf', goodGcd', badGcd')
    ensures out' == out || out' == out + [row]
  {
    out', aOf', bOf' := out, aOf, bOf;
    RowInTable(primes, base, target, t, row);
    var g := row.gcdAB;
    var good;
    good, goodGcd', badGcd' := Decide(base, target, g, primes, aOf, bOf, goodGcd, badGcd, out);
    if good {
      KeepStep(primes.table, recs, limit, base, target, maxGcd, t, t', out, row, aOf, bOf, goodGcd, badGcd, goodGcd', badGcd', row.p <= maxGcd);
      // the four output columns receive p, a, b and g: the row itself
      out' := out + [row];
      if row.p <= maxGcd {
        aOf' := aOf[row.p := row.a];
        bOf' := bOf[row.p := row.b];
      }
    } else {
      DropTaken(primes.table, recs, limit, base, target, maxGcd, t, t', out, row, aOf, bOf, goodGcd, badGcd, goodGcd', badGcd');
    }
  }

  /** Every gcd of every shard is at most maxGcd. */
  ghost predicate GcdsAtMost(results: seq<seq<Row>>, maxGcd: int)
  {
    forall j, k :: 0 <= j < |results| && 0 <= k < |results[j]| ==> results[j][k].gcdAB <= maxGcd
  }

  /** One visit of mergeResults' inner loop: table index i + j, read from shard j. */
  method Visit(base: int, target: int, primes: Primes.Primes, results: seq<seq<Row>>, ghost recs: seq<seq<Row>>, ghost limit: int,
               i: nat, j: nat, pos: array<int>, maxGcd: int,
               out: seq<Row>, aOf: map<int, int>, bOf: map<int, int>, goodGcd: set<int>, badGcd: set<int>)
    returns (next: nat, out': seq<Row>, aOf': map<int, int>, bOf': map<int, int>, goodGcd': set<int>, badGcd': set<int>)
    requires base > 1 && primes.Valid() && PrimeTable(primes.table) && recs == Records(primes.table, base, target)
    requires j < |results| && i + j < |primes.table| && pos.Length == |results| && GcdsAtMost(results, maxGcd)
    requires Cursors(primes.table, recs, limit, results, pos[..], i, j)
    requires Merged(primes.table, recs, limit, base, target, maxGcd, i + j, out, aOf, bOf, goodGcd, badGcd)
    modifies pos
    ensures next == j + 1
    ensures Cursors(primes.table, recs, limit, results, pos[..], i, next)
    ensures Merged(primes.table, recs, limit, base, target, maxGcd, i + next, out', aOf', bOf', goodGcd', badGcd')
  {
    next := j + 1;
    var q := pos[j];
    ghost var ps := pos[..];
    var q';
    q', out', aOf', bOf', goodGcd', badGcd' := Advance(base, target, primes, results, recs, limit, i, j, ps, q, maxGcd,
                                                       out, aOf, bOf, goodGcd, badGcd);
    pos[j] := q';
    assert pos[..] == ps[j := q'];
  }

  /**
   * The decision of one visit, on the cursors as values: shard j's next row
   * is taken when it is the row of table index i + j, and its cursor moves
   * past it; otherwise the cursor stays.
   */
  method Advance(base: int, target: int, primes: Primes.Primes, results: seq<seq<Row>>, ghost recs: seq<seq<Row>>, ghost limit: int,
                 i: nat, j: nat, ghost ps: seq<int>, q: int, maxGcd: int,
                 out: seq<Row>, aOf: map<int, int>, bOf: map<int, int>, goodGcd: set<int>, badGcd: set<int>)
    returns (q': int, out': seq<Row>, aOf': map<int, int>, bOf': map<int, int>, goodGcd': set<int>, badGcd': set<int>)
    requires base > 1 && primes.Valid() && PrimeTable(primes.table) && recs == Records(primes.table, base, target)
    requires j < |results| && i + j < |primes.table| && |ps| == |results| && GcdsAtMost(results, maxGcd)
    requires Cursors(primes.table, recs, limit, results, ps, i, j) && q == ps[j]
    requires Merged(primes.table, recs, limit, base, target, maxGcd, i + j, out, aOf, bOf, goodGcd, badGcd)
    ensures q' == q || q' == q + 1
    ensures Cursors(primes.table, recs, limit, results, ps[j := q'], i, j + 1)
    ensures Merged(primes.table, recs, limit, base, target, maxGcd, i + j + 1, out', aOf', bOf', goodGcd', badGcd')
  {
    var t := i + j;
    var p := primes.Get(t);
    if q < |results[j]| && p == results[j][q].p {
      q' := q + 1;
      FoundVisit(primes.table, recs, limit, base, target, maxGcd, results, ps, i, j);
      out', aOf', bOf', goodGcd', badGcd' := Take(base, target, primes, recs, limit, t, t + 1, results[j][q], maxGcd, out, aOf, bOf, goodGcd, badGcd);
    } else {
      q' := q;
      out', aOf', bOf', goodGcd', badGcd' := out, aOf, bOf, goodGcd, badGcd;
      MissedVisit(primes.table, recs, limit, base, target, maxGcd, results, ps, i, j, out, aOf, bOf, goodGcd, badGcd);
    }
  }

  /** Shard j's next row is the row of table index i + j: it is that index's record, and the cursor moves past it. */
  lemma FoundVisit(table: seq<int>, recs: seq<seq<Row>>, limit: int, base: int, target: int, maxGcd: int,
                   results: seq<seq<Row>>, ps: seq<int>, i: nat, j: nat)
    requires PrimeTable(table) && recs == Records(table, base, target)
    requires j < |results| && i + j < |table| && GcdsAtMost(results, maxGcd)
    requires Cursors(table, recs, limit, results, ps, i, j)
    requires ps[j] < |results[j]| && table[i + j] == results[j][ps[j]].p
    ensures |recs[i + j]| == 1 && results[j][ps[j]] == recs[i + j][0] && table[i + j] <= limit
    ensures results[j][ps[j]].gcdAB <= maxGcd
    ensures Cursors(table, recs, limit, results, ps[j := ps[j] + 1], i, j + 1)
  {
    RecordsFacts(table, base, target);
    ShardVisit(table, recs, limit, |results|, i + j, results[j], ps[j]);
    CursorStep(table, recs, limit, results, ps, i, j, j + 1, ps[j] + 1);
  }

  /** Shard j's next row is not the row of table index i + j: the index is dropped and the cursor stays. */
  lemma MissedVisit(table: seq<int>, recs: seq<seq<Row>>, limit: int, base: int, target: int, maxGcd: int,
                    results: seq<seq<Row>>, ps: seq<int>, i: nat, j: nat,
                    out: seq<Row>, aOf: map<int, int>, bOf: map<int, int>, goodGcd: set<int>, badGcd: set<int>)
    requires PrimeTable(table) && recs == Records(table, base, target)
    requires j < |results| && i + j < |table|
    requires Cursors(table, recs, limit, results, ps, i, j)
    requires !(ps[j] < |results[j]| && table[i + j] == results[j][ps[j]].p)
    requires Merged(table, recs, limit, base, target, maxGcd, i + j, out, aOf, bOf, goodGcd, badGcd)
    ensures Cursors(table, recs, limit, results, ps[j := ps[j]], i, j + 1)
    ensures Merged(table, recs, limit, base, target, maxGcd, i + j + 1, out, aOf, bOf, goodGcd, badGcd)
  {
    RecordsFacts(table, base, target);
    ShardVisit(table, recs, limit, |results|, i + j, results[j], ps[j]);
    DropStep(table, recs, limit, base, target, maxGcd, i + j, i + j + 1, out, aOf, bOf, goodGcd, badGcd);
    CursorStep(table, recs, limit, results, ps, i, j, j + 1, ps[j]);
  }

  /** A round of the outer loop ends when every shard was visited or the table ran out. */
  lemma RoundEnd(table: seq<int>, recs: seq<seq<Row>>, limit: int, base: int, target: int, maxGcd: int, results: seq<seq<Row>>, ps: seq<int>,
                 i: nat, j: nat, i': nat, out: seq<Row>, aOf: map<int, int>, bOf: map<int, int>, goodGcd: set<int>, badGcd: set<int>)
    requires PrimeTable(table) && |recs| == |table| && j <= |results| && i' == i + |results|
    requires Cursors(table, recs, limit, results, ps, i, j)
    requires Merged(table, recs, limit, base, target, maxGcd, i + j, out, aOf, bOf, goodGcd, badGcd)
    requires j == |results| || i + j >= |table|
    ensures Cursors(table, recs, limit, results, ps, i', 0)
    ensures Merged(table, recs, limit, base, target, maxGcd, i', out, aOf, bOf, goodGcd, badGcd)
  {
    forall k | i + j <= k < i + |results|
      ensures Shard(table, recs, limit, |results|, k) == Shard(table, recs, limit, |results|, k + |results|)
    {
      ShardBeyond(table, recs, limit, |results|, k, k);
      ShardBeyond(table, recs, limit, |results|, k, k + |results|);
    }
  }

  /** The shards as returned: each starts at its own shift. */
  lemma CursorsStart(table: seq<int>, recs: seq<seq<Row>>, limit: int, results: seq<seq<Row>>, ps: seq<int>)
    requires |recs| == |table| && |results| >= 1 && |ps| == |results| && forall j :: 0 <= j < |ps| ==> ps[j] == 0
    requires forall j :: 0 <= j < |results| ==> results[j] == Shard(table, recs, limit, |results|, j)
    ensures Cursors(table, recs, limit, results, ps, 0, 0)
  {
    forall j | 0 <= j < |results|
      ensures results[j][ps[j]..] == Shard(table, recs, limit, |results|, j)
    {
      assert results[j][0..] == results[j];
    }
  }

  /** p has a restriction x == b (mod a) with gcd(a, b) == 1. */
  ghost predicate CoprimeRestriction(base: int, p: int, target: int)
    requires IsPrime(p)
  {
    var r := Restrictions.Restriction(base, p, target);
    r.Some? && Gcd(r.value.0, r.value.1) == 1
  }

  /**
   * mergeResults keeps p among the rows kept: p has a restriction x == b
   * (mod a), and gcd(a, b) is 1 or GcdGood for the restrictions of the kept
   * rows.
   */
  ghost predicate Keeps(base: int, target: int, p: int, kept: seq<Row>)
    requires IsPrime(p)
  {
    var r := Restrictions.Restriction(base, p, target);
    r.Some? && (Gcd(r.value.0, r.value.1) == 1 || GcdGood(base, target, Gcd(r.value.0, r.value.1), AOf(kept), BOf(kept)))
  }

  /** What the merge state says once the whole table was visited. */
  lemma MergedFinal(table: seq<int>, base: int, target: int, limit: int, maxGcd: int, t: nat,
                    out: seq<Row>, aOf: map<int, int>, bOf: map<int, int>, goodGcd: set<int>, badGcd: set<int>)
    requires PrimeTable(table) && t >= |table|
    requires Merged(table, Records(table, base, target), limit, base, target, maxGcd, t, out, aOf, bOf, goodGcd, badGcd)
    ensures forall k :: 0 <= k < |out| ==> RowOf(base, target, out[k]) && out[k].p <= limit
    ensures forall m :: 0 <= m < |table| && table[m] <= limit ==> (table[m] in PrimesOf(out) <==> Keeps(base, target, table[m], out))
    ensures forall m :: 0 <= m < |table| && table[m] <= limit && CoprimeRestriction(base, table[m], target) ==>
              table[m] in PrimesOf(out)
  {
    var recs := Records(table, base, target);
    forall k | 0 <= k < |out|
      ensures RowOf(base, target, out[k])
    {
      RecordedRow(table, base, target, out[k]);
    }
    forall m | 0 <= m < |table| && table[m] <= limit
      ensures table[m] in PrimesOf(out) <==> Keeps(base, target, table[m], out)
    {
      RecordAt(table, base, target, m);
    }
  }

  /** Before the first index nothing is kept, remembered or stored. */
  lemma MergedStart(table: seq<int>, recs: seq<seq<Row>>, limit: int, base: int, target: int, maxGcd: int)
    requires |recs| == |table|
    ensures Merged(table, recs, limit, base, target, maxGcd, 0, [], map[], map[], {}, {})
  {
    assert AOf([]) == map[] && BOf([]) == map[];
  }

  /** One round of mergeResults' outer loop: table indices i .. i + n - 1, index i + j read from shard j. */
  method Round(base: int, target: int, primes: Primes.Primes, results: seq<seq<Row>>, ghost recs: seq<seq<Row>>, ghost limit: int,
               i: nat, pos: array<int>, maxGcd: int,
               out: seq<Row>, aOf: map<int, int>, bOf: map<int, int>, goodGcd: set<int>, badGcd: set<int>)
    returns (next: nat, out': seq<Row>, aOf': map<int, int>, bOf': map<int, int>, goodGcd': set<int>, badGcd': set<int>)
    requires base > 1 && primes.Valid() && PrimeTable(primes.table) && recs == Records(primes.table, base, target)
    requires pos.Length == |results| && GcdsAtMost(results, maxGcd) && Cursors(primes.table, recs, limit, results, pos[..], i, 0)
    requires Merged(primes.table, recs, limit, base, target, maxGcd, i, out, aOf, bOf, goodGcd, badGcd)
    modifies pos
    ensures next == i + |results|
    ensures Cursors(primes.table, recs, limit, results, pos[..], next, 0)
    ensures Merged(primes.table, recs, limit, base, target, maxGcd, next, out', aOf', bOf', goodGcd', badGcd')
  {
    next := i + |results|;
    out', aOf', bOf', goodGcd', badGcd' := out, aOf, bOf, goodGcd, badGcd;
    var j: nat := 0;
    while j < |results| && i + j < primes.Size()
      invariant j <= |results|
      invariant Cursors(primes.table, recs, limit, results, pos[..], i, j)
      invariant Merged(primes.table, recs, limit, base, target, maxGcd, i + j, out', aOf', bOf', goodGcd', badGcd')
    {
      j, out', aOf', bOf', goodGcd', badGcd' := Visit(base, target, primes, results, recs, limit, i, j, pos, maxGcd,
                                                      out', aOf', bOf', goodGcd', badGcd');
    }
    RoundEnd(primes.table, recs, limit, base, target, maxGcd, results, pos[..], i, j, next, out', aOf', bOf', goodGcd', badGcd');
  }

  /**
   * mergeResults: walk the table round-robin over the shards (index i + j is
   * read from shard j), keep a row when its gcd is 1 or good, remember good
   * and bad gcds, and store the restrictions of kept primes up to the largest
   * gcd for isGcdGood. The result lists recorded rows in increasing prime
   * order, each with gcd 1 or a good gcd, and a table prime up to limit is
   * in it exactly when it has a restriction whose gcd is 1 or GcdGood for
   * the restrictions of the result.
   */
  method MergeResults(results: seq<seq<Row>>, base: int, target: int, primes: Primes.Primes, ghost limit: int)
    returns (merged: seq<Row>)
    requires base > 1 && primes.Valid() && PrimeTable(primes.table) && |results| >= 1
    requires forall j :: 0 <= j < |results| ==>
               results[j] == Shard(primes.table, Records(primes.table, base, target), limit, |results|, j)
    ensures forall k :: 0 <= k < |merged| ==> RowOf(base, target, merged[k]) && merged[k].p <= limit
    ensures forall k, l :: 0 <= k < l < |merged| ==> merged[k].p < merged[l].p
    ensures forall k :: 0 <= k < |merged| ==> merged[k].gcdAB == 1 || GoodGcd(base, target, merged[k].gcdAB, PrimesOf(merged))
    ensures forall m :: 0 <= m < |primes.table| && primes.table[m] <= limit ==>
              (primes.table[m] in PrimesOf(merged) <==> Keeps(base, target, primes.table[m], merged))
    ensures forall m :: 0 <= m < |primes.table| && primes.table[m] <= limit && CoprimeRestriction(base, primes.table[m], target) ==>
              primes.table[m] in PrimesOf(merged)
  {
    var n := |results|;
    var maxGcd := MaxGcd(results);
    var pos := new int[n](_ => 0);
    ghost var recs := Records(primes.table, base, target);
    var aOf: map<int, int>, bOf: map<int, int> := map[], map[];
    var goodGcd: set<int>, badGcd: set<int> := {}, {};
    merged := [];
    MergedStart(primes.table, recs, limit, base, target, maxGcd);
    CursorsStart(primes.table, recs, limit, results, pos[..]);
    var i: nat := 0;
    while i < primes.Size()
      invariant Cursors(primes.table, recs, limit, results, pos[..], i, 0)
      invariant Merged(primes.table, recs, limit, base, target, maxGcd, i, merged, aOf, bOf, goodGcd, badGcd)
      decreases |primes.table| - i
    {
      i, merged, aOf, bOf, goodGcd, badGcd := Round(base, target, primes, results, recs, limit, i, pos, maxGcd,
                                                    merged, aOf, bOf, goodGcd, badGcd);
    }
    MergedFinal(primes.table, base, target, limit, maxGcd, i, merged, aOf, bOf, goodGcd, badGcd);
  }

  /**
   * generate(limit, base, target, primes, executor, threadsNumber): one shard
   * per thread (shift i, step threadsNumber), or a single shard without an
   * executor, then merged. The shards are computed one after another here.
   */
  method Generate(limit: int, base: int, target: int, primes: Primes.Primes, executor: bool, threadsNumber: int)
    returns (good: seq<Row>)
    requires base > 1 && primes.Valid() && (executor ==> threadsNumber >= 1)
    ensures PrimeTable(primes.table)
    ensures forall k :: 0 <= k < |good| ==> RowOf(base, target, good[k]) && good[k].p <= limit
    ensures forall k, l :: 0 <= k < l < |good| ==> good[k].p < good[l].p
    ensures forall k :: 0 <= k < |good| ==> good[k].gcdAB == 1 || GoodGcd(base, target, good[k].gcdAB, PrimesOf(good))
    ensures forall m :: 0 <= m < |primes.table| && primes.table[m] <= limit ==>
              (primes.table[m] in PrimesOf(good) <==> Keeps(base, target, primes.table[m], good))
    ensures forall m :: 0 <= m < |primes.table| && primes.table[m] <= limit && CoprimeRestriction(base, primes.table[m], target) ==>
              primes.table[m] in PrimesOf(good)
  {
    ValidTable(primes);
    var n := if executor then threadsNumber else 1;
    var results: seq<seq<Row>> := [];
    for i := 0 to n
      invariant |results| == i
      invariant forall j :: 0 <= j < i ==> results[j] == Shard(primes.table, Records(primes.table, base, target), limit, n, j)
    {
      var rows := GenerateShard(limit, base, target, i, n, primes);
      results := results + [rows];
    }
    good := MergeResults(results, base, target, primes, limit);
  }
}
