/**
 * factorization/Factorization.java: a factorization as an immutable value
 * (its factors, sorted ascending, and the set of the factors that are not
 * known to be prime), and the enumeration of divisors, which walks runs of
 * equal factors and takes every entry whole.
 */
module Factorization {
  import opened Arith
  import opened NumTheory
  import Common
  import Primes
  import Text

  datatype Factorization = Factorization(factors: seq<int>, composites: set<int>)

  predicate Sorted(s: seq<int>)
  {
    forall i, j :: 0 <= i < j < |s| ==> s[i] <= s[j]
  }

  predicate StrictlySorted(s: seq<int>)
  {
    forall i, j :: 0 <= i < j < |s| ==> s[i] < s[j]
  }

  predicate Distinct(s: seq<int>)
  {
    forall i, j :: 0 <= i < j < |s| ==> s[i] != s[j]
  }

  // ------------------------------------------------------------------
  // Sorting, as the streams' sorted() does it
  // ------------------------------------------------------------------

  function Insert(s: seq<int>, x: int): (r: seq<int>)
    requires Sorted(s)
    ensures Sorted(r) && multiset(r) == multiset(s) + multiset{x}
  {
    if s == [] || x <= s[0] then
      [x] + s
    else
      var r' := Insert(s[1..], x);
      InsertBehind(s, x, r');
      [s[0]] + r'
  }

  /** x goes behind the head of s when it is larger. */
  lemma InsertBehind(s: seq<int>, x: int, r': seq<int>)
    requires Sorted(s) && s != [] && s[0] < x
    requires Sorted(r') && multiset(r') == multiset(s[1..]) + multiset{x}
    ensures Sorted([s[0]] + r') && multiset([s[0]] + r') == multiset(s) + multiset{x}
  {
    assert s == [s[0]] + s[1..];
    forall k | 0 <= k < |r'|
      ensures s[0] <= r'[k]
    {
      assert r'[k] in multiset(r');
      if r'[k] != x {
        assert r'[k] in s[1..];
      }
    }
  }

  /** The values of s in ascending order. */
  function Sort(s: seq<int>): (r: seq<int>)
    ensures Sorted(r) && multiset(r) == multiset(s)
  {
    if s == [] then []
    else
      assert s == s[..|s| - 1] + [s[|s| - 1]];
      Insert(Sort(s[..|s| - 1]), s[|s| - 1])
  }

  /** A sequence without repeats has every value at most once in its multiset. */
  lemma {:induction false} DistinctCount(s: seq<int>, v: int)
    requires Distinct(s)
    ensures multiset(s)[v] <= 1
    decreases |s|
  {
    if s != [] {
      assert s == [s[0]] + s[1..];
      DistinctCount(s[1..], v);
      if s[0] == v {
        assert v !in s[1..];
      }
    }
  }

  /** Sorting a sequence without repeats gives a strictly ascending one. */
  lemma SortedDistinct(s: seq<int>, r: seq<int>)
    requires Distinct(s) && Sorted(r) && multiset(r) == multiset(s)
    ensures StrictlySorted(r)
  {
    forall i, j | 0 <= i < j < |r|
      ensures r[i] < r[j]
    {
      if r[i] == r[j] {
        var v := r[i];
        assert r == r[..j] + [v] + r[j + 1..];
        assert r[..j] == r[..i] + [v] + r[i + 1..j];
        assert multiset(r)[v] >= 2;
        DistinctCount(s, v);
      }
    }
  }

  // ------------------------------------------------------------------
  // The value and its constructors
  // ------------------------------------------------------------------

  /** fromSingleFactor(factor, isPrime): one factor, recorded as composite exactly when not known prime. */
  function FromSingleFactor(factor: int, isPrime: bool): (r: Factorization)
    ensures Common.Product(r.factors) == factor && |r.factors| == 1
    ensures r.composites <= {factor} && (factor in r.composites <==> !isPrime)
  {
    Factorization([factor], if isPrime then {} else {factor})
  }

  /** fromPrimeFactors(primeFactors): the factors sorted, none composite. */
  function FromPrimeFactors(primeFactors: seq<int>): (r: Factorization)
    ensures Sorted(r.factors) && multiset(r.factors) == multiset(primeFactors)
    ensures r.composites == {}
    ensures Common.Product(r.factors) == Common.Product(primeFactors)
  {
    var fs := Sort(primeFactors);
    Common.ProductPermutation(fs, primeFactors);
    Factorization(fs, {})
  }

  /** multiply(a, b): the sorted factors of both, and the composites of both. */
  function Multiply(a: Factorization, b: Factorization): (r: Factorization)
    ensures Sorted(r.factors) && multiset(r.factors) == multiset(a.factors) + multiset(b.factors)
    ensures r.composites == a.composites + b.composites
    ensures Common.Product(r.factors) == Common.Product(a.factors) * Common.Product(b.factors)
  {
    var fs := Sort(a.factors + b.factors);
    Common.ProductPermutation(fs, a.factors + b.factors);
    Common.ProductAppend(a.factors, b.factors);
    Factorization(fs, a.composites + b.composites)
  }

  /** compositeCount(): the number of composite factors. */
  function CompositeCount(f: Factorization): nat
  {
    |f.composites|
  }

  /**
   * A factorization from prime factors has no composites, a single factor has
   * one exactly when it is not known prime, and a product has at most the
   * composites of both sides.
   */
  lemma CompositeCounts(fs: seq<int>, factor: int, isPrime: bool, a: Factorization, b: Factorization)
    ensures CompositeCount(FromPrimeFactors(fs)) == 0
    ensures CompositeCount(FromSingleFactor(factor, isPrime)) == if isPrime then 0 else 1
    ensures CompositeCount(Multiply(a, b)) <= CompositeCount(a) + CompositeCount(b)
    ensures CompositeCount(Multiply(a, b)) >= CompositeCount(a)
  {
    var u := a.composites + b.composites;
    assert |u| + |a.composites * b.composites| == |a.composites| + |b.composites|;
    assert a.composites <= u;
    SubsetCard(a.composites, u);
  }

  /** A sorted sequence is fixed by its multiset: two sorted orderings of the same values are equal. */
  lemma {:induction false} SortedUnique(a: seq<int>, b: seq<int>)
    requires Sorted(a) && Sorted(b) && multiset(a) == multiset(b)
    ensures a == b
    decreases |a|
  {
    assert |a| == |multiset(a)| == |b|;
    if |a| > 0 {
      SortedHeads(a, b);
      TailMultiset(a);
      TailMultiset(b);
      SortedUnique(a[1..], b[1..]);
      assert a == [a[0]] + a[1..] && b == [b[0]] + b[1..];
    }
  }

  /** Two sorted orderings of the same non-empty multiset start with its least value. */
  lemma SortedHeads(a: seq<int>, b: seq<int>)
    requires Sorted(a) && Sorted(b) && multiset(a) == multiset(b) && |a| > 0 && |b| > 0
    ensures a[0] == b[0]
  {
    assert a[0] in multiset(b) && b[0] in multiset(a);
    var i :| 0 <= i < |b| && b[i] == a[0];
    var j :| 0 <= j < |a| && a[j] == b[0];
  }

  lemma TailMultiset(a: seq<int>)
    requires |a| > 0
    ensures multiset(a[1..]) == multiset(a) - multiset{a[0]}
    ensures Sorted(a) ==> Sorted(a[1..])
  {
    assert a == [a[0]] + a[1..];
  }

  /** Rebuilding a factorization from its own sorted prime factors gives it back. */
  lemma FromSortedFactors(f: Factorization)
    requires Sorted(f.factors) && f.composites == {}
    ensures FromPrimeFactors(f.factors) == f
  {
    SortedUnique(FromPrimeFactors(f.factors).factors, f.factors);
  }

  /** The decimal form of every factor. */
  function Numerals(fs: seq<int>): (r: seq<string>)
    ensures |r| == |fs| && forall i :: 0 <= i < |fs| ==> r[i] == Text.IntString(fs[i])
  {
    seq(|fs|, i requires 0 <= i < |fs| => Text.IntString(fs[i]))
  }

  /** toString(): "1" when there is no factor, otherwise the factors in order, joined by " * ". */
  function ToString(f: Factorization): string
  {
    if |f.factors| == 0 then "1" else Text.Join(Numerals(f.factors), " * ")
  }

  lemma SubsetCard(a: set<int>, b: set<int>)
    requires a <= b
    ensures |a| <= |b|
  {
    assert b == a + (b - a);
  }

  // ------------------------------------------------------------------
  // forEachDivisor
  // ------------------------------------------------------------------

  /** The end of the run of entries equal to f[pos], scanning from end. */
  function RunEnd(f: seq<int>, pos: nat, end: nat): (r: nat)
    requires pos < end <= |f|
    requires forall k :: pos <= k < end ==> f[k] == f[pos]
    ensures end <= r <= |f|
    ensures forall k :: pos <= k < r ==> f[k] == f[pos]
    ensures r < |f| ==> f[r] != f[pos]
    decreases |f| - end
  {
    if end < |f| && f[pos] == f[end] then RunEnd(f, pos, end + 1) else end
  }

  function Run(f: seq<int>, pos: nat): (r: nat)
    requires pos < |f|
    ensures pos < r <= |f|
  {
    RunEnd(f, pos, pos + 1)
  }

  /**
   * The values the consumer receives from forEachDivisor(f, pos, cur): for the
   * run of e entries equal to f[pos], the divisors of the rest times cur, then
   * times cur * f[pos], ..., times cur * f[pos]^e.
   */
  function Emit(f: seq<int>, pos: nat, cur: int): seq<int>
    requires pos <= |f|
    decreases |f| - pos, 1, 0
  {
    if pos >= |f| then [cur]
    else
      var end := Run(f, pos);
      Emit(f, end, cur) + EmitPowers(f, pos, end, cur, pos)
  }

  /** The iterations i, ..., end - 1 of the loop that multiplies cur by f[pos] once more each time. */
  function EmitPowers(f: seq<int>, pos: nat, end: nat, cur: int, i: nat): seq<int>
    requires pos < end <= |f| && pos <= i <= end
    decreases |f| - pos, 0, end - i
  {
    if i >= end then []
    else Emit(f, end, cur * f[pos]) + EmitPowers(f, pos, end, cur * f[pos], i + 1)
  }

  /**
   * forEachDivisor(f, pos, cur, multiplier, consumer): the consumer is the
   * sequence of values handed to it so far, and the call appends Emit(f, pos, cur).
   */
  method ForEachDivisor(f: seq<int>, pos: nat, cur: int, emitted: seq<int>) returns (out: seq<int>)
    requires pos <= |f|
    ensures out == emitted + Emit(f, pos, cur)
    decreases |f| - pos
  {
    if pos >= |f| {
      return emitted + [cur];
    }
    var end := FindRunEnd(f, pos);
    EmitUnfold(f, pos, cur);
    out := ForEachDivisor(f, end, cur, emitted);
    var c := cur;
    for i := pos to end
      invariant out + EmitPowers(f, pos, end, c, i) == emitted + Emit(f, pos, cur)
    {
      EmitPowersUnfold(f, pos, end, c, i);
      c := c * f[pos];
      out := ForEachDivisor(f, end, c, out);
    }
  }

  /** The loop of forEachDivisor that skips past the entries equal to f[pos]. */
  method FindRunEnd(f: seq<int>, pos: nat) returns (end: nat)
    requires pos < |f|
    ensures end == Run(f, pos)
    ensures pos < end <= |f| && forall k :: pos <= k < end ==> f[k] == f[pos]
    ensures end < |f| ==> f[end] != f[pos]
  {
    end := pos + 1;
    while end < |f| && f[pos] == f[end]
      invariant pos < end <= |f|
      invariant forall k :: pos <= k < end ==> f[k] == f[pos]
      invariant RunEnd(f, pos, end) == Run(f, pos)
      decreases |f| - end
    {
      end := end + 1;
    }
  }

  lemma EmitUnfold(f: seq<int>, pos: nat, cur: int)
    requires pos < |f|
    ensures Emit(f, pos, cur) == Emit(f, Run(f, pos), cur) + EmitPowers(f, pos, Run(f, pos), cur, pos)
  {
  }

  lemma EmitPowersUnfold(f: seq<int>, pos: nat, end: nat, cur: int, i: nat)
    requires pos < end <= |f| && pos <= i < end
    ensures EmitPowers(f, pos, end, cur, i) == Emit(f, end, cur * f[pos]) + EmitPowers(f, pos, end, cur * f[pos], i + 1)
  {
  }

  /** forEachDivisor(consumer) of a factorization: starting from 1 at the first factor. */
  method ForEachDivisorOf(f: Factorization) returns (out: seq<int>)
    ensures out == Emit(f.factors, 0, 1)
    ensures Primes.Factored(f.factors) ==>
              Distinct(out) && forall x :: x in out <==> x >= 1 && Common.Product(f.factors) % x == 0
  {
    out := ForEachDivisor(f.factors, 0, 1, []);
    if Primes.Factored(f.factors) {
      Divisors(f.factors, 0);
      assert f.factors[0..] == f.factors;
    }
  }

  /**
   * generateDivisors(primeFactorsSorted): every value forEachDivisor emits,
   * sorted. For non-decreasing primes these are the divisors of their
   * product, each once, in ascending order.
   */
  method GenerateDivisors(primeFactorsSorted: seq<int>) returns (ds: seq<int>)
    ensures Sorted(ds) && multiset(ds) == multiset(Emit(primeFactorsSorted, 0, 1))
    ensures Primes.Factored(primeFactorsSorted) ==>
              StrictlySorted(ds) &&
              forall x :: x in ds <==> x >= 1 && Common.Product(primeFactorsSorted) % x == 0
  {
    var buf := ForEachDivisor(primeFactorsSorted, 0, 1, []);
    ds := Sort(buf);
    if Primes.Factored(primeFactorsSorted) {
      Divisors(primeFactorsSorted, 0);
      assert primeFactorsSorted[0..] == primeFactorsSorted;
      SortedDistinct(buf, ds);
      forall x
        ensures x in ds <==> x in buf
      {
        assert x in ds <==> x in multiset(ds);
      }
    }
  }

  // ------------------------------------------------------------------
  // How many values are emitted: the product of (run length + 1)
  // ------------------------------------------------------------------

  function DivisorCount(f: seq<int>, pos: nat): nat
    requires pos <= |f|
    decreases |f| - pos
  {
    if pos >= |f| then 1 else (Run(f, pos) - pos + 1) * DivisorCount(f, Run(f, pos))
  }

  /** The consumer is called once per choice of exponent 0..e for each run of e equal entries. */
  lemma {:induction false} EmitLength(f: seq<int>, pos: nat, cur: int)
    requires pos <= |f|
    ensures |Emit(f, pos, cur)| == DivisorCount(f, pos)
    decreases |f| - pos, 1, 0
  {
    if pos < |f| {
      var end := Run(f, pos);
      var rest := DivisorCount(f, end);
      EmitUnfold(f, pos, cur);
      assert DivisorCount(f, pos) == (end - pos + 1) * rest;
      EmitLength(f, end, cur);
      EmitPowersLength(f, pos, end, cur, pos);
      MulSucc(end - pos, rest);
    }
  }

  lemma {:induction false} EmitPowersLength(f: seq<int>, pos: nat, end: nat, cur: int, i: nat)
    requires pos < end <= |f| && pos <= i <= end
    ensures |EmitPowers(f, pos, end, cur, i)| == (end - i) * DivisorCount(f, end)
    decreases |f| - pos, 0, end - i
  {
    if i < end {
      EmitPowersUnfold(f, pos, end, cur, i);
      EmitLength(f, end, cur * f[pos]);
      EmitPowersLength(f, pos, end, cur * f[pos], i + 1);
      MulSucc(end - (i + 1), DivisorCount(f, end));
    }
  }

  lemma MulSucc(a: int, x: int)
    ensures (a + 1) * x == x + a * x
  {
  }

  // ------------------------------------------------------------------
  // Starting from cur scales the values started from 1
  // ------------------------------------------------------------------

  function Scale(s: seq<int>, c: int): (r: seq<int>)
    ensures |r| == |s| && forall k :: 0 <= k < |s| ==> r[k] == c * s[k]
  {
    seq(|s|, k requires 0 <= k < |s| => c * s[k])
  }

  lemma {:induction false} EmitScale(f: seq<int>, pos: nat, c: int, d: int)
    requires pos <= |f|
    ensures Emit(f, pos, c * d) == Scale(Emit(f, pos, d), c)
    decreases |f| - pos, 1, 0
  {
    if pos < |f| {
      var end := Run(f, pos);
      EmitScale(f, end, c, d);
      EmitPowersScale(f, pos, end, c, d, pos);
      assert Scale(Emit(f, end, d) + EmitPowers(f, pos, end, d, pos), c)
          == Scale(Emit(f, end, d), c) + Scale(EmitPowers(f, pos, end, d, pos), c);
    }
  }

  lemma {:induction false} EmitPowersScale(f: seq<int>, pos: nat, end: nat, c: int, d: int, i: nat)
    requires pos < end <= |f| && pos <= i <= end
    ensures EmitPowers(f, pos, end, c * d, i) == Scale(EmitPowers(f, pos, end, d, i), c)
    decreases |f| - pos, 0, end - i
  {
    if i < end {
      var q := f[pos];
      assert (c * d) * q == c * (d * q);
      EmitScale(f, end, c, d * q);
      EmitPowersScale(f, pos, end, c, d * q, i + 1);
      assert Scale(Emit(f, end, d * q) + EmitPowers(f, pos, end, d * q, i + 1), c)
          == Scale(Emit(f, end, d * q), c) + Scale(EmitPowers(f, pos, end, d * q, i + 1), c);
    }
  }

  // ------------------------------------------------------------------
  // Over non-decreasing primes the values are exactly the divisors
  // ------------------------------------------------------------------

  /** s lists the divisors of n, each once. */
  ghost predicate DivisorList(s: seq<int>, n: int)
  {
    Distinct(s) && forall x :: x in s <==> x >= 1 && n % x == 0
  }

  /** s lists, each once, the divisors x of n with exactly k factors q. */
  ghost predicate ExactBlock(s: seq<int>, n: int, q: int, k: int)
    requires q >= 2
  {
    Distinct(s) && forall x :: x in s <==> x >= 1 && n % x == 0 && Val(q, x) == k
  }

  /** s lists, each once, the divisors x of n with more than j factors q. */
  ghost predicate HighBlock(s: seq<int>, n: int, q: int, j: int)
    requires q >= 2
  {
    Distinct(s) && forall x :: x in s <==> x >= 1 && n % x == 0 && Val(q, x) > j
  }

  lemma {:induction false} ProductConst(s: seq<int>, q: int)
    requires forall k :: 0 <= k < |s| ==> s[k] == q
    ensures Common.Product(s) == Power(q, |s|)
    decreases |s|
  {
    if s != [] {
      ProductConst(s[1..], q);
    }
  }

  /** The product from pos on is the run's power times the product past the run. */
  lemma ProductRun(f: seq<int>, pos: nat)
    requires pos < |f|
    ensures Common.Product(f[pos..]) == Power(f[pos], Run(f, pos) - pos) * Common.Product(f[Run(f, pos)..])
  {
    var end := Run(f, pos);
    assert f[pos..] == f[pos..end] + f[end..];
    Common.ProductAppend(f[pos..end], f[end..]);
    ProductConst(f[pos..end], f[pos]);
  }

  /** A product of primes other than q is positive and has no factor q. */
  lemma {:induction false} ValProductAvoid(s: seq<int>, q: int)
    requires IsPrime(q)
    requires forall k :: 0 <= k < |s| ==> IsPrime(s[k]) && s[k] != q
    ensures Common.Product(s) >= 1 && Val(q, Common.Product(s)) == 0
    decreases |s|
  {
    if s == [] {
      ValOne(q);
    } else {
      ValProductAvoid(s[1..], q);
      ValMul(q, s[0], Common.Product(s[1..]));
      ValPrime(q, s[0]);
    }
  }

  /** The valuation of a prime power. */
  lemma {:induction false} ValPowerOf(s: int, q: int, k: nat)
    requires IsPrime(s) && IsPrime(q)
    ensures Power(q, k) >= 1 && Val(s, Power(q, k)) == if s == q then k else 0
    decreases k
  {
    if k == 0 {
      ValOne(s);
    } else {
      ValPowerOf(s, q, k - 1);
      ValMul(s, q, Power(q, k - 1));
      ValPrime(s, q);
    }
  }

  /** A divisor has no larger valuation than its multiple. */
  lemma ValDivides(s: int, x: int, y: int)
    requires IsPrime(s) && x >= 1 && y >= 1 && y % x == 0
    ensures Val(s, x) <= Val(s, y)
  {
    ValDiv(s, y, x);
  }

  /**
   * With n = q^e * M and M free of q, the divisors of M are the divisors of
   * n that q does not divide.
   */
  lemma SplitDivisor(q: int, e: nat, M: int, x: int)
    requires IsPrime(q) && M >= 1 && Val(q, M) == 0 && x >= 1
    ensures Power(q, e) * M >= 1
    ensures M % x == 0 <==> (Power(q, e) * M) % x == 0 && Val(q, x) == 0
  {
    ValPowerOf(q, q, e);
    var n := Power(q, e) * M;
    MulAtLeast(M, Power(q, e));
    if M % x == 0 {
      DividesMul(x, M, Power(q, e));
      assert M * Power(q, e) == n;
      ValDivides(q, x, M);
    }
    if n % x == 0 && Val(q, x) == 0 {
      forall s | IsPrime(s)
        ensures Val(s, x) <= Val(s, M)
      {
        ValDivides(s, x, n);
        ValMul(s, Power(q, e), M);
        ValPowerOf(s, q, e);
      }
      DividesByVal(x, M);
    }
  }

  /** No divisor of q^e * M (M free of q) has more than e factors q. */
  lemma ValBound(q: int, e: nat, M: int, x: int)
    requires IsPrime(q) && M >= 1 && Val(q, M) == 0 && x >= 1
    requires Power(q, e) >= 1 && (Power(q, e) * M) % x == 0
    ensures Val(q, x) <= e
  {
    MulAtLeast(M, Power(q, e));
    ValDivides(q, x, Power(q, e) * M);
    ValMul(q, Power(q, e), M);
    ValPowerOf(q, q, e);
  }

  /** Each divisor of M scaled by q^k divides q^e * M and holds q exactly k times. */
  lemma ScaledMember(M: int, q: int, e: nat, k: nat, d: int)
    requires IsPrime(q) && M >= 1 && Val(q, M) == 0 && 1 <= k <= e
    requires d >= 1 && M % d == 0
    ensures Power(q, k) * d >= 1 && Power(q, e) * M >= 1
    ensures (Power(q, e) * M) % (Power(q, k) * d) == 0 && Val(q, Power(q, k) * d) == k
  {
    var c, r := Power(q, k), Power(q, e - k);
    ValPowerOf(q, q, k);
    ValPowerOf(q, q, e - k);
    PowerAdd(q, k, e - k);
    assert Power(q, e) == c * r;
    MulAtLeast(M, Power(q, e));
    MulAtLeast(d, c);
    SplitDivisor(q, 0, M, d);
    DivOfMultiple(M, d);
    var m := M / d;
    assert Power(q, e) * M == (c * r) * (d * m);
    MulRearrange(c, r, d, m);
    ModMultiple(c * d, r * m);
    ValMul(q, c, d);
  }

  /** A divisor of q^e * M holding q exactly k times is q^k times a divisor of M. */
  lemma ScaledReach(M: int, q: int, e: nat, k: nat, x: int) returns (d: int)
    requires IsPrime(q) && M >= 1 && Val(q, M) == 0
    requires x >= 1 && Power(q, e) >= 1 && (Power(q, e) * M) % x == 0 && Val(q, x) == k
    ensures d >= 1 && M % d == 0 && x == Power(q, k) * d
  {
    d := StripPower(q, k, x);
    MulAtLeast(M, Power(q, e));
    FactorDivides(Power(q, k), d, Power(q, e) * M);
    SplitDivisor(q, e, M, d);
  }

  /** Dividing out q^k from a number holding q exactly k times leaves a number free of q. */
  lemma StripPower(q: int, k: nat, x: int) returns (d: int)
    requires IsPrime(q) && x >= 1 && Val(q, x) == k
    ensures d >= 1 && x == Power(q, k) * d && Val(q, d) == 0
  {
    ValPowerOf(q, q, k);
    ValPowerDivides(q, k, x);
    DivOfMultiple(x, Power(q, k));
    d := x / Power(q, k);
    ValDiv(q, x, Power(q, k));
  }

  /** A factor of a divisor is a divisor. */
  lemma FactorDivides(c: int, d: int, n: int)
    requires c >= 1 && d >= 1 && n >= 1 && n % (c * d) == 0
    ensures n % d == 0
  {
    MulAtLeast(d, c);
    assert c * d == d * c;
    ModMultiple(d, c);
    DividesTrans(d, c * d, n);
  }

  /** The divisors of M scaled by q^k are the divisors of q^e * M with exactly k factors q. */
  lemma ScaledBlock(D: seq<int>, M: int, q: int, e: nat, k: nat)
    requires IsPrime(q) && M >= 1 && Val(q, M) == 0 && 1 <= k <= e
    requires DivisorList(D, M)
    ensures Power(q, e) * M >= 1
    ensures ExactBlock(Scale(D, Power(q, k)), Power(q, e) * M, q, k)
  {
    var c := Power(q, k);
    var n := Power(q, e) * M;
    var S := Scale(D, c);
    ValPowerOf(q, q, k);
    ValPowerOf(q, q, e);
    MulAtLeast(M, Power(q, e));
    forall x | x in S
      ensures x >= 1 && n % x == 0 && Val(q, x) == k
    {
      var i :| 0 <= i < |S| && S[i] == x;
      assert D[i] in D;
      ScaledMember(M, q, e, k, D[i]);
    }
    forall x | x >= 1 && n % x == 0 && Val(q, x) == k
      ensures x in S
    {
      var d := ScaledReach(M, q, e, k, x);
      assert d in D;
      var i :| 0 <= i < |D| && D[i] == d;
      assert S[i] == x;
    }
    forall i, j | 0 <= i < j < |S|
      ensures S[i] != S[j]
    {
      MulCancel(c, D[i], D[j]);
    }
  }

  lemma MulRearrange(a: int, b: int, c: int, d: int)
    ensures (a * b) * (c * d) == (a * c) * (b * d)
  {
  }

  lemma MulCancel(c: int, a: int, b: int)
    requires c >= 1 && a != b
    ensures c * a != c * b
  {
    if a < b {
      assert c * b - c * a == c * (b - a);
      MulAtLeast(b - a, c);
    } else {
      assert c * a - c * b == c * (a - b);
      MulAtLeast(a - b, c);
    }
  }

  lemma DistinctAppend(a: seq<int>, b: seq<int>)
    requires Distinct(a) && Distinct(b) && forall x :: x in a ==> x !in b
    ensures Distinct(a + b)
  {
    forall i, j | 0 <= i < j < |a + b|
      ensures (a + b)[i] != (a + b)[j]
    {
      if i < |a| <= j {
        assert a[i] in a && b[j - |a|] in b;
      }
    }
  }

  /**
   * The loop iterations from pos + j on emit, each once, the divisors of the
   * product from pos on that hold the run's prime more than j times.
   */
  lemma {:induction false} Blocks(f: seq<int>, pos: nat, j: nat)
    requires pos < |f| && pos + j <= Run(f, pos) && IsPrime(f[pos])
    requires Common.Product(f[Run(f, pos)..]) >= 1 && Val(f[pos], Common.Product(f[Run(f, pos)..])) == 0
    requires DivisorList(Emit(f, Run(f, pos), 1), Common.Product(f[Run(f, pos)..]))
    ensures HighBlock(EmitPowers(f, pos, Run(f, pos), Power(f[pos], j), pos + j), Common.Product(f[pos..]), f[pos], j)
    decreases Run(f, pos) - pos - j
  {
    if pos + j == Run(f, pos) {
      LastBlock(f, pos, j);
    } else {
      Blocks(f, pos, j + 1);
      BlockStep(f, pos, j);
    }
  }

  /** Once the run is used up nothing is emitted, and no divisor holds more than e factors q. */
  lemma LastBlock(f: seq<int>, pos: nat, j: nat)
    requires pos < |f| && pos + j == Run(f, pos) && IsPrime(f[pos])
    requires Common.Product(f[Run(f, pos)..]) >= 1 && Val(f[pos], Common.Product(f[Run(f, pos)..])) == 0
    ensures HighBlock(EmitPowers(f, pos, Run(f, pos), Power(f[pos], j), pos + j), Common.Product(f[pos..]), f[pos], j)
  {
    var end := Run(f, pos);
    var q, e, M := f[pos], end - pos, Common.Product(f[end..]);
    var n := Common.Product(f[pos..]);
    assert n == Power(q, e) * M && Power(q, e) >= 1 by {
      ProductRun(f, pos);
      ValPowerOf(q, q, e);
    }
    assert EmitPowers(f, pos, end, Power(q, j), pos + j) == [];
    forall x | x >= 1 && n % x == 0
      ensures Val(q, x) <= j
    {
      ValBound(q, e, M, x);
    }
  }

  /** Iteration pos + j emits the divisors with exactly j + 1 factors q, ahead of those with more. */
  lemma BlockStep(f: seq<int>, pos: nat, j: nat)
    requires pos < |f| && pos + j < Run(f, pos) && IsPrime(f[pos])
    requires Common.Product(f[Run(f, pos)..]) >= 1 && Val(f[pos], Common.Product(f[Run(f, pos)..])) == 0
    requires DivisorList(Emit(f, Run(f, pos), 1), Common.Product(f[Run(f, pos)..]))
    requires HighBlock(EmitPowers(f, pos, Run(f, pos), Power(f[pos], j + 1), pos + j + 1), Common.Product(f[pos..]), f[pos], j + 1)
    ensures HighBlock(EmitPowers(f, pos, Run(f, pos), Power(f[pos], j), pos + j), Common.Product(f[pos..]), f[pos], j)
  {
    StepSplit(f, pos, j);
    StepExact(f, pos, j);
    JoinBlocks(Scale(Emit(f, Run(f, pos), 1), Power(f[pos], j + 1)),
      EmitPowers(f, pos, Run(f, pos), Power(f[pos], j + 1), pos + j + 1),
      Common.Product(f[pos..]), f[pos], j);
  }

  /** Iteration pos + j emits the rest's divisors scaled by f[pos]^(j+1), then the later iterations. */
  lemma StepSplit(f: seq<int>, pos: nat, j: nat)
    requires pos < |f| && pos + j < Run(f, pos)
    ensures EmitPowers(f, pos, Run(f, pos), Power(f[pos], j), pos + j) ==
            Scale(Emit(f, Run(f, pos), 1), Power(f[pos], j + 1)) +
            EmitPowers(f, pos, Run(f, pos), Power(f[pos], j + 1), pos + j + 1)
  {
    var end, q := Run(f, pos), f[pos];
    var c := Power(q, j + 1);
    assert Power(q, j) * q == c;
    EmitScale(f, end, c, 1);
    EmitPowersUnfold(f, pos, end, Power(q, j), pos + j);
  }

  /** The rest's divisors scaled by f[pos]^(j+1) are the divisors with exactly j + 1 factors f[pos]. */
  lemma StepExact(f: seq<int>, pos: nat, j: nat)
    requires pos < |f| && pos + j < Run(f, pos) && IsPrime(f[pos])
    requires Common.Product(f[Run(f, pos)..]) >= 1 && Val(f[pos], Common.Product(f[Run(f, pos)..])) == 0
    requires DivisorList(Emit(f, Run(f, pos), 1), Common.Product(f[Run(f, pos)..]))
    ensures ExactBlock(Scale(Emit(f, Run(f, pos), 1), Power(f[pos], j + 1)), Common.Product(f[pos..]), f[pos], j + 1)
  {
    var end := Run(f, pos);
    ProductRun(f, pos);
    ScaledBlock(Emit(f, end, 1), Common.Product(f[end..]), f[pos], end - pos, j + 1);
  }

  /** The divisors with exactly j + 1 factors q followed by those with more are those with more than j. */
  lemma JoinBlocks(S: seq<int>, R: seq<int>, n: int, q: int, j: int)
    requires q >= 2 && ExactBlock(S, n, q, j + 1) && HighBlock(R, n, q, j + 1)
    ensures HighBlock(S + R, n, q, j)
  {
    DistinctAppend(S, R);
  }

  /** The values emitted from 1 at pos are the divisors of the product from pos on, each once. */
  lemma {:induction false} Divisors(f: seq<int>, pos: nat)
    requires Primes.Factored(f) && pos <= |f|
    ensures Common.Product(f[pos..]) >= 1
    ensures DivisorList(Emit(f, pos, 1), Common.Product(f[pos..]))
    decreases |f| - pos
  {
    if pos == |f| {
      assert f[pos..] == [];
      forall x | x >= 1 && 1 % x == 0
        ensures x == 1
      {
        DivisorAtMost(x, 1);
      }
    } else {
      var end := Run(f, pos);
      var q, e := f[pos], end - pos;
      Divisors(f, end);
      var M := Common.Product(f[end..]);
      ValProductAvoid(f[end..], q);
      ProductRun(f, pos);
      var n := Common.Product(f[pos..]);
      ValPowerOf(q, q, e);
      MulAtLeast(M, Power(q, e));
      Blocks(f, pos, 0);
      var D := Emit(f, end, 1);
      var P := EmitPowers(f, pos, end, 1, pos);
      assert Power(q, 0) == 1;
      JoinDivisors(q, e, M, n, D, P);
    }
  }

  /**
   * The divisors of M, which q does not divide, followed by the divisors of
   * q^e * M that q divides, are the divisors of q^e * M, each once.
   */
  lemma JoinDivisors(q: int, e: nat, M: int, n: int, D: seq<int>, P: seq<int>)
    requires IsPrime(q) && M >= 1 && Val(q, M) == 0 && n == Power(q, e) * M
    requires DivisorList(D, M) && HighBlock(P, n, q, 0)
    ensures DivisorList(D + P, n)
  {
    forall x | x >= 1
      ensures x in D + P <==> n % x == 0
    {
      SplitDivisor(q, e, M, x);
    }
    forall x | x in D
      ensures x !in P
    {
      SplitDivisor(q, e, M, x);
    }
    DistinctAppend(D, P);
  }
}
