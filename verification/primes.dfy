/**
 * primes/Primes.java: the table of all primes up to a limit, built by the
 * sieve of Eratosthenes over a bit set, with lookups by index, the index of
 * the largest prime not above n, and trial-division factorization that goes
 * on past the table with consecutive integers.
 */
module Primes {
  import opened Arith
  import opened NumTheory
  import Common

  /**
   * (long) Math.floor(Math.sqrt(n)), as the integer square root; the
   * rounding of the floating-point root is not modelled.
   */
  function ISqrt(n: nat): (r: nat)
    ensures r * r <= n < (r + 1) * (r + 1)
  {
    ISqrtFrom(n, 0)
  }

  function ISqrtFrom(n: nat, r: nat): (s: nat)
    requires r * r <= n
    ensures s * s <= n < (s + 1) * (s + 1)
    decreases n - r
  {
    if (r + 1) * (r + 1) > n then r
    else
      assert r < n by {
        MulAtLeast(r + 1, r + 1);
      }
      ISqrtFrom(n, r + 1)
  }

  // ------------------------------------------------------------------
  // The sieve
  // ------------------------------------------------------------------

  /** k survives the crossing-out by every d < p: no such d with d*d <= k divides it. */
  ghost predicate Unmarked(k: int, p: int)
  {
    forall d :: 2 <= d < p && d * d <= k ==> k % d != 0
  }

  /** A crossed-out p has a divisor d with d*d <= p, which already crossed out p's multiples. */
  lemma CompositeSieved(k: int, p: int)
    requires 2 <= p && !Unmarked(p, p) && p * p <= k && k % p == 0
    ensures !Unmarked(k, p)
  {
    var d :| 2 <= d < p && d * d <= p && p % d == 0;
    DividesTrans(d, p, k);
    MulAtLeast(p, p);
  }

  /** A composite number has a divisor whose square is at most the number. */
  lemma SmallDivisor(k: int) returns (q: int)
    requires k >= 2 && !IsPrime(k)
    ensures 2 <= q && q * q <= k && k % q == 0
  {
    q := SmallestFactorFrom(k, 2);
    assert q < k;
    var m := SplitFactor(q, k);
    assert m != 1;
    ModMultiple(m, q);
    assert k == m * q;
    assert m >= q;
    MulNonneg(q, m - q);
    assert q * m == q * q + q * (m - q);
  }

  lemma SquareMonotone(a: int, b: int)
    requires 0 <= a
    ensures a <= b ==> a * a <= b * b
  {
    if a <= b {
      MulNonneg(b - a, b);
      MulNonneg(a, b - a);
      assert b * b == (b - a) * b + a * (b - a) + a * a;
    }
  }

  lemma SquareBelow(q: int, s: int)
    requires q >= 0 && s >= 0 && q * q < (s + 1) * (s + 1)
    ensures q <= s
  {
    SquareMonotone(s + 1, q);
  }

  /** After crossing out up to sqrt(limit), exactly the primes remain. */
  lemma SieveComplete(k: int, s: int)
    requires 2 <= k < (s + 1) * (s + 1) && s >= 0
    ensures Unmarked(k, s + 1) <==> IsPrime(k)
  {
    if IsPrime(k) {
      forall d | 2 <= d < s + 1 && d * d <= k
        ensures k % d != 0
      {
        MulAtLeast(d, d);
      }
    } else {
      var q := SmallDivisor(k);
      SquareBelow(q, s);
    }
  }

  /** Between two multiples of p that are p apart, no number is a multiple of p. */
  lemma NoMultipleBetween(i: int, p: int, k: int)
    requires p > 0 && i % p == 0 && i < k < i + p
    ensures k % p != 0
  {
    ModAddMultiple(k - i, p, i / p);
    DivOfMultiple(i, p);
    assert k - i + p * (i / p) == k;
    ModSmall(k - i, p);
  }

  /** The inner loop of the sieve: clear p*p, p*p + p, ... up to the end of the bit set. */
  method CrossOut(bits: array<bool>, p: int)
    requires p >= 2
    modifies bits
    ensures forall k :: 0 <= k < bits.Length ==> (bits[k] <==> old(bits[k]) && !(p * p <= k && k % p == 0))
  {
    var i := p * p;
    ModMultiple(p, p);
    while i < bits.Length
      invariant p * p <= i && i % p == 0
      invariant forall k :: 0 <= k < bits.Length ==> (bits[k] <==> old(bits[k]) && !(p * p <= k < i && k % p == 0))
      decreases bits.Length - i
    {
      bits[i] := false;
      forall k | i < k < i + p
        ensures k % p != 0
      {
        NoMultipleBetween(i, p, k);
      }
      ModAddMultiple(i, p, 1);
      i := i + p;
    }
  }

  /**
   * The constructor's sieve: bits 2..limit set, then, for every p up to
   * sqrt(limit) whose bit is still set, the multiples p*p, p*p + p, ...
   * cleared. The set bits are then exactly the primes.
   */
  method Sieve(limit: int) returns (bits: array<bool>)
    requires limit >= 2
    ensures fresh(bits) && bits.Length == limit + 1
    ensures forall k :: 0 <= k <= limit ==> (bits[k] <==> IsPrime(k))
  {
    bits := new bool[limit + 1](_ => false);
    forall k | 2 <= k <= limit {
      bits[k] := true;
    }
    var sqrt := ISqrt(limit);
    for p := 2 to sqrt + 1
      invariant forall k :: 0 <= k <= limit ==> (bits[k] <==> 2 <= k && Unmarked(k, p))
    {
      assert p <= limit by {
        MulAtLeast(p, p);
      }
      if bits[p] {
        CrossOut(bits, p);
      } else {
        forall k | 0 <= k <= limit && p * p <= k && k % p == 0
          ensures !Unmarked(k, p)
        {
          CompositeSieved(k, p);
        }
      }
    }
    forall k | 2 <= k <= limit
      ensures Unmarked(k, sqrt + 1) <==> IsPrime(k)
    {
      SieveComplete(k, sqrt);
    }
  }

  // ------------------------------------------------------------------
  // Reading the primes off the bit set
  // ------------------------------------------------------------------

  /** The set positions below n, in increasing order. */
  function SetBitsBelow(b: seq<bool>, n: nat): (r: seq<int>)
    requires n <= |b|
    ensures forall x :: x in r <==> 0 <= x < n && b[x]
    ensures forall j, k :: 0 <= j < k < |r| ==> r[j] < r[k]
    ensures |r| <= n
  {
    if n == 0 then []
    else
      var r := SetBitsBelow(b, n - 1);
      assert forall j :: 0 <= j < |r| ==> r[j] in r;
      if b[n - 1] then r + [n - 1] else r
  }

  /** BitSet.nextSetBit: the first set position from `from` on, or -1. */
  function NextSetBit(b: seq<bool>, from: nat): (r: int)
    ensures r == -1 || (from <= r < |b| && b[r])
    ensures forall j :: from <= j < |b| && (r == -1 || j < r) ==> !b[j]
    decreases |b| - from
  {
    if from >= |b| then -1
    else if b[from] then from
    else NextSetBit(b, from + 1)
  }

  /** With no position set in [from, to), nothing new is listed. */
  lemma {:induction false} SetBitsSkip(b: seq<bool>, lo: nat, hi: nat)
    requires lo <= hi <= |b|
    requires forall j :: lo <= j < hi ==> !b[j]
    ensures SetBitsBelow(b, hi) == SetBitsBelow(b, lo)
    decreases hi
  {
    if hi > lo {
      SetBitsSkip(b, lo, hi - 1);
    }
  }

  lemma {:induction false} SetBitsMonotone(b: seq<bool>, m: nat, n: nat)
    requires m <= n <= |b|
    ensures |SetBitsBelow(b, m)| <= |SetBitsBelow(b, n)|
    decreases n
  {
    if n > m {
      SetBitsMonotone(b, m, n - 1);
    }
  }

  /** One round of the loops p = isPrime.nextSetBit(p+1): the listing grows by p. */
  lemma NextRound(b: seq<bool>, p: nat)
    requires p < |b| && b[p]
    ensures var q := NextSetBit(b, p + 1);
            var upto := if q == -1 then |b| else q;
            p < upto <= |b| && SetBitsBelow(b, upto) == SetBitsBelow(b, p) + [p]
  {
    var q := NextSetBit(b, p + 1);
    var upto := if q == -1 then |b| else q;
    SetBitsSkip(b, p + 1, upto);
  }

  /** The constructor's first pass: count the set bits, visiting them with nextSetBit from 2. */
  method CountSetBits(bits: array<bool>) returns (count: int)
    requires bits.Length >= 3 && !bits[0] && !bits[1] && bits[2]
    ensures count == |SetBitsBelow(bits[..], bits.Length)|
  {
    ghost var b := bits[..];
    assert SetBitsBelow(b, 2) == [];
    count := 0;
    var p := 2;
    ghost var upto: nat := 2;
    while p > 1
      invariant p == -1 || (2 <= p < |b| && b[p] && upto == p)
      invariant p == -1 ==> upto == |b|
      invariant upto <= |b| && count == |SetBitsBelow(b, upto)|
      decreases if p > 1 then |b| - p else 0
    {
      count := count + 1;
      NextRound(b, p);
      p := NextSetBit(bits[..], p + 1);
      upto := if p == -1 then |b| else p;
    }
  }

  /**
   * The constructor's two passes over the set bits from 2 on: the first counts
   * them, the second copies them into an array of that size.
   */
  method Collect(bits: array<bool>) returns (primes: array<int>)
    requires bits.Length >= 3 && !bits[0] && !bits[1] && bits[2]
    ensures fresh(primes) && primes[..] == SetBitsBelow(bits[..], bits.Length)
  {
    ghost var b := bits[..];
    assert SetBitsBelow(b, 2) == [];
    var count := CountSetBits(bits);
    var p := 2;
    ghost var upto: nat := 2;
    primes := new int[count];
    var i := 0;
    SetBitsMonotone(b, 2, |b|);
    while p > 1
      invariant p == -1 || (2 <= p < |b| && b[p] && upto == p)
      invariant p == -1 ==> upto == |b|
      invariant primes.Length == |SetBitsBelow(b, |b|)|
      invariant upto <= |b| && i == |SetBitsBelow(b, upto)| <= primes.Length
      invariant primes[..i] == SetBitsBelow(b, upto)
      invariant bits[..] == b
      decreases if p > 1 then |b| - p else 0
    {
      ghost var listed := primes[..i];
      assert SetBitsBelow(b, p + 1) == listed + [p];
      assert i < primes.Length by {
        SetBitsMonotone(b, p + 1, |b|);
      }
      primes[i] := p;
      i := i + 1;
      assert primes[..i] == listed + [p];
      NextRound(b, p);
      p := NextSetBit(bits[..], p + 1);
      upto := if p == -1 then |b| else p;
    }
    assert primes[..] == primes[..i];
  }

  // ------------------------------------------------------------------
  // The table
  // ------------------------------------------------------------------

  /** No d in [2, t) divides n. */
  predicate NoFactorBelow(n: int, t: int)
  {
    forall d :: 2 <= d < t ==> n % d != 0
  }

  /** The number of leading entries of an increasing array below key. */
  function CountBelow(a: seq<int>, key: int): (c: nat)
    requires forall j, k :: 0 <= j < k < |a| ==> a[j] < a[k]
    ensures c <= |a|
    ensures forall j :: 0 <= j < c ==> a[j] < key
    ensures forall j :: c <= j < |a| ==> a[j] >= key
  {
    if a == [] || a[0] >= key then 0 else 1 + CountBelow(a[1..], key)
  }

  /**
   * java.util.Arrays.binarySearch on an increasing array: the index of key,
   * or -(insertion point) - 1 when key is absent.
   */
  function BinarySearch(a: seq<int>, key: int): (r: int)
    requires forall j, k :: 0 <= j < k < |a| ==> a[j] < a[k]
    ensures 0 <= r ==> r < |a| && a[r] == key
    ensures r < 0 ==> key !in a && -(r + 1) == CountBelow(a, key)
  {
    var c := CountBelow(a, key);
    if c < |a| && a[c] == key then c else -(c + 1)
  }

  class Primes {
    const limit: int
    /** The field primes: the primes up to limit, increasing. */
    const table: seq<int>
    /** The field isPrime; empty when limit < 2. */
    const isPrime: seq<bool>

    ghost predicate Valid()
    {
      (forall x :: x in table <==> 2 <= x <= limit && IsPrime(x)) &&
      (forall j, k :: 0 <= j < k < |table| ==> table[j] < table[k]) &&
      (forall x :: 0 <= x < |isPrime| ==> (isPrime[x] <==> IsPrime(x))) &&
      (limit >= 2 ==> |isPrime| == limit + 1) &&
      (limit < 2 ==> isPrime == [])
    }

    /** isPrime.get(x): false outside the bit set. */
    predicate Bit(x: int)
    {
      0 <= x < |isPrime| && isPrime[x]
    }

    /**
     * new Primes(limit): an empty table below 2; otherwise the sieve and the
     * copy of the set bits, which are exactly the primes up to limit, increasing.
     */
    constructor (limit: int)
      ensures this.limit == limit && Valid()
      ensures limit < 2 ==> table == []
    {
      this.limit := limit;
      if limit < 2 {
        table := [];
        isPrime := [];
      } else {
        var bits := Sieve(limit);
        assert IsPrime(2);
        var primes := Collect(bits);
        table := primes[..];
        isPrime := bits[..];
      }
    }

    /** get(i): the i-th prime of the table. */
    function Get(i: int): (p: int)
      requires Valid() && 0 <= i < |table|
      ensures IsPrime(p) && p <= limit
      ensures forall j :: 0 <= j < i ==> table[j] < p
    {
      assert table[i] in table;
      table[i]
    }

    /** size(): the number of primes up to limit. */
    function Size(): (n: int)
      requires Valid()
      ensures n == |table|
      ensures forall x :: 2 <= x <= limit && IsPrime(x) ==> x in table[..n]
    {
      assert table[..|table|] == table;
      |table|
    }

    /**
     * floorIdx(n): the index of the largest prime not above n; -1 when there
     * is none (n < 2 or an empty table) and size - 1 from the last prime on.
     */
    function FloorIdx(n: int): (r: int)
      requires Valid()
      ensures -1 <= r < |table|
      ensures forall j :: 0 <= j <= r ==> table[j] <= n
      ensures r + 1 < |table| ==> n < table[r + 1]
      ensures n < 2 ==> r == -1
    {
      var idx := BinarySearch(table, n);
      assert n < 2 && |table| > 0 ==> table[0] in table;
      if idx >= 0 then idx else -(idx + 1) - 1
    }

    /** The largest prime of the table, or 1 for an empty table. */
    function LastPrime(): (q: int)
      requires Valid()
      ensures |table| == 0 ==> q == 1
      ensures |table| > 0 ==> q == table[|table| - 1] && q <= limit
    {
      if |table| > 0 then assert table[|table| - 1] in table; table[|table| - 1] else 1
    }

    /** The i-th trial divisor of factorize: the table, then lastPrime + 1, lastPrime + 2, ... */
    function Trial(i: nat): int
      requires Valid()
    {
      if i < |table| then table[i] else LastPrime() + (i - |table|) + 1
    }

    lemma TrialStart()
      requires Valid()
      ensures Trial(0) == 2
    {
      if |table| > 0 {
        assert IsPrime(2);
        assert table[0] in table;
        assert 2 in table;
        var j :| 0 <= j < |table| && table[j] == 2;
        assert j > 0 ==> table[0] < table[j];
      }
    }

    /** No prime lies strictly between two successive trial divisors. */
    lemma TrialGap(i: nat, q: int)
      requires Valid() && IsPrime(q) && q < Trial(i + 1)
      ensures Trial(i) < Trial(i + 1)
      ensures q <= Trial(i)
    {
      if i + 1 < |table| {
        assert table[i + 1] in table;
        assert q in table;
        var j :| 0 <= j < |table| && table[j] == q;
        assert j <= i;
        assert j < i ==> table[j] < table[i];
      }
    }

    /** A number with no factor below Trial(i) that Trial(i) does not divide has none below Trial(i + 1). */
    lemma NoFactorAdvance(n: int, i: nat)
      requires Valid() && n >= 1 && Trial(i) >= 2
      requires NoFactorBelow(n, Trial(i)) && n % Trial(i) != 0
      ensures Trial(i) < Trial(i + 1) && NoFactorBelow(n, Trial(i + 1))
    {
      TrialGap(i, 2);
      forall d | 2 <= d < Trial(i + 1)
        ensures n % d != 0
      {
        if n % d == 0 {
          var q := SmallestFactor(d);
          DividesTrans(q, d, n);
          TrialGap(i, q);
        }
      }
    }

    /**
     * factorize(n): trial division by the table and past it; after each prime
     * is divided out, a remainder that the bit set shows to be prime is
     * appended at once. The result is non-decreasing primes whose product is n.
     * For n <= 0, which the method's assert rules out when assertions are
     * enabled, the loop does not run and the result is empty.
     */
    method Factorize(n0: int) returns (fs: seq<int>)
      requires Valid()
      ensures n0 >= 1 ==> Common.Product(fs) == n0 && Factored(fs)
      ensures n0 <= 1 ==> fs == []
    {
      if n0 <= 0 {
        return [];
      }
      var lastPrime := LastPrime();
      var n := n0;
      fs := [];
      var i: nat := 0;
      TrialStart();
      while n > 1
        invariant Progress(n0, n, fs, i)
        invariant n0 == 1 ==> fs == []
        decreases n, n - Trial(i)
      {
        var p := if i < |table| then table[i] else lastPrime + (i - |table|) + 1;
        assert p == Trial(i);
        ghost var t := i;
        i := i + 1;
        if n % p != 0 {
          SkipTrial(n0, n, fs, t);
          continue;
        }
        DivideReady(n0, n, fs, t);
        ghost var n1, fs1 := n, fs;
        n, fs := DivideOutPrime(n, p, n0, fs);
        AfterDivide(n0, n1, fs1, n, fs, t);
        if n <= lastPrime && Bit(n) {
          AppendRest(n0, n, fs, i);
          fs := fs + [n];
          n := 1;
        }
      }
      assert Common.Product(fs) * 1 == Common.Product(fs);
    }

    /**
     * What factorize keeps: the factors so far times n is n0, the factors are
     * non-decreasing primes below the next trial divisor, and n has no factor
     * below it.
     */
    ghost predicate Progress(n0: int, n: int, fs: seq<int>, i: nat)
      requires Valid()
    {
      n >= 1 && Common.Product(fs) * n == n0 && Factored(fs) && Trial(i) >= 2 &&
      (n > 1 ==> NoFactorBelow(n, Trial(i)) && Trial(i) <= n) &&
      (n > 1 && fs != [] ==> fs[|fs| - 1] < Trial(i))
    }

    /** A trial divisor that does not divide n is passed over. */
    lemma SkipTrial(n0: int, n: int, fs: seq<int>, t: nat)
      requires Valid() && Progress(n0, n, fs, t) && n > 1 && n % Trial(t) != 0
      ensures Progress(n0, n, fs, t + 1) && Trial(t) < Trial(t + 1)
    {
      NoFactorAdvance(n, t);
      NoFactorBound(n, Trial(t + 1));
    }

    /** The first trial divisor that divides n is a prime above the factors so far. */
    lemma DivideReady(n0: int, n: int, fs: seq<int>, t: nat)
      requires Valid() && Progress(n0, n, fs, t) && n > 1 && n % Trial(t) == 0
      ensures IsPrime(Trial(t)) && (fs != [] ==> fs[|fs| - 1] < Trial(t))
    {
      FirstFactorPrime(n, Trial(t));
    }

    /** After the trial divisor is divided out, the search moves on to the next one. */
    lemma AfterDivide(n0: int, n1: int, fs1: seq<int>, n: int, fs: seq<int>, t: nat)
      requires Valid() && Progress(n0, n1, fs1, t) && n1 > 1 && IsPrime(Trial(t))
      requires 1 <= n < n1 && n % Trial(t) != 0 && n1 % n == 0
      requires Common.Product(fs) * n == n0 && Factored(fs) && fs != [] && fs[|fs| - 1] == Trial(t)
      ensures Progress(n0, n, fs, t + 1)
    {
      NoFactorDivisor(n1, n, Trial(t));
      NoFactorAdvance(n, t);
      if n > 1 {
        NoFactorBound(n, Trial(t + 1));
      }
    }

    /** A remainder the bit set shows to be prime is the last factor. */
    lemma AppendRest(n0: int, n: int, fs: seq<int>, i: nat)
      requires Valid() && Progress(n0, n, fs, i) && Bit(n)
      ensures Progress(n0, 1, fs + [n], i)
    {
      assert IsPrime(n);
      NoFactorBound(n, Trial(i));
      Common.ProductSnoc(fs, n);
      AppendFactor(fs, n);
    }
  }

  /**
   * The do-while of factorize: divide p out of n as often as it goes,
   * appending p to the factors each time.
   */
  method DivideOutPrime(n: int, p: int, ghost n0: int, fs: seq<int>) returns (m: int, gs: seq<int>)
    requires n >= 1 && IsPrime(p) && n % p == 0 && Common.Product(fs) * n == n0
    requires Factored(fs) && (fs != [] ==> fs[|fs| - 1] < p)
    ensures 1 <= m < n && m % p != 0 && n % m == 0 && Common.Product(gs) * m == n0
    ensures Factored(gs) && gs != [] && gs[|gs| - 1] == p
  {
    DivideOut(fs, p, n);
    DivisorOfQuotient(n, p);
    AppendFactor(fs, p);
    m := n / p;
    gs := fs + [p];
    while m % p == 0
      invariant 1 <= m < n && Common.Product(gs) * m == n0 && n % m == 0
      invariant Factored(gs) && |gs| > 0 && gs[|gs| - 1] == p
      decreases m
    {
      DivideOut(gs, p, m);
      DivisorOfQuotient(m, p);
      DividesTrans(m / p, m, n);
      AppendFactor(gs, p);
      m := m / p;
      gs := gs + [p];
    }
  }

  /** Primes in non-decreasing order: the shape of factorize's result. */
  ghost predicate Factored(fs: seq<int>)
  {
    (forall k :: 0 <= k < |fs| ==> IsPrime(fs[k])) &&
    (forall j, k :: 0 <= j < k < |fs| ==> fs[j] <= fs[k])
  }

  lemma AppendFactor(fs: seq<int>, x: int)
    requires Factored(fs) && IsPrime(x) && (fs != [] ==> fs[|fs| - 1] <= x)
    ensures Factored(fs + [x])
  {
  }

  /** A divisor of n keeps n's freedom from small factors. */
  lemma NoFactorDivisor(n: int, m: int, t: int)
    requires n >= 1 && m >= 1 && n % m == 0 && NoFactorBelow(n, t)
    ensures NoFactorBelow(m, t)
  {
    forall d | 2 <= d < t
      ensures m % d != 0
    {
      if m % d == 0 {
        DividesTrans(d, m, n);
      }
    }
  }

  /** The first divisor found from 2 on is prime. */
  lemma FirstFactorPrime(n: int, p: int)
    requires n >= 1 && p >= 2 && NoFactorBelow(n, p) && n % p == 0
    ensures IsPrime(p)
  {
    forall d | 2 <= d < p
      ensures p % d != 0
    {
      if p % d == 0 {
        DividesTrans(d, p, n);
      }
    }
  }

  /** A number above 1 with no factor below t is at least t. */
  lemma NoFactorBound(n: int, t: int)
    requires n >= 2 && NoFactorBelow(n, t)
    ensures t <= n
  {
    if n < t {
      ModMultiple(n, 1);
    }
  }

  lemma DivideOut(fs: seq<int>, p: int, n: int)
    requires p > 0 && n % p == 0
    ensures Common.Product(fs + [p]) * (n / p) == Common.Product(fs) * n
  {
    Common.ProductSnoc(fs, p);
    DivOfMultiple(n, p);
    assert Common.Product(fs) * p * (n / p) == Common.Product(fs) * (p * (n / p));
  }

  /** The quotient by a divisor p >= 2 is a smaller positive divisor. */
  lemma DivisorOfQuotient(n: int, p: int)
    requires n >= 1 && p >= 2 && n % p == 0
    ensures 1 <= n / p < n && n % (n / p) == 0
  {
    DivOfMultiple(n, p);
    var q := n / p;
    assert q >= 1 by {
      FactorSign(p, q);
    }
    MulAtLeast(q, p);
    assert n == q * p;
    assert q < n by { MulAtLeast(q, p - 1); }
    ModMultiple(q, p);
  }
}
