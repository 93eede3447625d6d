/**
 * scan/QuadraticResidueSieve.java: a table, indexed by residues modulo
 * m = |4n| for the square-free part n of the target, of the classes whose
 * primes have n as a quadratic residue. A prime p can divide base^x - n
 * only if n is a square modulo p, so positions of a scan whose value falls
 * in a non-residue class are excluded up front.
 *
 * The residue of a class is decided by its first prime (Commons Math
 * Primes.isPrime, an exact test, taken as Arith.IsPrime); that every prime
 * of a class agrees is quadratic reciprocity and is not proved here.
 */
module QuadraticResidueSieve {
  import opened Wrappers
  import opened Arith
  import opened JavaLang
  import Common

  /** The message of StrictMath.multiplyExact and addExact on int overflow. */
  const OVERFLOW: string := "integer overflow"
  /** new boolean[m] with a negative m. */
  const NEGATIVE_SIZE: string := "negative array size"

  // ------------------------------------------------------------------
  // The square-free part of n
  // ------------------------------------------------------------------

  /** Math.abs on an int: Integer.MIN_VALUE stays negative. */
  function IntAbs(n: int): int
  {
    if n == INT_MIN then n else Abs(n)
  }

  /**
   * The reduction loop of create from i on: while i*i <= |n|, divide out
   * i*i as often as it divides n, then go on with i + 1.
   */
  function ReduceFrom(n: int, i: nat): int
    requires i >= 2
    decreases Abs(n), Abs(n) + 1 - i
  {
    if i * i > IntAbs(n) then n
    else if JavaRem(n, i * i) == 0 then
      DivideShrinks(n, i);
      ReduceFrom(JavaDiv(n, i * i), i)
    else
      assert i <= Abs(n) by { MulAtLeast(i, i); }
      ReduceFrom(n, i + 1)
  }

  /** Dividing out a square that fits in |n| makes n smaller and keeps it nonzero. */
  lemma DivideShrinks(n: int, i: nat)
    requires i >= 2 && i * i <= IntAbs(n) && JavaRem(n, i * i) == 0
    ensures JavaDiv(n, i * i) != 0 && Abs(JavaDiv(n, i * i)) < Abs(n)
    ensures n == JavaDiv(n, i * i) * (i * i)
  {
    MulNonneg(i, i - 2);
    assert i * i == i * (i - 2) + 2 * i;
    var q := JavaDiv(n, i * i);
    assert n == q * (i * i);
    assert q != 0;
    assert Abs(n) == Abs(q) * (i * i) by {
      if n < 0 { assert -n == (-q) * (i * i); }
    }
    MulAtLeast(Abs(q), i * i - 1);
    assert Abs(q) * (i * i) == Abs(q) * (i * i - 1) + Abs(q);
  }

  /** k*k divides n. */
  predicate SquareDivides(k: int, n: int)
    requires k >= 2
  {
    MulAtLeast(k, k);
    n % (k * k) == 0
  }

  /** No square of a k in [2, i) divides n. */
  ghost predicate NoSquareBelow(n: int, i: nat)
  {
    forall k :: 2 <= k < i ==> !SquareDivides(k, n)
  }

  /** No square above 1 divides n. */
  ghost predicate SquareFree(n: int)
  {
    forall k :: 2 <= k ==> !SquareDivides(k, n)
  }

  /** The reduction ends with a square-free number: no k*k with k >= 2 divides it. */
  lemma {:induction false} ReduceSquareFree(n: int, i: nat)
    requires i >= 2 && n != 0 && INT_MIN < n <= INT_MAX && NoSquareBelow(n, i)
    ensures SquareFree(ReduceFrom(n, i))
    decreases Abs(n), Abs(n) + 1 - i
  {
    if i * i > IntAbs(n) {
      forall k | 2 <= k
        ensures !SquareDivides(k, n)
      {
        if k >= i {
          MulMonotone(i, k);
          if n % (k * k) == 0 {
            DivisorAtMost(k * k, Abs(n)) by { DividesAbs(k * k, n); }
          }
        }
      }
    } else if JavaRem(n, i * i) == 0 {
      DivideShrinks(n, i);
      var q := JavaDiv(n, i * i);
      forall k | 2 <= k < i
        ensures !SquareDivides(k, q)
      {
        assert !SquareDivides(k, n);
        if q % (k * k) == 0 {
          DividesMul(k * k, q, i * i);
        }
      }
      ReduceSquareFree(q, i);
    } else {
      JavaRemCongruent(n, i * i);
      MulAtLeast(i, i);
      ReduceSquareFree(n, i + 1);
    }
  }

  lemma MulMonotone(i: nat, k: nat)
    requires i <= k
    ensures i * i <= k * k
  {
    MulNonneg(k - i, k + i);
  }

  /** d divides n exactly when it divides |n|. */
  lemma DividesAbs(d: int, n: int)
    requires d > 0 && n % d == 0
    ensures Abs(n) % d == 0
  {
    if n < 0 {
      ModNeg(n, d);
    }
  }

  /** The reduction only divides out squares: n is its result times a square. */
  lemma {:induction false} ReduceFactor(n: int, i: nat) returns (s: int)
    requires i >= 2
    ensures s >= 1 && n == ReduceFrom(n, i) * (s * s)
    decreases Abs(n), Abs(n) + 1 - i
  {
    if i * i > IntAbs(n) {
      s := 1;
    } else if JavaRem(n, i * i) == 0 {
      DivideShrinks(n, i);
      var q := JavaDiv(n, i * i);
      var s' := ReduceFactor(q, i);
      s := s' * i;
      MulAtLeast(s', i);
      SquareStep(n, q, ReduceFrom(q, i), s', i);
    } else {
      MulAtLeast(i, i);
      s := ReduceFactor(n, i + 1);
    }
  }

  lemma SquareStep(n: int, q: int, r: int, s: int, i: int)
    requires n == q * (i * i) && q == r * (s * s)
    ensures n == r * ((s * i) * (s * i))
  {
    MulSwapMiddle(s, i, s, i);
    assert n == (r * (s * s)) * (i * i);
  }

  /** Java's Math.abs(multiplyExact(4, n)) can only be negative for 4n == Integer.MIN_VALUE, which the reduction rules out. */
  lemma NoNegativeSize(n0: int)
    requires INT_MIN <= n0 <= INT_MAX
    ensures 4 * ReduceFrom(n0, 2) != INT_MIN
  {
    var n := ReduceFrom(n0, 2);
    if n0 != 0 && n0 != INT_MIN {
      ReduceSquareFree(n0, 2);
      assert !SquareDivides(2, n);
    }
  }

  /** The reduction loop of create: n becomes its square-free part. */
  method SquareFreePart(n0: int) returns (n: int)
    requires INT_MIN <= n0 <= INT_MAX
    ensures n == ReduceFrom(n0, 2)
    ensures INT_MIN <= n <= INT_MAX
  {
    n := n0;
    var i := 2;
    while i * i <= IntAbs(n)
      invariant i >= 2 && INT_MIN <= n <= INT_MAX
      invariant ReduceFrom(n, i) == ReduceFrom(n0, 2)
      decreases Abs(n) + 1 - i
    {
      assert i <= Abs(n) by { MulAtLeast(i, i); }
      ghost var n1 := n;
      while JavaRem(n, i * i) == 0
        invariant n != 0 && INT_MIN < n <= INT_MAX
        invariant ReduceFrom(n, i) == ReduceFrom(n0, 2)
        invariant Abs(n) <= Abs(n1)
        decreases Abs(n)
      {
        JavaRemCongruent(n, i * i);
        DividesAbs(i * i, n);
        DivisorAtMost(i * i, Abs(n));
        DivideShrinks(n, i);
        n := JavaDiv(n, i * i);
      }
      i := i + 1;
    }
  }

  // ------------------------------------------------------------------
  // findPrime and isResidue
  // ------------------------------------------------------------------

  /**
   * findPrime(r, m): the first prime among r, r + m, r + 2m, ..., or the
   * overflow of addExact when the class has none up to Integer.MAX_VALUE.
   */
  function FirstPrime(r: int, m: int): (res: Result<int>)
    requires m > 0 && r <= INT_MAX
    ensures res.Ok? ==> IsPrime(res.value) && r <= res.value <= INT_MAX && (res.value - r) % m == 0
    ensures res.Err? ==> res.error == OVERFLOW
    decreases INT_MAX - r
  {
    if IsPrime(r) then
      ModSmall(0, m);
      Ok(r)
    else if r + m > INT_MAX then
      Err(OVERFLOW)
    else
      var res := FirstPrime(r + m, m);
      if res.Ok? then
        ModAddMultiple(res.value - (r + m), m, 1);
        res
      else
        res
  }

  /**
   * The prime found is the first of its class, and an overflow means the
   * class has no prime up to Integer.MAX_VALUE.
   */
  lemma {:induction false} FirstPrimeIsFirst(r: int, m: int)
    requires m > 0 && r <= INT_MAX
    ensures FirstPrime(r, m).Ok? ==>
      forall x :: r <= x < FirstPrime(r, m).value && (x - r) % m == 0 ==> !IsPrime(x)
    ensures FirstPrime(r, m).Err? ==>
      forall x :: r <= x <= INT_MAX && (x - r) % m == 0 ==> !IsPrime(x)
    decreases INT_MAX - r
  {
    if !IsPrime(r) {
      if r + m <= INT_MAX {
        FirstPrimeIsFirst(r + m, m);
      }
      forall x | r <= x <= INT_MAX && (x - r) % m == 0 && x < FirstPrimeBound(r, m)
        ensures !IsPrime(x)
      {
        ClassStep(r, m, x);
      }
    }
  }

  /** The end of the search from r: the prime found, or past Integer.MAX_VALUE. */
  function FirstPrimeBound(r: int, m: int): int
    requires m > 0 && r <= INT_MAX
  {
    match FirstPrime(r, m)
    case Ok(p) => p
    case Err(_) => INT_MAX + 1
  }

  /** A later member x of the class of r is at least r + m and in the class of r + m. */
  lemma ClassStep(r: int, m: int, x: int)
    requires m > 0 && r <= x && (x - r) % m == 0
    ensures x == r || (r + m <= x && (x - (r + m)) % m == 0)
  {
    var k := (x - r) / m;
    assert x - r == m * k;
    if x != r {
      assert k >= 1 by { if k <= 0 { MulNonneg(m, -k); } }
      ModAddMultiple(x - r, m, -1);
      assert x - (r + m) == (x - r) + m * (-1);
    }
  }

  /** findPrime: the loop of addExact steps along the class of r. */
  method FindPrime(r0: int, m: int) returns (res: Result<int>)
    requires m > 0 && r0 <= INT_MAX
    ensures res == FirstPrime(r0, m)
  {
    var r := r0;
    while true
      invariant r <= INT_MAX && FirstPrime(r, m) == FirstPrime(r0, m)
      decreases INT_MAX - r
    {
      if IsPrime(r) {
        return Ok(r);
      }
      if r + m > INT_MAX {
        return Err(OVERFLOW);
      }
      r := r + m;
    }
  }

  /** n is a square modulo p. */
  predicate QR(n: int, p: int)
    requires p > 0
  {
    exists i :: 0 <= i < p && (i * i) % p == n % p
  }

  /** Any integer root witnesses QR: the search over [0, p) loses nothing. */
  lemma RootWitness(n: int, p: int, x: int)
    requires p > 0 && (x * x) % p == n % p
    ensures QR(n, p)
  {
    var i := x % p;
    ModIdempotent(x, p);
    CongMul(x, i, x, i, p);
    assert 0 <= i < p && (i * i) % p == n % p;
  }

  /** isResidue(n, p): try every i in [0, p). */
  method IsResidue(n: int, p: int) returns (r: bool)
    requires p > 0
    ensures r == QR(n, p)
  {
    var target := Common.Mod(n, p);
    var i := 0;
    while i < p
      invariant 0 <= i <= p
      invariant forall j :: 0 <= j < i ==> (j * j) % p != n % p
    {
      if (i * i) % p == target {
        return true;
      }
      i := i + 1;
    }
    return false;
  }

  // ------------------------------------------------------------------
  // The residue table of create
  // ------------------------------------------------------------------

  /** coprime[i] of create: gcd(i, m) == 1, with gcd(0, m) == m. */
  function Coprimes(m: nat): seq<bool>
  {
    seq(m, i requires 0 <= i < m => Gcd(i, m) == 1)
  }

  /** Some class i in [1, m) coprime to m has no prime up to Integer.MAX_VALUE, so findPrime overflows. */
  predicate Overflows(m: nat)
    requires m <= INT_MAX
  {
    exists i :: 1 <= i < m && Gcd(i, m) == 1 && FirstPrime(i, m).Err?
  }

  /** residue[i] of create: i is a class coprime to m whose first prime has n as a square. */
  function ClassResidue(n: int, m: nat, i: nat): bool
    requires m <= INT_MAX
  {
    1 <= i < m && Gcd(i, m) == 1 && FirstPrime(i, m).Ok? && QR(n, FirstPrime(i, m).value)
  }

  /** The class i in [1, m) has a prime up to Integer.MAX_VALUE. */
  predicate HasPrime(m: nat, i: nat)
    requires m <= INT_MAX
  {
    1 <= i < m && FirstPrime(i, m).Ok?
  }

  /** The table of create before it is shortened, or the overflow of findPrime. */
  function Table(n: int, m: nat): Result<seq<bool>>
    requires m <= INT_MAX
  {
    if Overflows(m) then Err(OVERFLOW)
    else Ok(seq(m, i requires 0 <= i < m => ClassResidue(n, m, i)))
  }

  /** Every coprime class is a residue: the sieve would exclude nothing. */
  predicate Useless(t: seq<bool>)
  {
    forall i :: 1 <= i < |t| && Gcd(i, |t|) == 1 ==> t[i]
  }

  /** The coprimality mask of create, computed into a fresh array. */
  method CoprimeMask(m: nat) returns (c: array<bool>)
    ensures fresh(c) && c[..] == Coprimes(m)
  {
    c := new bool[m];
    for i := 0 to m
      invariant forall j :: 0 <= j < i ==> c[j] == (Gcd(j, m) == 1)
    {
      c[i] := Gcd(i, m) == 1;
    }
  }

  /** The residue loop of create: the table, whether it is useless, or the overflow of findPrime. */
  method FillResidues(n: int, m: nat, coprime: array<bool>) returns (residue: array<bool>, useless: bool, overflow: bool)
    requires m <= INT_MAX && coprime[..] == Coprimes(m)
    ensures fresh(residue)
    ensures overflow <==> Table(n, m).Err?
    ensures !overflow ==> residue[..] == Table(n, m).value && useless == Useless(residue[..])
  {
    residue := new bool[m](_ => false);
    useless := true;
    overflow := false;
    var i := 1;
    while i < m
      invariant 1 <= i <= m || (m == 0 && i == 1)
      invariant forall j :: 1 <= j < i && Gcd(j, m) == 1 ==> HasPrime(m, j)
      invariant forall j :: 0 <= j < m && !(1 <= j < i) ==> !residue[j]
      invariant forall j :: 1 <= j < i ==> residue[j] == ClassResidue(n, m, j)
      invariant useless ==> forall j :: 1 <= j < i && Gcd(j, m) == 1 ==> ClassResidue(n, m, j)
      invariant !useless ==> exists j :: 1 <= j < i && Gcd(j, m) == 1 && !ClassResidue(n, m, j)
    {
      assert coprime[i] == (Gcd(i, m) == 1);
      if coprime[i] {
        var p := FindPrime(i, m);
        if p.Err? {
          overflow := true;
          return;
        }
        var q := IsResidue(n, p.value);
        if q {
          residue[i] := true;
        } else {
          useless := false;
        }
      }
      i := i + 1;
    }
    assert !Overflows(m);
    assert residue[..] == Table(n, m).value;
    assert useless == Useless(residue[..]) by {
      if m > 0 {
        assert forall j :: 1 <= j < m ==> residue[..][j] == ClassResidue(n, m, j);
      }
    }
  }

  // ------------------------------------------------------------------
  // Shortening the table to a period
  // ------------------------------------------------------------------

  /** Common.repeatToLength: s repeated cyclically to length len. */
  function Repeat(s: seq<bool>, len: nat): (r: seq<bool>)
    requires |s| > 0
    ensures |r| == len
  {
    seq(len, i requires 0 <= i < len => s[i % |s|])
  }

  /** b[i] &= coprime[i] over the whole table. */
  function Masked(b: seq<bool>, coprime: seq<bool>): (r: seq<bool>)
    requires |b| == |coprime|
    ensures |r| == |b|
  {
    seq(|b|, i requires 0 <= i < |b| => b[i] && coprime[i])
  }

  /** d divides the table's length and its first d entries, repeated and masked, give the table back. */
  predicate Period(t: seq<bool>, coprime: seq<bool>, d: nat)
    requires |t| == |coprime|
  {
    0 < d <= |t| && |t| % d == 0 && Masked(Repeat(t[..d], |t|), coprime) == t
  }

  /** The shortening loop of create from d on: the first proper period, or the table itself. */
  function ShrinkFrom(t: seq<bool>, coprime: seq<bool>, d: nat): seq<bool>
    requires |t| == |coprime| && d >= 2
    decreases |t| - d
  {
    if d >= |t| then t
    else if Period(t, coprime, d) then t[..d]
    else ShrinkFrom(t, coprime, d + 1)
  }

  /**
   * The shortened table is a prefix of the table whose length is a period
   * (the whole table when none is shorter), and no period from d up to its
   * length was skipped.
   */
  lemma {:induction false} ShrinkIsFirstPeriod(t: seq<bool>, coprime: seq<bool>, d: nat)
    requires |t| == |coprime| && d >= 2
    ensures |ShrinkFrom(t, coprime, d)| <= |t|
    ensures ShrinkFrom(t, coprime, d) == t[..|ShrinkFrom(t, coprime, d)|]
    ensures ShrinkFrom(t, coprime, d) == t || (d <= |ShrinkFrom(t, coprime, d)| && Period(t, coprime, |ShrinkFrom(t, coprime, d)|))
    ensures forall k :: d <= k < |ShrinkFrom(t, coprime, d)| ==> !Period(t, coprime, k)
    decreases |t| - d
  {
    if d < |t| && !Period(t, coprime, d) {
      ShrinkIsFirstPeriod(t, coprime, d + 1);
    }
  }

  /** On a coprime class, a period of the table gives the same entry as the whole table. */
  lemma PeriodLookup(t: seq<bool>, coprime: seq<bool>, d: nat, i: nat)
    requires |t| == |coprime| && Period(t, coprime, d) && i < |t| && coprime[i]
    ensures t[..d][i % d] == t[i]
  {
    assert Masked(Repeat(t[..d], |t|), coprime)[i] == t[i];
  }

  /** The shortened table of a nonempty table is nonempty and its length divides the table's. */
  lemma ShrinkDivides(t: seq<bool>, coprime: seq<bool>)
    requires |t| == |coprime| && |t| > 0
    ensures |ShrinkFrom(t, coprime, 2)| > 0 && |t| % |ShrinkFrom(t, coprime, 2)| == 0
  {
    ShrinkIsFirstPeriod(t, coprime, 2);
    if ShrinkFrom(t, coprime, 2) == t {
      ModMultiple(|t|, 1);
    }
  }

  /** The shortened table answers every coprime class as the table does. */
  lemma ShrinkLookup(t: seq<bool>, coprime: seq<bool>, i: nat)
    requires |t| == |coprime| && i < |t| && coprime[i]
    ensures |ShrinkFrom(t, coprime, 2)| > 0
    ensures ShrinkFrom(t, coprime, 2)[i % |ShrinkFrom(t, coprime, 2)|] == t[i]
  {
    ShrinkIsFirstPeriod(t, coprime, 2);
    ShrinkDivides(t, coprime);
    var r := ShrinkFrom(t, coprime, 2);
    if r == t {
      ModSmall(i, |t|);
    } else {
      PeriodLookup(t, coprime, |r|, i);
    }
  }

  /** Common.repeatToLength(Arrays.copyOf(residue, d), m), then b[i] &= coprime[i]. */
  method RepeatMasked(rs: seq<bool>, coprime: array<bool>, d: nat) returns (b: array<bool>)
    requires 0 < d <= |rs| == coprime.Length
    ensures fresh(b) && b[..] == Masked(Repeat(rs[..d], |rs|), coprime[..])
  {
    var m := |rs|;
    b := new bool[m](i requires 0 <= i < m => rs[i % d]);
    for i := 0 to m
      invariant forall j :: 0 <= j < i ==> b[j] == (rs[j % d] && coprime[j])
      invariant forall j :: i <= j < m ==> b[j] == rs[j % d]
    {
      b[i] := b[i] && coprime[i];
    }
  }

  /** The shortening loop of create, on arrays as the source does it. */
  method Shrink(residue: array<bool>, coprime: array<bool>) returns (t: array<bool>)
    requires residue.Length == coprime.Length
    ensures t[..] == ShrinkFrom(residue[..], coprime[..], 2)
  {
    var m := residue.Length;
    var rs := residue[..];
    var d := 2;
    while d < m
      invariant d >= 2
      invariant ShrinkFrom(rs, coprime[..], d) == ShrinkFrom(rs, coprime[..], 2)
      invariant residue[..] == rs
    {
      if m % d == 0 {
        var b := RepeatMasked(rs, coprime, d);
        if b[..] == residue[..] {
          t := new bool[d](i requires 0 <= i < d => rs[i]);
          assert t[..] == rs[..d];
          return;
        }
      }
      d := d + 1;
    }
    t := residue;
  }

  // ------------------------------------------------------------------
  // Bit patterns
  // ------------------------------------------------------------------

  /** Bit j of a pattern: the value start + j*step falls in a class the table does not accept. */
  function Excluded(residue: seq<bool>, a: int, b: int, j: int): bool
    requires |residue| > 0
  {
    !residue[(a + j * b) % |residue|]
  }

  /** The first len bits of the pattern from a with step b. */
  function Pattern(residue: seq<bool>, a: int, b: int, len: nat): (p: seq<bool>)
    requires |residue| > 0
    ensures |p| == len
  {
    seq(len, j requires 0 <= j < len => Excluded(residue, a, b, j))
  }

  /** Every bit of p is set. */
  predicate AllSet(p: seq<bool>)
  {
    forall j :: 0 <= j < |p| ==> p[j]
  }

  /** Only the classes of a and b modulo the table's length matter. */
  lemma ExcludedCongruent(residue: seq<bool>, a: int, b: int, a': int, b': int, j: int)
    requires |residue| > 0
    requires a % |residue| == a' % |residue| && b % |residue| == b' % |residue|
    ensures Excluded(residue, a, b, j) == Excluded(residue, a', b', j)
  {
    var m := |residue|;
    CongMul(j, j, b, b', m);
    CongAdd(a, a', j * b, j * b', m);
  }

  /** A length P with P*b a multiple of the table's length is a period of the pattern. */
  lemma ExcludedPeriod(residue: seq<bool>, a: int, b: int, period: int, j: int)
    requires |residue| > 0 && period > 0 && (period * b) % |residue| == 0 && j >= 0
    ensures Excluded(residue, a, b, j) == Excluded(residue, a, b, j % period)
  {
    var m := |residue|;
    var c := (period * b) / m;
    assert period * b == m * c;
    var q := j / period;
    assert j == j % period + period * q;
    assert a + j * b == a + (j % period) * b + m * (q * c) by {
      assert j * b == (j % period) * b + (period * q) * b;
      assert (period * q) * b == q * (period * b);
    }
    ModAddMultiple(a + (j % period) * b, m, q * c);
  }

  /** (x / g) * y == x * (y / g) when g divides both. */
  lemma QuotientSwap(x: int, g: int, y: int)
    requires g > 0 && x % g == 0 && y % g == 0
    ensures (x / g) * y == x * (y / g)
  {
    var k, e := x / g, y / g;
    assert x == g * k && y == g * e;
    calc {
      k * y;
      k * (g * e);
      (g * k) * e;
      x * e;
    }
  }

  /** m / gcd(b, m), the cycle of the private generateBitSet, is a period. */
  lemma CyclePeriod(m: nat, b: nat)
    requires m > 0
    ensures Gcd(b, m) > 0 && m / Gcd(b, m) > 0 && ((m / Gcd(b, m)) * b) % m == 0
  {
    var g := Gcd(b, m);
    GcdDivides(b, m);
    DivisorAtMost(g, m);
    assert m == g * (m / g);
    FactorSign(g, m / g);
    QuotientSwap(m, g, b);
    ModMultiple(m, b / g);
  }

  /** The first loop of the private generateBitSet: one cycle of the pattern, walking a += b. */
  method CycleBits(a: nat, b: nat, cycle: nat, residue: seq<bool>) returns (r: array<bool>)
    requires |residue| > 0
    ensures fresh(r) && r.Length == cycle
    ensures forall k :: 0 <= k < cycle ==> r[k] == Excluded(residue, a, b, k)
  {
    var m := |residue|;
    r := new bool[cycle];
    var x := a;
    for i := 0 to cycle
      invariant x == a + i * b
      invariant forall k :: 0 <= k < i ==> r[k] == Excluded(residue, a, b, k)
    {
      r[i] := !residue[x % m];
      x := x + b;
    }
  }

  /**
   * The private generateBitSet: one cycle of min(m / gcd(b, m), length)
   * bits, repeated over length bits.
   */
  method GenerateBits(a: nat, b: nat, length: nat, residue: seq<bool>) returns (bits: seq<bool>)
    requires |residue| > 0
    ensures bits == Pattern(residue, a, b, length)
  {
    var m := |residue|;
    var gcd := Gcd(b, m);
    CyclePeriod(m, b);
    var cycle := if m / gcd < length then m / gcd else length;
    var r := CycleBits(a, b, cycle, residue);
    var bitSet := new bool[length](_ => false);
    var ps := 0;
    var pb := 0;
    while pb < length
      invariant pb <= length && 0 <= ps && (cycle > 0 ==> ps == pb % cycle)
      invariant forall k :: 0 <= k < cycle ==> r[k] == Excluded(residue, a, b, k)
      invariant forall j :: 0 <= j < pb ==> bitSet[j] == Excluded(residue, a, b, j)
      invariant forall j :: pb <= j < length ==> !bitSet[j]
    {
      assert r[ps] == Excluded(residue, a, b, pb) by {
        if cycle == m / gcd {
          ExcludedPeriod(residue, a, b, cycle, pb);
        } else {
          ModSmall(pb, cycle);
        }
      }
      if r[ps] {
        bitSet[pb] := true;
      }
      pb := pb + 1;
      ps := ps + 1;
      if ps >= cycle {
        ps := ps - cycle;
      }
      ModStep(pb, cycle);
    }
    bits := bitSet[..];
  }

  /** Counting modulo c: one step from k - 1 to k. */
  lemma ModStep(k: int, c: int)
    requires k >= 1 && c > 0
    ensures k % c == if (k - 1) % c + 1 >= c then (k - 1) % c + 1 - c else (k - 1) % c + 1
  {
    var q, r := (k - 1) / c, (k - 1) % c;
    assert k - 1 == c * q + r;
    if r + 1 >= c {
      DivModUnique(k, c, q + 1, 0);
    } else {
      DivModUnique(k, c, q, r + 1);
    }
  }

  // ------------------------------------------------------------------
  // Precalculated buffers
  // ------------------------------------------------------------------

  /** bitLength of generatePrecalculatedBuffers: (m / gcd(m, 8)) * 8, the lcm of m and 8. */
  function BitLen(m: nat): nat
  {
    var g := Gcd(m, 8);
    QuotientNonneg(m, g);
    (m / g) * 8
  }

  lemma QuotientNonneg(a: nat, g: int)
    requires g > 0
    ensures a / g >= 0 && (a / g) * 8 >= 0
  {
  }

  /** BitLen(m) is a whole number of bytes, at least one, and a multiple of m. */
  lemma BitLenMultiple(m: nat)
    requires m > 0
    ensures BitLen(m) >= 8 && BitLen(m) % m == 0
  {
    var g := Gcd(m, 8);
    GcdDivides(m, 8);
    DivisorAtMost(g, m);
    assert m == g * (m / g);
    FactorSign(g, m / g);
    QuotientSwap(m, g, 8);
    MulAtLeast(8, m / g);
    ModMultiple(m, 8 / g);
  }

  /** precalculatedBuffers[a][b]: the pattern over BitLen bits, or null when all of them are set. */
  function Cycle(residue: seq<bool>, a: int, b: int): Option<seq<bool>>
    requires |residue| > 0
  {
    var p := Pattern(residue, a, b, BitLen(|residue|));
    if AllSet(p) then None else Some(p)
  }

  /** One row of the buffers: every step b for the start a. */
  function BufferRow(residue: seq<bool>, a: int): seq<Option<seq<bool>>>
    requires |residue| > 0
  {
    seq(|residue|, b requires 0 <= b < |residue| => Cycle(residue, a, b))
  }

  /** generatePrecalculatedBuffers: a cycle for every start a and step b below the table's length. */
  function Buffers(residue: seq<bool>): seq<seq<Option<seq<bool>>>>
  {
    seq(|residue|, a requires 0 <= a < |residue| => BufferRow(residue, a))
  }

  /**
   * A null cycle means every position is excluded: a pattern over BitLen
   * bits that is all set is all set for every length.
   */
  lemma NullCycleExcludesAll(residue: seq<bool>, a: int, b: int, j: nat)
    requires |residue| > 0 && Cycle(residue, a, b).None?
    ensures Excluded(residue, a, b, j)
  {
    var m := |residue|;
    BitLenMultiple(m);
    DividesMul(m, BitLen(m), b);
    ExcludedPeriod(residue, a, b, BitLen(m), j);
    assert Pattern(residue, a, b, BitLen(m))[j % BitLen(m)];
  }

  /** The lists of intern, keyed by the first byte of an array as LongObjectMap<List<byte[]>>. */
  class InternCache {
    var lists: map<seq<bool>, seq<seq<bool>>>

    /** Each list holds arrays of at least one byte that start with its key, none twice. */
    ghost predicate Valid()
      reads this
    {
      forall key :: key in lists ==>
        (forall e :: e in lists[key] ==> |e| >= 8 && e[..8] == key) &&
        (forall i, j :: 0 <= i < j < |lists[key]| ==> lists[key][i] != lists[key][j])
    }

    constructor()
      ensures Valid() && lists == map[]
    {
      lists := map[];
    }

    /** The list for a's first byte after intern(a): unchanged when an equal array is there, else with a added. */
    static function Interned(lists: map<seq<bool>, seq<seq<bool>>>, a: seq<bool>): seq<seq<bool>>
      requires |a| >= 8
    {
      var list := if a[..8] in lists then lists[a[..8]] else [];
      if a in list then list else list + [a]
    }

    /** intern: an array equal to a, the earlier one when the cache holds it. */
    method Intern(a: seq<bool>) returns (r: seq<bool>)
      requires Valid() && |a| >= 8
      modifies this
      ensures Valid() && r == a
      ensures lists == old(lists)[a[..8] := Interned(old(lists), a)]
    {
      var key := a[..8];
      var list: seq<seq<bool>>;
      if key in lists {
        list := lists[key];
      } else {
        list := [];
        lists := lists[key := list];
      }
      for i := 0 to |list|
        invariant forall j :: 0 <= j < i ==> list[j] != a
      {
        if list[i] == a {
          return list[i];
        }
      }
      lists := lists[key := list + [a]];
      return a;
    }
  }

  /** The loop of generatePrecalculatedBuffers that tests whether every bit is set (its `empty`). */
  method AllBitsSet(bits: seq<bool>, bitLength: nat) returns (empty: bool)
    requires bitLength <= |bits|
    ensures empty == AllSet(bits[..bitLength])
  {
    empty := true;
    var i := 0;
    while empty && i < bitLength
      invariant 0 <= i <= bitLength
      invariant empty == forall j :: 0 <= j < i ==> bits[j]
    {
      empty := bits[i];
      i := i + 1;
    }
  }

  /** The inner loop of generatePrecalculatedBuffers: the cycles of one start a, interned in the cache. */
  method GenerateRow(residue: seq<bool>, a: nat, cache: InternCache) returns (row: seq<Option<seq<bool>>>)
    requires |residue| > 0 && cache.Valid()
    modifies cache
    ensures cache.Valid()
    ensures row == BufferRow(residue, a)
  {
    var m := |residue|;
    var bitLength := BitLen(m);
    BitLenMultiple(m);
    row := [];
    for b := 0 to m
      invariant cache.Valid()
      invariant |row| == b && forall k :: 0 <= k < b ==> row[k] == Cycle(residue, a, k)
    {
      var bitSet := GenerateBits(a, b, bitLength, residue);
      var empty := AllBitsSet(bitSet, bitLength);
      CycleOf(residue, a, b, bitSet, empty);
      if !empty {
        var interned := cache.Intern(bitSet);
        row := row + [Some(interned)];
      } else {
        row := row + [None];
      }
    }
  }

  lemma CycleOf(residue: seq<bool>, a: int, b: int, bits: seq<bool>, empty: bool)
    requires |residue| > 0 && bits == Pattern(residue, a, b, BitLen(|residue|))
    requires empty == AllSet(bits[..BitLen(|residue|)])
    ensures Cycle(residue, a, b) == if empty then None else Some(bits)
  {
    assert bits[..BitLen(|residue|)] == bits;
  }

  /** generatePrecalculatedBuffers: every cycle, interned, or the overflow of multiplyExact(byteLength, 8). */
  method GenerateBuffers(residue: seq<bool>) returns (buf: Result<seq<seq<Option<seq<bool>>>>>)
    ensures buf == if BitLen(|residue|) > INT_MAX then Err(OVERFLOW) else Ok(Buffers(residue))
  {
    var m := |residue|;
    var byteLength := m / Gcd(m, 8);
    assert byteLength * 8 == BitLen(m);
    if byteLength * 8 > INT_MAX {
      return Err(OVERFLOW);
    }
    var cache := new InternCache();
    var rows: seq<seq<Option<seq<bool>>>> := [];
    for a := 0 to m
      invariant cache.Valid()
      invariant |rows| == a && forall k :: 0 <= k < a ==> rows[k] == BufferRow(residue, k)
    {
      var row := GenerateRow(residue, a, cache);
      rows := rows + [row];
    }
    assert rows == Buffers(residue);
    return Ok(rows);
  }

  // ------------------------------------------------------------------
  // The sieve
  // ------------------------------------------------------------------

  /** A QuadraticResidueSieve: the shortened table and, when asked for, the precalculated buffers. */
  datatype Sieve = Sieve(residue: seq<bool>, buffers: Option<seq<seq<Option<seq<bool>>>>>)

  /** A sieve generateBitSet can use: a nonempty table and buffers generated from it. */
  predicate Valid(s: Sieve)
  {
    |s.residue| > 0 &&
    (s.buffers.Some? ==> BitLen(|s.residue|) <= INT_MAX && s.buffers.value == Buffers(s.residue))
  }

  /** The modulus of create's table: |4n| for the square-free part n of the target. */
  function Modulus(n0: int): int
  {
    Abs(4 * ReduceFrom(n0, 2))
  }

  /**
   * create(n, withPrecalculatedBuffers, nullIfUseless): the sieve, null
   * (None) for a useless table when asked, or the exception it raises.
   */
  function Created(n0: int, withBuffers: bool, nullIfUseless: bool): Result<Option<Sieve>>
    requires INT_MIN <= n0 <= INT_MAX
  {
    var n := ReduceFrom(n0, 2);
    if 4 * n < INT_MIN || INT_MAX < 4 * n then Err(OVERFLOW)
    else if 4 * n == INT_MIN then Err(NEGATIVE_SIZE)
    else
      var m := Abs(4 * n);
      match Table(n, m)
      case Err(e) => Err(e)
      case Ok(t) =>
        if Useless(t) && nullIfUseless then Ok(None)
        else
          var residue := ShrinkFrom(t, Coprimes(m), 2);
          if !withBuffers then Ok(Some(Sieve(residue, None)))
          else if BitLen(|residue|) > INT_MAX then Err(OVERFLOW)
          else Ok(Some(Sieve(residue, Some(Buffers(residue)))))
  }

  /** create */
  method Create(n0: int, withBuffers: bool, nullIfUseless: bool) returns (r: Result<Option<Sieve>>)
    requires INT_MIN <= n0 <= INT_MAX
    ensures r == Created(n0, withBuffers, nullIfUseless)
  {
    var n := SquareFreePart(n0);
    if 4 * n < INT_MIN || INT_MAX < 4 * n {
      return Err(OVERFLOW);
    }
    if 4 * n == INT_MIN {
      return Err(NEGATIVE_SIZE);
    }
    var m := Abs(4 * n);
    var coprime := CoprimeMask(m);
    var residue, useless, overflow := FillResidues(n, m, coprime);
    if overflow {
      return Err(OVERFLOW);
    }
    if useless && nullIfUseless {
      return Ok(None);
    }
    var t := Shrink(residue, coprime);
    if withBuffers {
      var buf := GenerateBuffers(t[..]);
      if buf.Err? {
        return Err(buf.error);
      }
      r := Ok(Some(Sieve(t[..], Some(buf.value))));
    } else {
      r := Ok(Some(Sieve(t[..], None)));
    }
  }

  /**
   * The public generateBitSet: bit j is set when start + j*step falls in an
   * excluded class. From the buffers the bits come in whole bytes, so there
   * may be more than length of them; null when the cycle says every
   * position is excluded.
   */
  method GenerateBitSet(s: Sieve, start: int, step: int, length: int) returns (r: Option<seq<bool>>)
    requires Valid(s) && start >= 0 && step >= 0 && 0 <= length <= INT_MAX
    ensures r.Some? ==> |r.value| >= length
    ensures r.Some? ==> forall j :: 0 <= j < length ==> r.value[j] == Excluded(s.residue, start, step, j)
    ensures r.None? <==> s.buffers.Some? && AllSet(Pattern(s.residue, start, step, BitLen(|s.residue|)))
    ensures s.buffers.None? ==> r.Some? && |r.value| == length
  {
    var d := |s.residue|;
    var a := if start <= Common.MAX_LONG then JavaRem(start, d) else start % d;
    var b := if step <= Common.MAX_LONG then JavaRem(step, d) else step % d;
    JavaDivNonneg(start, d);
    JavaDivNonneg(step, d);
    ModIdempotent(start, d);
    ModIdempotent(step, d);
    if s.buffers.Some? {
      var cycle := s.buffers.value[a][b];
      assert cycle == Cycle(s.residue, a, b);
      PatternCongruent(s.residue, a, b, start, step, BitLen(d));
      if cycle.None? {
        return None;
      }
      var needBytes := (length - 1) / 8 + 1;
      r := Some(Repeat(cycle.value, needBytes * 8));
      RepeatedCycle(s.residue, a, b, start, step, length, needBytes * 8);
    } else {
      var bits := GenerateBits(a, b, length, s.residue);
      r := Some(bits);
      PatternCongruent(s.residue, a, b, start, step, length);
    }
  }

  /** Patterns from congruent starts and steps are equal. */
  lemma PatternCongruent(residue: seq<bool>, a: int, b: int, a': int, b': int, len: nat)
    requires |residue| > 0
    requires a % |residue| == a' % |residue| && b % |residue| == b' % |residue|
    ensures Pattern(residue, a, b, len) == Pattern(residue, a', b', len)
  {
    forall j | 0 <= j < len
      ensures Pattern(residue, a, b, len)[j] == Pattern(residue, a', b', len)[j]
    {
      ExcludedCongruent(residue, a, b, a', b', j);
    }
  }

  /** A cycle repeated to at least length bits agrees with the pattern from any congruent start and step. */
  lemma RepeatedCycle(residue: seq<bool>, a: int, b: int, a': int, b': int, length: nat, bits: int)
    requires |residue| > 0 && Cycle(residue, a, b).Some? && length <= bits
    requires a % |residue| == a' % |residue| && b % |residue| == b' % |residue|
    ensures forall j :: 0 <= j < length ==> Repeat(Cycle(residue, a, b).value, bits)[j] == Excluded(residue, a', b', j)
  {
    var m := |residue|;
    BitLenMultiple(m);
    DividesMul(m, BitLen(m), b);
    forall j | 0 <= j < length
      ensures Repeat(Cycle(residue, a, b).value, bits)[j] == Excluded(residue, a', b', j)
    {
      ExcludedPeriod(residue, a, b, BitLen(m), j);
      ExcludedCongruent(residue, a, b, a', b', j);
    }
  }

  /** isResidueFor(p): the entry of the prime's class in the shortened table. */
  function ResidueFor(s: Sieve, p: int): bool
    requires |s.residue| > 0 && IsPrime(p)
  {
    s.residue[p % |s.residue|]
  }

  /** isDivisor(p): p divides the table's length. */
  function IsDivisor(s: Sieve, p: int): bool
    requires p != 0
  {
    JavaRem(|s.residue|, p) == 0
  }

  // ------------------------------------------------------------------
  // What create promises
  // ------------------------------------------------------------------

  /** The square-free part of a nonzero int is nonzero and fits in an int. */
  lemma ReduceNonzero(n0: int)
    requires INT_MIN <= n0 <= INT_MAX && n0 != 0
    ensures ReduceFrom(n0, 2) != 0 && Abs(ReduceFrom(n0, 2)) <= Abs(n0)
  {
    var sq := ReduceFactor(n0, 2);
    SquareMultiple(n0, ReduceFrom(n0, 2), sq);
  }

  lemma SquareMultiple(n0: int, n: int, sq: int)
    requires n0 != 0 && sq >= 1 && n0 == n * (sq * sq)
    ensures n != 0 && Abs(n) <= Abs(n0)
  {
    MulAtLeast(sq, sq);
    assert Abs(n0) == Abs(n) * (sq * sq) by {
      if n < 0 { assert -n0 == (-n) * (sq * sq); }
    }
    if n != 0 {
      MulAtLeast(Abs(n), sq * sq);
    }
  }

  /** The table created for a nonzero target has a positive modulus, and the table itself exists. */
  lemma CreatedTable(n0: int, withBuffers: bool, nullIfUseless: bool)
    requires INT_MIN <= n0 <= INT_MAX && n0 != 0
    requires Created(n0, withBuffers, nullIfUseless).Ok?
    ensures 0 < Modulus(n0) <= INT_MAX && Table(ReduceFrom(n0, 2), Modulus(n0)).Ok?
    ensures Modulus(n0) == |Table(ReduceFrom(n0, 2), Modulus(n0)).value|
  {
    ReduceNonzero(n0);
  }

  /** A sieve created for a nonzero target can generate bit sets: its table is nonempty and its buffers match it. */
  lemma CreatedValid(n0: int, withBuffers: bool, nullIfUseless: bool, s: Sieve)
    requires INT_MIN <= n0 <= INT_MAX && n0 != 0
    requires Created(n0, withBuffers, nullIfUseless) == Ok(Some(s))
    ensures Valid(s)
    ensures |s.residue| > 0 && Modulus(n0) % |s.residue| == 0
    ensures withBuffers <==> s.buffers.Some?
  {
    CreatedTable(n0, withBuffers, nullIfUseless);
    var m := Modulus(n0);
    ShrinkDivides(Table(ReduceFrom(n0, 2), m).value, Coprimes(m));
  }

  /**
   * create returns null exactly when it was asked to, nothing fails, and
   * every class coprime to the modulus is a residue.
   */
  lemma CreatedNull(n0: int, withBuffers: bool, nullIfUseless: bool)
    requires INT_MIN <= n0 <= INT_MAX
    ensures Created(n0, withBuffers, nullIfUseless) == Ok(None) <==>
      nullIfUseless && Created(n0, false, false).Ok? &&
      forall i :: 1 <= i < Modulus(n0) && Gcd(i, Modulus(n0)) == 1 ==> ClassResidue(ReduceFrom(n0, 2), Modulus(n0), i)
  {
    var n := ReduceFrom(n0, 2);
    var m := Modulus(n0);
    if Created(n0, false, false).Ok? {
      UselessTable(n, m);
    }
  }

  /** The table is useless exactly when every class coprime to m is a residue. */
  lemma UselessTable(n: int, m: nat)
    requires m <= INT_MAX && Table(n, m).Ok?
    ensures Useless(Table(n, m).value) <==> forall i :: 1 <= i < m && Gcd(i, m) == 1 ==> ClassResidue(n, m, i)
  {
    var t := Table(n, m).value;
    assert forall i :: 0 <= i < m ==> t[i] == ClassResidue(n, m, i);
  }

  /** isDivisor(p) of a created sieve: p divides the table's length, hence the modulus |4n|. */
  lemma DivisorOfModulus(n0: int, withBuffers: bool, nullIfUseless: bool, s: Sieve, p: int)
    requires INT_MIN <= n0 <= INT_MAX && n0 != 0
    requires Created(n0, withBuffers, nullIfUseless) == Ok(Some(s))
    requires p > 0 && IsDivisor(s, p)
    ensures Modulus(n0) % p == 0
  {
    CreatedValid(n0, withBuffers, nullIfUseless, s);
    JavaDivNonneg(|s.residue|, p);
    DividesTrans(p, |s.residue|, Modulus(n0));
  }

  /** Reducing modulo m and then modulo a divisor d of m is reducing modulo d. */
  lemma ModOfDivisor(x: int, m: int, d: int)
    requires d > 0 && m > 0 && m % d == 0
    ensures (x % m) % d == x % d
  {
    var k := m / d;
    assert m == d * k;
    assert x == x % m + m * (x / m);
    assert x == x % m + d * (k * (x / m));
    ModAddMultiple(x % m, d, k * (x / m));
  }

  /**
   * isResidueFor(p) for a prime coprime to the modulus: the table's entry
   * for p's class, decided by the first prime of that class.
   */
  lemma ResidueForClass(n0: int, withBuffers: bool, nullIfUseless: bool, s: Sieve, p: int)
    requires INT_MIN <= n0 <= INT_MAX && n0 != 0
    requires Created(n0, withBuffers, nullIfUseless) == Ok(Some(s))
    requires IsPrime(p) && Modulus(n0) > 0 && Gcd(p % Modulus(n0), Modulus(n0)) == 1
    ensures |s.residue| > 0 && Modulus(n0) <= INT_MAX
    ensures ResidueFor(s, p) == ClassResidue(ReduceFrom(n0, 2), Modulus(n0), p % Modulus(n0))
  {
    CreatedValid(n0, withBuffers, nullIfUseless, s);
    CreatedTable(n0, withBuffers, nullIfUseless);
    var n := ReduceFrom(n0, 2);
    var m := Modulus(n0);
    var t := Table(n, m).value;
    var i := p % m;
    ShrinkLookup(t, Coprimes(m), i);
    ModOfDivisor(p, m, |s.residue|);
  }

  /** n*s^2 and n are squares modulo a prime p together, when p does not divide n*s^2. */
  lemma SquareClass(n: int, sq: int, p: int)
    requires IsPrime(p) && (n * (sq * sq)) % p != 0
    ensures QR(n * (sq * sq), p) <==> QR(n, p)
  {
    assert sq % p != 0 by {
      assert (sq * sq) * n == n * (sq * sq);
      if sq % p == 0 {
        DividesMul(p, sq, sq);
        DividesMul(p, sq * sq, n);
      }
    }
    if QR(n, p) {
      var i :| 0 <= i < p && (i * i) % p == n % p;
      SquareTimes(n, sq, p, i);
    }
    if QR(n * (sq * sq), p) {
      var y :| 0 <= y < p && (y * y) % p == (n * (sq * sq)) % p;
      SquareDivided(n, sq, p, y);
    }
  }

  /** A root i of n gives the root i*sq of n*sq^2. */
  lemma SquareTimes(n: int, sq: int, p: int, i: int)
    requires p > 0 && (i * i) % p == n % p
    ensures QR(n * (sq * sq), p)
  {
    MulSwapMiddle(i, sq, i, sq);
    CongMul(i * i, n, sq * sq, sq * sq, p);
    RootWitness(n * (sq * sq), p, i * sq);
  }

  /** A root y of n*sq^2 gives the root y/sq of n, dividing by sq through its inverse sq^(p-2). */
  lemma SquareDivided(n: int, sq: int, p: int, y: int)
    requires IsPrime(p) && sq % p != 0 && (y * y) % p == (n * (sq * sq)) % p
    ensures QR(n, p)
  {
    var inv := Power(sq, p - 2);
    FermatInverse(p, sq);
    ModSmall(1, p);
    var u := sq * inv;
    assert (y * inv) * (y * inv) == (y * y) * (inv * inv) by { MulSwapMiddle(y, inv, y, inv); }
    CongMul(y * y, n * (sq * sq), inv * inv, inv * inv, p);
    assert (n * (sq * sq)) * (inv * inv) == n * (u * u) by {
      MulSwapMiddle(sq, sq, inv, inv);
    }
    CongMul(u, 1, u, 1, p);
    CongMul(n, n, u * u, 1, p);
    RootWitness(n, p, y * inv);
  }

  /**
   * For a prime p below the modulus, coprime to it and not dividing the
   * target, isResidueFor(p) says exactly whether the target is a square
   * modulo p.
   */
  lemma ResidueForSmallPrime(n0: int, withBuffers: bool, nullIfUseless: bool, s: Sieve, p: int)
    requires INT_MIN <= n0 <= INT_MAX && n0 != 0
    requires Created(n0, withBuffers, nullIfUseless) == Ok(Some(s))
    requires IsPrime(p) && p < Modulus(n0) && Gcd(p, Modulus(n0)) == 1 && n0 % p != 0
    ensures |s.residue| > 0
    ensures ResidueFor(s, p) <==> QR(n0, p)
  {
    var m := Modulus(n0);
    ModSmall(p, m);
    ResidueForClass(n0, withBuffers, nullIfUseless, s, p);
    assert FirstPrime(p, m) == Ok(p);
    var sq := ReduceFactor(n0, 2);
    SquareClass(ReduceFrom(n0, 2), sq, p);
  }
}
