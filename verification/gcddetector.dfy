/**
 * The batched gcd detector of the Pollard factorizers. Instead of taking
 * gcd(N, x) for every candidate x, it keeps a buffer of running products
 * x0, x0*x1, x0*x1*x2, ... modulo N and takes one gcd when the buffer is
 * full; only when that gcd is N itself (the product collapsed to 0) does it
 * scan the prefixes for the first one that shares a factor with N.
 *
 * Everything is specified through gcd(N, x0 * ... * xi), the gcd the
 * unbatched algorithm would have seen after the same inputs.
 */
module GcdDetector {
  import opened Wrappers
  import opened Arith
  import NumTheory
  import Common

  /** The value buf[i] holds once xs were added: x0, then running products reduced modulo n. */
  function Prefix(n: int, xs: seq<int>, i: nat): int
    requires n > 0 && i < |xs|
  {
    if i == 0 then xs[0] else (Prefix(n, xs, i - 1) * xs[i]) % n
  }

  /** gcd(n, x0 * ... * xi): what the first i + 1 added values reveal about n. */
  function PrefixGcd(n: int, xs: seq<int>, i: nat): nat
    requires i < |xs|
  {
    AbsGcd(n, Common.Product(xs[..i + 1]))
  }

  /** The gcd with n depends only on the residue modulo n, whatever the sign. */
  lemma AbsGcdResidue(n: int, v: int)
    requires n > 0
    ensures AbsGcd(n, v % n) == AbsGcd(n, v)
  {
    var a := v % n;
    var u := if v < 0 then -v else v;
    var g := Gcd(n, u);
    NumTheory.GcdFactors(n, u);
    DividesSign(g, v);
    DividesResidue(g, n, v);
    forall d | d > 0 && n % d == 0 && a % d == 0
      ensures g % d == 0
    {
      DividesResidue(d, n, v);
      DividesSign(d, v);
      CommonDivisorDividesGcd(d, n, u);
    }
    GcdUnique(g, n, a);
  }

  /** d divides v exactly when it divides |v|. */
  lemma DividesSign(d: int, v: int)
    requires d > 0
    ensures v % d == 0 <==> (if v < 0 then -v else v) % d == 0
  {
    if v % d == 0 {
      DividesLinear(d, v, 0, -1, 0);
    }
    if (-v) % d == 0 {
      DividesLinear(d, -v, 0, -1, 0);
    }
  }

  /** For a divisor d of n, d divides v exactly when it divides v mod n. */
  lemma DividesResidue(d: int, n: int, v: int)
    requires d > 0 && n > 0 && n % d == 0
    ensures v % d == 0 <==> (v % n) % d == 0
  {
    var q := v / n;
    assert v == n * q + v % n;
    if v % d == 0 {
      DividesLinear(d, v, n, 1, -q);
      assert 1 * v + (-q) * n == v % n;
    }
    if (v % n) % d == 0 {
      DividesLinear(d, v % n, n, 1, q);
      assert 1 * (v % n) + q * n == v;
    }
  }

  /** Every buffered prefix is congruent to the true product of the values it covers. */
  lemma {:induction false} PrefixCongruent(n: int, xs: seq<int>, i: nat)
    requires n > 0 && i < |xs|
    ensures Prefix(n, xs, i) % n == Common.Product(xs[..i + 1]) % n
    decreases i
  {
    if i == 0 {
      assert xs[..1] == [xs[0]];
      assert Common.Product([xs[0]]) == xs[0] * Common.Product([]);
    } else {
      PrefixCongruent(n, xs, i - 1);
      ModIdempotent(Prefix(n, xs, i - 1) * xs[i], n);
      CongMul(Prefix(n, xs, i - 1), Common.Product(xs[..i]), xs[i], xs[i], n);
      assert xs[..i + 1] == xs[..i] + [xs[i]];
      Common.ProductSnoc(xs[..i], xs[i]);
    }
  }

  /** Taking the gcd of a buffered prefix gives exactly the gcd of the product it stands for. */
  lemma PrefixAgrees(n: int, xs: seq<int>, i: nat)
    requires n > 0 && i < |xs|
    ensures AbsGcd(n, Prefix(n, xs, i)) == PrefixGcd(n, xs, i)
  {
    PrefixCongruent(n, xs, i);
    AbsGcdResidue(n, Prefix(n, xs, i));
    AbsGcdResidue(n, Common.Product(xs[..i + 1]));
  }

  /** Prefixes of the same values agree, however many more values follow. */
  lemma {:induction false} PrefixStable(n: int, xs: seq<int>, ys: seq<int>, i: nat)
    requires n > 0 && i < |xs|
    ensures Prefix(n, xs + ys, i) == Prefix(n, xs, i)
    decreases i
  {
    if i > 0 {
      PrefixStable(n, xs, ys, i - 1);
    }
  }

  /**
   * g is what the detector reports after the values xs filled the buffer:
   * the gcd of the whole product when that is a proper factor of n, and
   * otherwise the gcd of the first prefix that is not coprime to n.
   */
  ghost predicate Reported(n: int, xs: seq<int>, g: int)
  {
    |xs| > 0 && g != 1 &&
    (PrefixGcd(n, xs, |xs| - 1) != n ==> g == PrefixGcd(n, xs, |xs| - 1)) &&
    (PrefixGcd(n, xs, |xs| - 1) == n ==> FirstShared(n, xs, g))
  }

  /** g is the gcd with n of the first prefix of xs that is not coprime to n. */
  ghost predicate FirstShared(n: int, xs: seq<int>, g: int)
  {
    exists i :: 0 <= i < |xs| && g == PrefixGcd(n, xs, i) && AllCoprime(n, xs, i)
  }

  /** The first k prefixes of xs are coprime to n. */
  ghost predicate AllCoprime(n: int, xs: seq<int>, k: nat)
    requires k <= |xs|
  {
    forall j :: 0 <= j < k ==> PrefixGcd(n, xs, j) == 1
  }

  /** A reported value is a divisor of n above 1: a proper factor, or n itself when the product collapsed. */
  lemma ReportedDivides(n: int, xs: seq<int>, g: int)
    requires n > 0 && Reported(n, xs, g)
    ensures g > 1 && n % g == 0
  {
    var k: nat;
    if PrefixGcd(n, xs, |xs| - 1) != n {
      k := |xs| - 1;
    } else {
      k :| 0 <= k < |xs| && g == PrefixGcd(n, xs, k) && AllCoprime(n, xs, k);
    }
    var u := Common.Product(xs[..k + 1]);
    NumTheory.GcdFactors(n, if u < 0 then -u else u);
  }

  /** The detector: a buffer of gcdCallDelay running products modulo N. */
  class Detector {
    const N: int
    const buf: array<int>
    var pos: int
    /** The values added since the buffer was last emptied. */
    ghost var added: seq<int>

    ghost predicate Valid()
      reads this, buf
    {
      N > 0 && buf.Length > 0 && 0 <= pos <= buf.Length && |added| == pos &&
      forall i :: 0 <= i < pos ==> buf[i] == Prefix(N, added, i)
    }

    constructor (N: int, gcdCallDelay: int)
      requires N > 0 && gcdCallDelay > 0
      ensures Valid() && this.N == N && buf.Length == gcdCallDelay && fresh(buf)
      ensures pos == 0 && added == []
    {
      this.N := N;
      buf := new int[gcdCallDelay];
      pos := 0;
      added := [];
    }

    /**
     * Scans buf[0..n) for the first prefix not coprime to N; the caller knows
     * buf[n - 1] is one, so the scan always ends inside the buffer.
     */
    method Scan(n: int) returns (g: int)
      requires Valid() && 0 < n <= pos && PrefixGcd(N, added, n - 1) != 1
      ensures FirstShared(N, added, g) && g != 1
    {
      var i := 0;
      PrefixAgrees(N, added, 0);
      while AbsGcd(N, buf[i]) == 1
        invariant 0 <= i < n
        invariant AbsGcd(N, buf[i]) == PrefixGcd(N, added, i)
        invariant AllCoprime(N, added, i)
        decreases n - i
      {
        PrefixAgrees(N, added, i + 1);
        i := i + 1;
      }
      g := AbsGcd(N, buf[i]);
    }

    /**
     * Buffers x. Once the buffer is full it reports a divisor of N above 1
     * if the product of the buffered values shares one with N, and
     * otherwise empties the buffer.
     */
    method Add(x: int) returns (r: Option<int>)
      requires Valid() && pos < buf.Length
      modifies this, buf
      ensures Valid()
      ensures old(pos) + 1 < buf.Length ==> r.None? && pos == old(pos) + 1 && added == old(added) + [x]
      ensures old(pos) + 1 == buf.Length ==>
        (r.None? <==> PrefixGcd(N, old(added) + [x], old(pos)) == 1)
      ensures r.None? && old(pos) + 1 == buf.Length ==> pos == 0 && added == []
      ensures r.Some? ==> pos == buf.Length && added == old(added) + [x] && Reported(N, added, r.value)
    {
      var v := if pos == 0 then x else (buf[pos - 1] * x) % N;
      buf[pos] := v;
      forall i | 0 <= i < pos
        ensures Prefix(N, added + [x], i) == Prefix(N, added, i)
      {
        PrefixStable(N, added, [x], i);
      }
      if pos > 0 {
        PrefixStable(N, added, [x], pos - 1);
      }
      added := added + [x];
      pos := pos + 1;
      r := None;
      if pos >= buf.Length {
        var g := AbsGcd(N, buf[buf.Length - 1]);
        PrefixAgrees(N, added, pos - 1);
        if g != 1 {
          if g != N {
            return Some(g);
          }
          g := Scan(pos);
          return Some(g);
        }
        pos := 0;
        added := [];
      }
    }

    /**
     * Finish, as written: a pending partial buffer is judged by its last
     * prefix, but when that gcd is N the call falls through to Add(0),
     * which scans nothing unless the 0 happens to fill the buffer.
     */
    method Finish() returns (r: Option<int>)
      requires Valid() && pos < buf.Length
      modifies this, buf
      ensures Valid()
      ensures old(pos) > 0 && PrefixGcd(N, old(added), old(pos) - 1) == 1 ==>
        r.None? && pos == old(pos) && added == old(added)
      ensures old(pos) > 0 && PrefixGcd(N, old(added), old(pos) - 1) !in {1, N} ==>
        r == Some(PrefixGcd(N, old(added), old(pos) - 1)) && pos == old(pos) && added == old(added)
      ensures old(pos) == 0 || (N != 1 && PrefixGcd(N, old(added), old(pos) - 1) == N) ==>
        if old(pos) + 1 < buf.Length then
          r.None? && pos == old(pos) + 1 && added == old(added) + [0]
        else if N == 1 then
          r.None? && pos == 0 && added == []
        else
          r.Some? && pos == buf.Length && added == old(added) + [0] && Reported(N, added, r.value)
    {
      if pos > 0 {
        var g := AbsGcd(N, buf[pos - 1]);
        PrefixAgrees(N, added, pos - 1);
        if g == 1 {
          return None;
        } else if g != N {
          return Some(g);
        }
      }
      ghost var xs := added + [0];
      r := Add(0);
      if old(pos) + 1 == buf.Length {
        ZeroCollapses(N, xs);
      }
    }

    /**
     * Finish as evidently intended: the pending partial buffer is judged
     * like a full one, scanning its prefixes when the whole product
     * collapsed to a multiple of N. The buffer is left as it is.
     */
    method FinishScanning() returns (r: Option<int>)
      requires Valid()
      ensures r.None? <==> pos == 0 || PrefixGcd(N, added, pos - 1) == 1
      ensures r.Some? ==> Reported(N, added, r.value)
    {
      if pos == 0 {
        return None;
      }
      var g := AbsGcd(N, buf[pos - 1]);
      PrefixAgrees(N, added, pos - 1);
      if g == 1 {
        return None;
      } else if g != N {
        return Some(g);
      }
      g := Scan(pos);
      return Some(g);
    }
  }

  /** A trailing 0 makes the whole product 0, whose gcd with n is n itself. */
  lemma ZeroCollapses(n: int, xs: seq<int>)
    requires n > 0 && |xs| > 0 && xs[|xs| - 1] == 0
    ensures PrefixGcd(n, xs, |xs| - 1) == n
  {
    assert xs[..|xs|] == xs[..|xs| - 1] + [0];
    Common.ProductSnoc(xs[..|xs| - 1], 0);
    GcdZero(n);
  }

  /**
   * Finish as written misses factors: with N = 15 and room for four values,
   * adding 3 and then 5 leaves the product 15, whose gcd with N is N; Finish
   * then adds 0 into the third slot and reports nothing, although the first
   * prefix 3 is a factor of 15 that FinishScanning reports.
   */
  lemma FinishMissesFactor()
    ensures PrefixGcd(15, [3, 5], 1) == 15
    ensures PrefixGcd(15, [3, 5], 0) == 3 && FirstShared(15, [3, 5], 3)
  {
    var xs := [3, 5];
    assert xs[..1] == [3] && xs[..2] == xs;
    assert Common.Product([5]) == 5 * Common.Product([]);
    assert Common.Product([3]) == 3 * Common.Product([]);
    assert Gcd(15, 3) == 3 by {
      assert Gcd(3, 0) == 3;
    }
    assert Gcd(15, 15) == 15 by {
      assert Gcd(15, 0) == 15;
    }
    assert AllCoprime(15, xs, 0);
  }
}
