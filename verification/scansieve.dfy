/**
 * scan/ScanSieve.java: the sieve over the exponents start + j*step of one
 * scan. It keeps the table of primes and one quadratic-residue sieve for even
 * and one for odd exponents; createBitSetGenerator fixes the progression and
 * precomputes, for each prime up to the square root of its last value, the
 * residues of start and step and the inverse of the step; generate then
 * returns the bit set of a window of positions in which a set bit means the
 * value is excluded.
 */
module ScanSieve {
  import opened Wrappers
  import opened Arith
  import opened JavaLang
  import Common
  import ModUtils
  import Primes
  import QRS = QuadraticResidueSieve
  import opened Marking

  /** The message of intValueExact's ArithmeticException. */
  const OUT_OF_INT: string := "BigInteger out of int range"

  /** The table of a Primes object: primes, increasing. */
  ghost predicate PrimeTable(ps: seq<int>)
  {
    && (forall i :: 0 <= i < |ps| ==> IsPrime(ps[i]))
    && (forall i, k :: 0 <= i < k < |ps| ==> ps[i] < ps[k])
  }

  // ------------------------------------------------------------------
  // The constructor
  // ------------------------------------------------------------------

  /** The fields: the primes and the QR sieves for even and odd exponents (null when not asked for). */
  datatype ScanSieve = ScanSieve(primes: seq<int>, evenQR: Option<QRS.Sieve>, oddQR: Option<QRS.Sieve>)

  /** QuadraticResidueSieve.create(n.intValueExact(), precalculated, true). */
  function SieveFor(n: int, precalculated: bool): Result<Option<QRS.Sieve>>
  {
    if n < INT_MIN || INT_MAX < n then Err(OUT_OF_INT)
    else QRS.Created(n, precalculated, true)
  }

  /** A sieve create returns can generate bit sets, and its buffers are there when precalculated. */
  lemma SieveForValid(n: int, precalculated: bool, s: QRS.Sieve)
    requires SieveFor(n, precalculated) == Ok(Some(s))
    ensures QRS.Valid(s) && (precalculated <==> s.buffers.Some?)
  {
    if n != 0 {
      QRS.CreatedValid(n, precalculated, true, s);
    }
  }

  /** Both sieves present are usable. */
  predicate SievesValid(sc: ScanSieve)
  {
    && (sc.evenQR.Some? ==> QRS.Valid(sc.evenQR.value))
    && (sc.oddQR.Some? ==> QRS.Valid(sc.oddQR.value))
  }

  /**
   * new ScanSieve(base, target, primes, qrSievePrecalculated): no sieves for a
   * null flag; otherwise the sieve of target and then that of target*base,
   * failing when either does not fit an int or create fails.
   */
  function New(base: int, target: int, primes: seq<int>, qrSievePrecalculated: Option<bool>): (r: Result<ScanSieve>)
    ensures r.Ok? ==> r.value.primes == primes && SievesValid(r.value)
    ensures qrSievePrecalculated.None? ==> r == Ok(ScanSieve(primes, None, None))
    ensures qrSievePrecalculated.Some? ==>
      (r.Ok? <==> SieveFor(target, qrSievePrecalculated.value).Ok? && SieveFor(target * base, qrSievePrecalculated.value).Ok?)
    ensures qrSievePrecalculated.Some? && r.Ok? ==>
      && r.value.evenQR == SieveFor(target, qrSievePrecalculated.value).value
      && r.value.oddQR == SieveFor(target * base, qrSievePrecalculated.value).value
  {
    match qrSievePrecalculated
    case None => Ok(ScanSieve(primes, None, None))
    case Some(pre) =>
      match SieveFor(target, pre)
      case Err(e) => Err(e)
      case Ok(even) =>
        match SieveFor(target * base, pre)
        case Err(e) => Err(e)
        case Ok(odd) =>
          assert even.Some? ==> QRS.Valid(even.value) by {
            if even.Some? { SieveForValid(target, pre, even.value); }
          }
          assert odd.Some? ==> QRS.Valid(odd.value) by {
            if odd.Some? { SieveForValid(target * base, pre, odd.value); }
          }
          Ok(ScanSieve(primes, even, odd))
  }

  // ------------------------------------------------------------------
  // getInv
  // ------------------------------------------------------------------

  /** v is the inverse of r modulo p in [0, p), and 0 for r == 0. */
  predicate IsInverse(r: int, v: int, p: int)
    requires p > 0
  {
    0 <= v < p && (r == 0 ==> v == 0) && (r != 0 ==> (r * v) % p == 1)
  }

  /** (p-1)^2 == 1 modulo p. */
  lemma MinusOneSquare(p: int)
    requires p >= 2
    ensures ((p - 1) * (p - 1)) % p == 1
  {
    assert (p - 1) * (p - 1) == 1 + p * (p - 2);
    ModAddMultiple(1, p, p - 2);
    ModSmall(1, p);
  }

  /**
   * getInv(r, p): 0, 1 and p - 1 are their own inverses; any other r gets
   * r^(p-2) mod p, its inverse by Fermat's little theorem when p is prime.
   */
  method GetInv(r: int, p: int) returns (v: int)
    requires 0 <= r < p && p >= 2
    ensures 0 <= v < p
    ensures IsPrime(p) ==> IsInverse(r, v, p)
  {
    if r < 2 || r == p - 1 {
      v := r;
      if r == 1 {
        ModSmall(1, p);
      } else if r == p - 1 {
        MinusOneSquare(p);
      }
    } else {
      v := ModUtils.Pow(r, p - 2, p);
      if IsPrime(p) {
        ModSmall(r, p);
        FermatInverse(p, r);
        ModIdempotent(Power(r, p - 2), p);
        CongMul(r, r, Power(r, p - 2), v, p);
      }
    }
  }

  // ------------------------------------------------------------------
  // createBitSetGenerator
  // ------------------------------------------------------------------

  /** The generator's fields, with the primes of the enclosing ScanSieve. */
  datatype Generator = Generator(
    primes: seq<int>, start: int, step: int, qr: Option<QRS.Sieve>,
    startMod: seq<int>, stepMod: seq<int>, inv: seq<int>, toSkip: map<int, int>)

  /** (int) Math.sqrt(maxValue): 0 for a negative value (the root is NaN), at most Integer.MAX_VALUE. */
  function Bound(maxValue: int): (r: int)
    ensures 0 <= r <= INT_MAX
    ensures maxValue >= 0 && r < INT_MAX ==> r * r <= maxValue < (r + 1) * (r + 1)
  {
    if maxValue < 0 then 0
    else
      var s := Primes.ISqrt(maxValue);
      if s > INT_MAX then INT_MAX else s
  }

  /** The last value of the progression, start + step*(length - 1). */
  function MaxValue(start: int, step: int, length: int): int
  {
    start + step * (length - 1)
  }

  /** The largest prime with residues, 0 when there is none. */
  function MaxPrime(g: Generator): int
    requires |g.startMod| <= |g.primes|
  {
    if |g.startMod| == 0 then 0 else g.primes[|g.startMod| - 1]
  }

  /**
   * toSkip: the position of every value of the progression that is at most
   * maxPrime, and nothing else.
   */
  ghost predicate SkipTable(toSkip: map<int, int>, start: int, step: int, maxPrime: int)
  {
    && (forall v :: v in toSkip ==> toSkip[v] >= 0 && Value(start, step, toSkip[v]) == v && v <= maxPrime)
    && (forall t :: t >= 0 && Value(start, step, t) <= maxPrime ==> Value(start, step, t) in toSkip)
  }

  /** The toSkip loop: walk the progression up to maxPrime, recording each value's position. */
  method SkipPositions(start: int, step: int, maxPrime: int) returns (toSkip: map<int, int>)
    requires start >= 0 && step >= 1 && maxPrime <= INT_MAX
    ensures SkipTable(toSkip, start, step, maxPrime)
  {
    toSkip := map[];
    var x := start;
    var i := 0;
    while x <= INT_MAX
      invariant i >= 0 && x == Value(start, step, i)
      invariant forall v :: v in toSkip ==> 0 <= toSkip[v] < i && Value(start, step, toSkip[v]) == v && v <= maxPrime
      invariant forall t :: 0 <= t < i ==> Value(start, step, t) in toSkip
      decreases INT_MAX - x
    {
      if x <= maxPrime {
        toSkip := toSkip[x := i];
      } else {
        break;
      }
      x := x + step;
      i := i + 1;
    }
    forall t | t >= 0 && Value(start, step, t) <= maxPrime
      ensures Value(start, step, t) in toSkip
    {
      if t >= i {
        ValueGrows(start, step, i, t);
      }
    }
  }

  /**
   * What createBitSetGenerator sets up: the residues of start and step and the
   * inverse of the step for each prime it took, and the positions of the
   * values up to the largest of those primes.
   */
  ghost predicate Built(g: Generator)
  {
    && Shaped(g) && PrimeTable(g.primes) && g.step >= 1
    && (forall i :: 0 <= i < |g.startMod| ==>
          && g.startMod[i] == g.start % g.primes[i]
          && g.stepMod[i] == g.step % g.primes[i]
          && IsInverse(g.stepMod[i], g.inv[i], g.primes[i]))
    && SkipTable(g.toSkip, g.start, g.step, MaxPrime(g))
  }

  /** What generate needs to run: equally long arrays over the first primes, and a usable QR sieve. */
  predicate Shaped(g: Generator)
  {
    && |g.startMod| == |g.stepMod| == |g.inv| <= |g.primes|
    && (forall i :: 0 <= i < |g.primes| ==> g.primes[i] >= 2)
    && g.start >= 0 && g.step >= 0
    && (g.qr.Some? ==> QRS.Valid(g.qr.value))
  }

  /** The residues of one prime: the mod of the long branch agrees with BigInteger.mod for these operands. */
  method Residues(start: int, step: int, small: bool, p: int) returns (startMod: int, stepMod: int, inv: int)
    requires start >= 0 && step >= 0 && IsPrime(p)
    ensures startMod == start % p && stepMod == step % p && IsInverse(stepMod, inv, p)
  {
    JavaDivNonneg(start, p);
    JavaDivNonneg(step, p);
    stepMod := if small then JavaRem(step, p) else step % p;
    startMod := if small then JavaRem(start, p) else start % p;
    inv := GetInv(stepMod, p);
  }

  /**
   * createBitSetGenerator(start, step, length, oddPower): residues for the
   * primes up to the square root of the last value, at most length + 1 of
   * them, and the positions of the values up to the largest such prime.
   */
  method CreateBitSetGenerator(sc: ScanSieve, start: int, step: int, length: int, oddPower: bool) returns (g: Generator)
    requires PrimeTable(sc.primes) && SievesValid(sc)
    requires start >= 0 && step >= 1
    ensures Built(g)
    ensures g.primes == sc.primes && g.start == start && g.step == step
    ensures g.qr == if oddPower then sc.oddQR else sc.evenQR
    ensures forall i :: 0 <= i < |g.startMod| ==> sc.primes[i] <= Bound(MaxValue(start, step, length)) && i <= length
    ensures |g.startMod| < |sc.primes| ==>
      sc.primes[|g.startMod|] > Bound(MaxValue(start, step, length)) || |g.startMod| > length
  {
    var bound := Bound(MaxValue(start, step, length));
    var startMods, stepMods, invs, maxPrime := PrimeResidues(sc.primes, start, step, bound, length);
    var toSkip := SkipPositions(start, step, maxPrime);
    g := Generator(sc.primes, start, step, if oddPower then sc.oddQR else sc.evenQR, startMods, stepMods, invs, toSkip);
    assert MaxPrime(g) == maxPrime;
    assert Shaped(g) by {
      forall k | 0 <= k < |sc.primes|
        ensures sc.primes[k] >= 2
      {
        assert IsPrime(sc.primes[k]);
      }
    }
  }

  /** The loop of createBitSetGenerator over the primes: both of its branches give these residues. */
  method PrimeResidues(ps: seq<int>, start: int, step: int, bound: int, length: int)
    returns (startMods: seq<int>, stepMods: seq<int>, invs: seq<int>, maxPrime: int)
    requires PrimeTable(ps) && start >= 0 && step >= 1 && 0 <= bound <= INT_MAX
    ensures |startMods| == |stepMods| == |invs| <= |ps|
    ensures forall k :: 0 <= k < |startMods| ==> ps[k] <= bound && k <= length
    ensures |startMods| < |ps| ==> ps[|startMods|] > bound || |startMods| > length
    ensures forall k :: 0 <= k < |startMods| ==>
      startMods[k] == start % ps[k] && stepMods[k] == step % ps[k] && IsInverse(stepMods[k], invs[k], ps[k])
    ensures maxPrime == (if |startMods| == 0 then 0 else ps[|startMods| - 1]) && maxPrime <= INT_MAX
  {
    var small := start <= Common.MAX_LONG && step <= Common.MAX_LONG;
    startMods, stepMods, invs := [], [], [];
    maxPrime := 0;
    var i := 0;
    while i < |ps| && ps[i] <= bound && i <= length
      invariant 0 <= i <= |ps| && |startMods| == |stepMods| == |invs| == i
      invariant forall k :: 0 <= k < i ==> ps[k] <= bound && k <= length
      invariant forall k :: 0 <= k < i ==>
        startMods[k] == start % ps[k] && stepMods[k] == step % ps[k] && IsInverse(stepMods[k], invs[k], ps[k])
      invariant maxPrime == (if i == 0 then 0 else ps[i - 1]) && maxPrime <= bound
    {
      var p := ps[i];
      var startMod, stepMod, inv := Residues(start, step, small, p);
      startMods := startMods + [startMod];
      stepMods := stepMods + [stepMod];
      invs := invs + [inv];
      maxPrime := p;
      i := i + 1;
    }
  }

  // ------------------------------------------------------------------
  // BitSetGenerator.generate
  // ------------------------------------------------------------------

  /** isDivisor(p) of the generator's QR sieve: the prime is left to that sieve. */
  predicate LeftToQR(g: Generator, i: int)
    requires Shaped(g) && 0 <= i < |g.primes|
  {
    g.qr.Some? && QRS.IsDivisor(g.qr.value, g.primes[i])
  }

  /** The value at position 0 of the window from `from`: start + step*from. */
  function WindowStart(g: Generator, from: int): int
  {
    g.start + g.step * from
  }

  /**
   * The plan for prime i: skipped when left to the QR sieve; otherwise the
   * offset from startModP = (startMod + stepMod*(from mod p)) mod p, and the
   * recorded position of p less from as the position to clear.
   */
  function PlanFor(g: Generator, from: int, i: int): Plan
    requires Shaped(g) && 0 <= i < |g.startMod|
  {
    var p := g.primes[i];
    if LeftToQR(g, i) then Skip
    else
      var startModP := Common.Mod(g.startMod[i] + g.stepMod[i] * Common.Mod(from, p), p);
      var pos := if p in g.toSkip then g.toSkip[p] else -1;
      Prime(p, FirstMultiple(startModP, g.stepMod[i], g.inv[i], p), pos - from)
  }

  function Plans(g: Generator, from: int): (plans: seq<Plan>)
    requires Shaped(g)
    ensures |plans| == |g.startMod| && Positive(plans)
  {
    seq(|g.startMod|, i requires 0 <= i < |g.startMod| => PlanFor(g, from, i))
  }

  /**
   * The bits before the primes, below length: the QR sieve's pattern, null
   * when its cycle excludes everything; all clear without a QR sieve.
   */
  function Initial(g: Generator, from: int, length: nat): (r: Option<seq<bool>>)
    requires Shaped(g)
    ensures r.Some? ==> |r.value| == length
  {
    match g.qr
    case None => Some(seq(length, _ => false))
    case Some(s) =>
      var a := WindowStart(g, from);
      if s.buffers.Some? && QRS.AllSet(QRS.Pattern(s.residue, a, g.step, QRS.BitLen(|s.residue|))) then None
      else Some(QRS.Pattern(s.residue, a, g.step, length))
  }

  /** The first length bits generate(from, length) returns, or null. */
  function Expected(g: Generator, from: int, length: nat): (r: Option<seq<bool>>)
    requires Shaped(g)
  {
    match Initial(g, from, length)
    case None => None
    case Some(init) => SieveAll(init, Plans(g, from), length)
  }

  /** Marking and clearing commute with taking the first length bits. */
  lemma PrefixStep(b: seq<bool>, first: int, p: int, length: nat, c: int)
    requires p > 0 && length <= |b|
    ensures Cleared(Marked(b, first, p, length), c)[..length] == Cleared(Marked(b[..length], first, p, length), c)
  {
  }

  /** One prime of generate, on the bit set as an array. */
  method SievePrime(g: Generator, from: int, length: int, i: int, bits: array<bool>) returns (stop: bool)
    requires Shaped(g) && from >= 0 && 0 <= i < |g.startMod| && 0 <= length <= bits.Length
    modifies bits
    ensures stop <==> Apply(old(bits[..length]), PlanFor(g, from, i), length).None?
    ensures !stop ==> Apply(old(bits[..length]), PlanFor(g, from, i), length) == Some(bits[..length])
  {
    var p := g.primes[i];
    if g.qr.Some? && QRS.IsDivisor(g.qr.value, p) {
      return false;
    }
    var startModP := Common.Mod(g.startMod[i] + g.stepMod[i] * Common.Mod(from, p), p);
    var offset := FirstMultiple(startModP, g.stepMod[i], g.inv[i], p);
    if offset.Always? {
      return true;
    }
    if offset.From? {
      ghost var b := bits[..];
      MarkMultiples(bits, offset.first, p, length);
      var pos := if p in g.toSkip then g.toSkip[p] else -1;
      if pos - from >= 0 && pos - from < bits.Length {
        bits[pos - from] := false;
      }
      assert bits[..] == Cleared(Marked(b, offset.first, p, length), pos - from);
      PrefixStep(b, offset.first, p, length, pos - from);
      assert b[..length] == old(bits[..length]);
    }
    stop := false;
  }

  /** The bit set before the primes: from the QR sieve, or a new empty one; false for null. */
  method InitialBits(g: Generator, from: int, length: int) returns (ok: bool, bits: array<bool>)
    requires Shaped(g) && from >= 0 && 0 <= length <= INT_MAX
    ensures fresh(bits)
    ensures ok <==> Initial(g, from, length).Some?
    ensures ok ==> bits.Length >= length && bits[..length] == Initial(g, from, length).value
  {
    if g.qr.Some? {
      var s := g.qr.value;
      var b := QRS.GenerateBitSet(s, if from == 0 then g.start else g.start + g.step * from, g.step, length);
      if b.None? {
        return false, new bool[0];
      }
      bits := new bool[|b.value|](k requires 0 <= k < |b.value| => b.value[k]);
      forall k | 0 <= k < length
        ensures bits[k] == QRS.Pattern(s.residue, WindowStart(g, from), g.step, length)[k]
      {
        assert bits[k] == b.value[k];
      }
      ok := true;
    } else {
      bits := new bool[length](_ => false);
      ok := true;
    }
  }

  /**
   * generate(from, length): the QR sieve's bit set of the window (null when it
   * excludes everything) or an empty one, then for each prime not left to the
   * QR sieve its positions are set and its own position cleared; null when a
   * prime divides every value.
   */
  method Generate(g: Generator, from: int, length: int) returns (r: Option<seq<bool>>)
    requires Shaped(g) && from >= 0 && 0 <= length <= INT_MAX
    ensures r.None? <==> Expected(g, from, length).None?
    ensures r.Some? ==> |r.value| >= length && r.value[..length] == Expected(g, from, length).value
  {
    var ok, bits := InitialBits(g, from, length);
    if !ok {
      return None;
    }
    ghost var init := Initial(g, from, length).value;
    ghost var plans := Plans(g, from);
    var i := 0;
    while i < |g.startMod|
      invariant 0 <= i <= |g.startMod| && bits.Length >= length
      invariant SieveAll(init, plans[..i], length) == Some(bits[..length])
    {
      SieveAllStep(init, plans, i, length);
      var stop := SievePrime(g, from, length, i, bits);
      if stop {
        NullStays(init, plans, i + 1, length);
        return None;
      }
      i := i + 1;
    }
    assert plans[..i] == plans;
    r := Some(bits[..]);
  }

  // ------------------------------------------------------------------
  // What generate promises
  // ------------------------------------------------------------------

  /** v is one of the primes generate sieves with (those not left to the QR sieve). */
  ghost predicate Sieving(g: Generator, v: int)
    requires Shaped(g)
  {
    exists i :: 0 <= i < |g.startMod| && !LeftToQR(g, i) && g.primes[i] == v
  }

  /** One of the primes generate sieves with divides v. */
  ghost predicate Divisible(g: Generator, v: int)
    requires Shaped(g)
  {
    exists i :: 0 <= i < |g.startMod| && !LeftToQR(g, i) && v % g.primes[i] == 0
  }

  /** Bit j of the QR sieve's pattern for the window; false without a QR sieve. */
  predicate QRExcluded(g: Generator, from: int, j: int)
    requires Shaped(g)
  {
    g.qr.Some? && QRS.Excluded(g.qr.value.residue, WindowStart(g, from), g.step, j)
  }

  /** Position j of the window from `from` holds the progression's value at from + j. */
  lemma ValueShift(start: int, step: int, from: int, j: int)
    ensures Value(start + step * from, step, j) == Value(start, step, from + j)
  {
    assert (from + j) * step == step * from + j * step;
  }

  /** With a positive step, a value occurs at one position only. */
  lemma SamePosition(start: int, step: int, t: int, u: int)
    requires step >= 1 && Value(start, step, t) == Value(start, step, u)
    ensures t == u
  {
    if t < u {
      MulSubDistrib(step, u, t);
      MulAtLeast(step, u - t);
    } else if u < t {
      MulSubDistrib(step, t, u);
      MulAtLeast(step, t - u);
    }
  }

  /** startModP is the residue of the window's first value. */
  lemma StartModP(g: Generator, from: int, i: int)
    requires Built(g) && 0 <= i < |g.startMod|
    ensures Common.Mod(g.startMod[i] + g.stepMod[i] * Common.Mod(from, g.primes[i]), g.primes[i])
      == WindowStart(g, from) % g.primes[i]
  {
    var p := g.primes[i];
    ModIdempotent(g.start, p);
    ModIdempotent(g.step, p);
    ModIdempotent(from, p);
    CongMul(g.stepMod[i], g.step, Common.Mod(from, p), from, p);
    CongAdd(g.startMod[i], g.start, g.stepMod[i] * Common.Mod(from, p), g.step * from, p);
  }

  /** The largest prime with residues bounds all of them. */
  lemma BelowMaxPrime(g: Generator, i: int)
    requires Built(g) && 0 <= i < |g.startMod|
    ensures g.primes[i] <= MaxPrime(g)
  {
  }

  /** The clear position of prime i is the one whose value is the prime. */
  lemma ClearFits(g: Generator, from: int, length: int, i: int)
    requires Built(g) && from >= 0 && 0 <= i < |g.startMod|
    requires PlanFor(g, from, i).Prime?
    ensures var pl := PlanFor(g, from, i);
      && (0 <= pl.clear < length ==> Value(WindowStart(g, from), g.step, pl.clear) == pl.p)
      && (forall j :: 0 <= j < length && Value(WindowStart(g, from), g.step, j) == pl.p ==> pl.clear == j)
  {
    var pl := PlanFor(g, from, i);
    var p := g.primes[i];
    var w := WindowStart(g, from);
    if 0 <= pl.clear < length {
      assert p in g.toSkip;
      ValueShift(g.start, g.step, from, pl.clear);
    }
    forall j | 0 <= j < length && Value(w, g.step, j) == p
      ensures pl.clear == j
    {
      ValueShift(g.start, g.step, from, j);
      BelowMaxPrime(g, i);
      assert Value(g.start, g.step, from + j) in g.toSkip;
      SamePosition(g.start, g.step, g.toSkip[p], from + j);
    }
  }

  /** Each plan of generate does what it should for the window. */
  lemma PlanFits(g: Generator, from: int, length: int, i: int)
    requires Built(g) && from >= 0 && 0 <= i < |g.startMod|
    ensures Fits(PlanFor(g, from, i), WindowStart(g, from), g.step, length)
  {
    var pl := PlanFor(g, from, i);
    if pl.Prime? {
      var p := g.primes[i];
      StartModP(g, from, i);
      OffsetMeaning(WindowStart(g, from), g.step, Common.Mod(g.startMod[i] + g.stepMod[i] * Common.Mod(from, p), p),
        g.stepMod[i], g.inv[i], p);
      ClearFits(g, from, length, i);
    }
  }

  /** All plans of generate fit, and no prime is planned twice. */
  lemma PlansFit(g: Generator, from: int, length: int)
    requires Built(g) && from >= 0
    ensures AllFit(Plans(g, from), WindowStart(g, from), g.step, length) && Distinct(Plans(g, from))
  {
    forall i | 0 <= i < |g.startMod|
      ensures Fits(Plans(g, from)[i], WindowStart(g, from), g.step, length)
    {
      PlanFits(g, from, length, i);
    }
  }

  /**
   * generate returns null exactly when the QR sieve's cycle excludes every
   * position or some prime it sieves with divides both the window's first
   * value and the step, that is every value of the window.
   */
  lemma GenerateNull(g: Generator, from: int, length: nat)
    requires Built(g) && from >= 0
    ensures Expected(g, from, length).None? <==>
      || Initial(g, from, length).None?
      || exists i :: 0 <= i < |g.startMod| && !LeftToQR(g, i) &&
           WindowStart(g, from) % g.primes[i] == 0 && g.step % g.primes[i] == 0
  {
    var plans := Plans(g, from);
    PlansFit(g, from, length);
    if Initial(g, from, length).Some? {
      SieveAllNull(Initial(g, from, length).value, plans, length);
      forall i | 0 <= i < |g.startMod|
        ensures plans[i].Prime? && plans[i].offset.Always? <==>
          !LeftToQR(g, i) && WindowStart(g, from) % g.primes[i] == 0 && g.step % g.primes[i] == 0
      {
        assert Fits(plans[i], WindowStart(g, from), g.step, length);
      }
    }
  }

  /**
   * Below length, generate sets bit j exactly when the value at from + j is
   * not itself one of the sieving primes, and the QR sieve excludes it or
   * one of the sieving primes divides it.
   */
  lemma GenerateMarks(g: Generator, from: int, length: nat, j: int)
    requires Built(g) && from >= 0 && 0 <= j < length
    requires Expected(g, from, length).Some?
    ensures Expected(g, from, length).value[j] ==
      (!Sieving(g, Value(g.start, g.step, from + j)) &&
       (QRExcluded(g, from, j) || Divisible(g, Value(g.start, g.step, from + j))))
  {
    var init := Initial(g, from, length).value;
    var v := Value(g.start, g.step, from + j);
    ValueShift(g.start, g.step, from, j);
    PlansFit(g, from, length);
    var plans := Plans(g, from);
    var r := SieveAll(init, plans, length);
    assert Expected(g, from, length) == r;
    SieveAllMarks(init, plans, WindowStart(g, from), g.step, length, j);
    assert Value(WindowStart(g, from), g.step, j) == v;
    assert init[j] == QRExcluded(g, from, j);
    PlannedPrimes(g, from, v);
    assert r.value[j] == (!Struck(plans, v) && (init[j] || DividedBy(plans, v)));
  }

  /** The primes the plans strike and divide by are the sieving primes. */
  lemma PlannedPrimes(g: Generator, from: int, v: int)
    requires Shaped(g)
    ensures Struck(Plans(g, from), v) == Sieving(g, v)
    ensures DividedBy(Plans(g, from), v) == Divisible(g, v)
  {
    StruckSieving(g, from, v);
    DividedDivisible(g, from, v);
  }

  lemma StruckSieving(g: Generator, from: int, v: int)
    requires Shaped(g)
    ensures Struck(Plans(g, from), v) == Sieving(g, v)
  {
    var plans := Plans(g, from);
    if Struck(plans, v) {
      var i :| 0 <= i < |plans| && plans[i].Prime? && plans[i].p == v;
      assert !LeftToQR(g, i) && g.primes[i] == v;
    }
    if Sieving(g, v) {
      var i :| 0 <= i < |g.startMod| && !LeftToQR(g, i) && g.primes[i] == v;
      assert plans[i].Prime? && plans[i].p == v;
    }
  }

  lemma DividedDivisible(g: Generator, from: int, v: int)
    requires Shaped(g)
    ensures DividedBy(Plans(g, from), v) == Divisible(g, v)
  {
    var plans := Plans(g, from);
    if DividedBy(plans, v) {
      var i :| 0 <= i < |plans| && plans[i].Prime? && plans[i].p > 0 && v % plans[i].p == 0;
      assert !LeftToQR(g, i) && v % g.primes[i] == 0;
    }
    if Divisible(g, v) {
      var i :| 0 <= i < |g.startMod| && !LeftToQR(g, i) && v % g.primes[i] == 0;
      assert plans[i].Prime? && plans[i].p > 0 && v % plans[i].p == 0;
    }
  }
}
