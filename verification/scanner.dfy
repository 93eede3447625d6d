/**
 * scan/Scanner.java: scans the exponents x = C*M for M running through
 * B, B + A, ..., B + (length-1)*A. The range is cut into tasks; each task
 * sieves its window with the quadratic-residue sieve of the parity of C and
 * the small primes, and checks every value the sieve leaves: first
 * base^C == target modulo M, then base^(M*C) == target modulo M*C.
 */
module Scanner {
  import opened Wrappers
  import opened Arith
  import opened JavaLang
  import Common
  import Modules
  import Primes
  import QRS = QuadraticResidueSieve
  import MPC = ModPowCalculator
  import MPCF = ModPowCalculatorFactory
  import ScanSieve
  import opened Marking

  /** The message of the ArithmeticException of an integer division by zero. */
  const DIVIDE_BY_ZERO: string := "/ by zero"

  // ------------------------------------------------------------------
  // The constructor
  // ------------------------------------------------------------------

  /** inv[0] == 0 and inv[j] is the inverse of j modulo p for 0 < j < p. */
  predicate InverseTable(t: seq<int>, p: int)
  {
    && p >= 1 && |t| == p && t[0] == 0
    && forall j :: 1 <= j < p ==> 0 <= t[j] < p && (j * t[j]) % p == 1
  }

  /** The inner loop of the constructor: a new int[p] with inv[j] = pow(j, p-2, p) for 1 <= j < p. */
  method Inverses(p: int) returns (t: seq<int>)
    requires IsPrime(p)
    ensures InverseTable(t, p)
  {
    var inv := new int[p](_ => 0);
    var j := 1;
    while j < p
      invariant 1 <= j <= p && inv[0] == 0
      invariant forall k :: 1 <= k < j ==> 0 <= inv[k] < p && (k * inv[k]) % p == 1
    {
      var v := Modules.Pow(j, p - 2, p);
      assert 0 <= v < p && v % p == Power(j, p - 2) % p by {
        ModIdempotent(Power(j, p - 2), p);
      }
      ModSmall(j, p);
      FermatInverse(p, j);
      CongMul(j, j, v, Power(j, p - 2), p);
      inv[j] := v;
      j := j + 1;
    }
    t := inv[..];
  }

  /**
   * The fields the model keeps: base, target, the sieve bound and length
   * factor, the primes up to the sieve bound with their inverse tables, the
   * thread and task sizes, the QR sieves for even and odd C, and the
   * calculator factory. The executor and the log threshold are left out.
   */
  datatype Scanner = Scanner(
    base: int, target: int, sieveBound: int, sieveLengthFactor: int,
    primes: seq<int>, inv: seq<seq<int>>,
    threadsNumber: int, maxLengthPerTask: int, minParallelLength: int,
    evenQR: Option<QRS.Sieve>, oddQR: Option<QRS.Sieve>, factory: MPCF.Factory)

  /** The primes, increasing, each with its inverse table. */
  ghost predicate Tables(ps: seq<int>, inv: seq<seq<int>>)
  {
    && ScanSieve.PrimeTable(ps)
    && |inv| == |ps|
    && forall i :: 0 <= i < |ps| ==> InverseTable(inv[i], ps[i])
  }

  /** One inverse table of p entries per prime: what indexing the tables needs. */
  predicate Shaped(ps: seq<int>, inv: seq<seq<int>>)
  {
    |inv| == |ps| && forall i :: 0 <= i < |ps| ==> 1 <= ps[i] == |inv[i]|
  }

  /** What running a task needs of the scanner: shaped tables and the two QR sieves. */
  ghost predicate Ready(sc: Scanner)
  {
    && Shaped(sc.primes, sc.inv)
    && (sc.evenQR.Some? ==> QRS.Valid(sc.evenQR.value))
    && (sc.oddQR.Some? ==> QRS.Valid(sc.oddQR.value))
  }

  /** What the constructor establishes: its assertions, the tables and usable sieves and factory. */
  ghost predicate Valid(sc: Scanner)
  {
    && sc.base >= 2 && 0 <= sc.sieveBound <= INT_MAX && INT_MIN <= sc.sieveLengthFactor <= INT_MAX
    && sc.threadsNumber > 0 && sc.maxLengthPerTask >= 2
    && Tables(sc.primes, sc.inv)
    && (forall i :: 0 <= i < |sc.primes| ==> sc.primes[i] <= sc.sieveBound)
    && (sc.evenQR.Some? ==> QRS.Valid(sc.evenQR.value))
    && (sc.oddQR.Some? ==> QRS.Valid(sc.oddQR.value))
    && MPCF.Valid(sc.factory) && sc.factory.base == sc.base
  }

  /**
   * The constructor's loop: the primes of the table while they do not
   * exceed sieveBound, each with its inverse table. These are all the
   * primes of the table up to sieveBound.
   */
  method PrimesUpTo(primes: Primes.Primes, sieveBound: int) returns (ps: seq<int>, inv: seq<seq<int>>)
    requires primes.Valid()
    ensures Tables(ps, inv)
    ensures |ps| <= |primes.table| && ps == primes.table[..|ps|]
    ensures forall i :: 0 <= i < |ps| ==> ps[i] <= sieveBound
    ensures forall x :: x in primes.table && x <= sieveBound ==> x in ps
  {
    ps, inv := [], [];
    var i := 0;
    while i < primes.Size() && primes.Get(i) <= sieveBound
      invariant 0 <= i <= |primes.table| && ps == primes.table[..i] && |inv| == i
      invariant forall k :: 0 <= k < i ==> ps[k] <= sieveBound && InverseTable(inv[k], ps[k])
    {
      var p := primes.Get(i);
      var t := Inverses(p);
      ps := ps + [p];
      inv := inv + [t];
      i := i + 1;
    }
    TablePrefix(primes, i);
    forall x | x in primes.table && x <= sieveBound
      ensures x in ps
    {
      var k :| 0 <= k < |primes.table| && primes.table[k] == x;
      assert ps[k] == x;
    }
  }

  /** A prefix of a Primes table is a table of primes, increasing. */
  lemma TablePrefix(primes: Primes.Primes, n: int)
    requires primes.Valid() && 0 <= n <= |primes.table|
    ensures ScanSieve.PrimeTable(primes.table[..n])
  {
    forall k | 0 <= k < n
      ensures IsPrime(primes.table[k])
    {
      assert primes.table[k] in primes.table;
    }
  }

  /**
   * new Scanner(base, target, sieveBound, sieveLengthFactor, primes, ...,
   * QRSievePrecalculated, modPowCalculatorFactory): the tables, then, unless
   * the flag is null, the QR sieve of target for even C and that of
   * target*base for odd C, failing as ScanSieve's constructor does when
   * either does not fit an int or create fails.
   */
  method New(base: int, target: int, sieveBound: int, sieveLengthFactor: int, primes: Primes.Primes,
             threadsNumber: int, maxLengthPerTask: int, minParallelLength: int,
             qrSievePrecalculated: Option<bool>, factory: MPCF.Factory) returns (r: Result<Scanner>)
    requires base >= 2 && 0 <= sieveBound <= INT_MAX && INT_MIN <= sieveLengthFactor <= INT_MAX
    requires threadsNumber > 0 && maxLengthPerTask >= 2
    requires primes.Valid() && MPCF.Valid(factory) && factory.base == base
    ensures r.Ok? ==> Valid(r.value)
    ensures r.Ok? ==>
      && r.value.base == base && r.value.target == target && r.value.factory == factory
      && r.value.sieveBound == sieveBound && r.value.sieveLengthFactor == sieveLengthFactor
      && r.value.threadsNumber == threadsNumber && r.value.maxLengthPerTask == maxLengthPerTask
      && r.value.minParallelLength == minParallelLength
    ensures r.Ok? ==> forall x :: x in primes.table ==> (x in r.value.primes <==> x <= sieveBound)
    ensures qrSievePrecalculated.None? ==> r.Ok? && r.value.evenQR.None? && r.value.oddQR.None?
    ensures qrSievePrecalculated.Some? ==>
      (r.Ok? <==> ScanSieve.SieveFor(target, qrSievePrecalculated.value).Ok? &&
                  ScanSieve.SieveFor(target * base, qrSievePrecalculated.value).Ok?)
    ensures qrSievePrecalculated.Some? && r.Ok? ==>
      && r.value.evenQR == ScanSieve.SieveFor(target, qrSievePrecalculated.value).value
      && r.value.oddQR == ScanSieve.SieveFor(target * base, qrSievePrecalculated.value).value
  {
    var ps, inv := PrimesUpTo(primes, sieveBound);
    assert forall x :: x in ps ==> x in primes.table;
    var even: Option<QRS.Sieve> := None;
    var odd: Option<QRS.Sieve> := None;
    if qrSievePrecalculated.Some? {
      var pre := qrSievePrecalculated.value;
      var e := ScanSieve.SieveFor(target, pre);
      if e.Err? {
        return Err(e.error);
      }
      var o := ScanSieve.SieveFor(target * base, pre);
      if o.Err? {
        return Err(o.error);
      }
      even, odd := e.value, o.value;
      if even.Some? {
        ScanSieve.SieveForValid(target, pre, even.value);
      }
      if odd.Some? {
        ScanSieve.SieveForValid(target * base, pre, odd.value);
      }
    }
    r := Ok(Scanner(base, target, sieveBound, sieveLengthFactor, ps, inv,
                    threadsNumber, maxLengthPerTask, minParallelLength, even, odd, factory));
  }

  // ------------------------------------------------------------------
  // scan: the split into tasks
  // ------------------------------------------------------------------

  /**
   * tasksNumber: one task when a thread would get fewer than
   * minParallelLength values; otherwise the least multiple of threadsNumber
   * that gives no task more than maxLengthPerTask values.
   */
  function TasksNumber(length: int, threadsNumber: int, maxLengthPerTask: int, minParallelLength: int): (n: int)
    requires length > 0 && threadsNumber > 0 && maxLengthPerTask >= 2
    ensures n >= 1
    ensures length / threadsNumber < minParallelLength ==> n == 1
    ensures length / threadsNumber >= minParallelLength ==>
      && n % threadsNumber == 0
      && n * maxLengthPerTask >= length
      && (n - threadsNumber) * maxLengthPerTask < length
  {
    if length / threadsNumber < minParallelLength then 1
    else
      var k := (length - 1) / maxLengthPerTask + 1;
      var n := RoundUp(k, threadsNumber);
      CeilDiv(length, maxLengthPerTask);
      MulMono(k, n, maxLengthPerTask);
      MulMono(n - threadsNumber, k - 1, maxLengthPerTask);
      n
  }

  /** (length - 1)/m + 1 is length/m rounded up. */
  lemma CeilDiv(length: int, m: int)
    requires length > 0 && m > 0
    ensures ((length - 1) / m + 1) * m >= length && ((length - 1) / m) * m < length
  {
    var q := (length - 1) / m;
    assert length - 1 == m * q + (length - 1) % m;
    assert (q + 1) * m == m * q + m;
  }

  lemma MulMono(a: int, b: int, m: int)
    requires a <= b && m >= 0
    ensures a * m <= b * m
  {
    MulNonneg(b - a, m);
  }

  /** k rounded up to a multiple of t: tasksNumber += t - tasksNumber % t unless it divides. */
  function RoundUp(k: int, t: int): (n: int)
    requires t >= 1
    ensures n % t == 0 && k <= n < k + t
  {
    if k % t != 0 then
      assert k + t - k % t == t * (k / t + 1);
      ModMultiple(t, k / t + 1);
      k + t - k % t
    else k
  }

  /** The length of task i: taskLength + 1 for the first plusOne tasks, taskLength after. */
  function CurLength(taskLength: int, plusOne: int, i: int): int
  {
    if i < plusOne then taskLength + 1 else taskLength
  }

  /** The number of values the first k tasks cover. */
  function Covered(taskLength: int, plusOne: int, k: nat): (c: int)
    ensures taskLength >= 0 && plusOne >= 0 ==> c >= 0
  {
    if k == 0 then 0 else Covered(taskLength, plusOne, k - 1) + CurLength(taskLength, plusOne, k - 1)
  }

  /** The first k tasks cover k*taskLength values plus one for each of them among the first plusOne. */
  lemma {:induction false} CoveredClosedForm(taskLength: int, plusOne: int, k: nat)
    ensures 0 <= plusOne <= k ==> Covered(taskLength, plusOne, k) == k * taskLength + plusOne
    ensures k <= plusOne ==> Covered(taskLength, plusOne, k) == k * (taskLength + 1)
  {
    if k > 0 {
      CoveredClosedForm(taskLength, plusOne, k - 1);
      assert k * taskLength == (k - 1) * taskLength + taskLength;
      assert k * (taskLength + 1) == (k - 1) * (taskLength + 1) + taskLength + 1;
    }
  }

  /**
   * The split: length / tasksNumber values per task (an int) and the
   * remainder spread one by one over the first tasks, so the lengths of the tasks
   * add up to length.
   */
  lemma {:induction false} SplitCovers(length: int, n: int)
    requires length > 0 && n >= 1
    ensures Covered(length / n, length % n, n) == length
    ensures forall i :: 0 <= i < n ==> length / n <= CurLength(length / n, length % n, i) <= length / n + 1
  {
    CoveredClosedForm(length / n, length % n, n);
    assert Covered(length / n, length % n, n) == n * (length / n) + length % n;
  }

  /**
   * primeBound: taskLength*sieveLengthFactor when sieveBound/taskLength
   * exceeds the factor, sieveBound otherwise. The fields sieveBound and
   * sieveLengthFactor are longs holding int values, so the product of the
   * int taskLength and the long factor never wraps. The bound never exceeds
   * sieveBound; with a factor >= 0 it is sieveBound exactly when
   * taskLength*(factor + 1) exceeds it, and the product otherwise.
   */
  function PrimeBound(sieveBound: int, taskLength: int, sieveLengthFactor: int): (b: int)
    requires 0 <= sieveBound <= INT_MAX && taskLength >= 1
    requires INT_MIN <= sieveLengthFactor <= INT_MAX
    ensures b <= sieveBound
    ensures sieveLengthFactor >= 0 ==>
      && 0 <= b
      && (b == sieveBound <==> taskLength * (sieveLengthFactor + 1) > sieveBound)
      && (b < sieveBound ==> b == taskLength * sieveLengthFactor)
  {
    var q := sieveBound / taskLength;
    assert sieveBound == taskLength * q + sieveBound % taskLength;
    if q > sieveLengthFactor then
      MulMono(sieveLengthFactor + 1, q, taskLength);
      if sieveLengthFactor >= 0 then
        MulNonneg(taskLength, sieveLengthFactor);
        taskLength * sieveLengthFactor
      else
        MulAtLeast(taskLength, -sieveLengthFactor);
        taskLength * sieveLengthFactor
    else
      MulMono(q + 1, sieveLengthFactor + 1, taskLength);
      sieveBound
  }

  // ------------------------------------------------------------------
  // generateBitSet
  // ------------------------------------------------------------------

  /** The primes from index i on that the loop takes: it stops at the first one above bound. */
  function PrimeCount(ps: seq<int>, bound: int, i: nat): (k: int)
    requires i <= |ps|
    ensures i <= k <= |ps|
    ensures forall j :: i <= j < k ==> ps[j] <= bound
    ensures k < |ps| ==> ps[k] > bound
    decreases |ps| - i
  {
    if i < |ps| && ps[i] <= bound then PrimeCount(ps, bound, i + 1) else i
  }

  /**
   * The plan for prime i: skipped when it divides the QR sieve's modulus;
   * otherwise the offset from b = start mod p and a = step mod p with the
   * inverse inv[i][a], and the position whose value is p to clear.
   */
  function PlanAt(ps: seq<int>, inv: seq<seq<int>>, qr: Option<QRS.Sieve>, start: int, step: int, i: int): Plan
    requires Shaped(ps, inv) && 0 <= i < |ps| && step >= 1
  {
    var p := ps[i];
    if qr.Some? && QRS.IsDivisor(qr.value, p) then Skip
    else Prime(p, FirstMultiple(start % p, step % p, inv[i][step % p], p), PositionOf(start, step, p))
  }

  function Plans(ps: seq<int>, inv: seq<seq<int>>, qr: Option<QRS.Sieve>, start: int, step: int, bound: int): (plans: seq<Plan>)
    requires Shaped(ps, inv) && step >= 1
    ensures |plans| == PrimeCount(ps, bound, 0) && Positive(plans)
  {
    seq(PrimeCount(ps, bound, 0), i requires 0 <= i < PrimeCount(ps, bound, 0) => PlanAt(ps, inv, qr, start, step, i))
  }

  /**
   * The bits before the primes: the QR sieve's pattern of the window, null
   * when its cycle excludes everything; a new empty bit set without one.
   */
  function Initial(qr: Option<QRS.Sieve>, start: int, step: int, length: nat): (r: Option<seq<bool>>)
    requires qr.Some? ==> QRS.Valid(qr.value)
    ensures r.Some? ==> |r.value| == length
  {
    match qr
    case None => Some(seq(length, _ => false))
    case Some(s) =>
      if s.buffers.Some? && QRS.AllSet(QRS.Pattern(s.residue, start, step, QRS.BitLen(|s.residue|))) then None
      else Some(QRS.Pattern(s.residue, start, step, length))
  }

  /** The first length bits generateBitSet returns, or null. */
  function BitSetOf(ps: seq<int>, inv: seq<seq<int>>, qr: Option<QRS.Sieve>, start: int, step: int,
                    length: nat, bound: int): (r: Option<seq<bool>>)
    requires Shaped(ps, inv) && step >= 1 && (qr.Some? ==> QRS.Valid(qr.value))
    ensures r.Some? ==> |r.value| == length
  {
    match Initial(qr, start, step, length)
    case None => None
    case Some(init) => SieveAll(init, Plans(ps, inv, qr, start, step, bound), length)
  }

  /** toSkip records the position below length of every value up to bound. */
  ghost predicate SkipTable(toSkip: map<int, int>, start: int, step: int, length: int, bound: int)
  {
    && (forall v :: v in toSkip ==> 0 <= toSkip[v] < length && Value(start, step, toSkip[v]) == v)
    && (forall i :: 0 <= i < length && Value(start, step, i) <= bound ==> Value(start, step, i) in toSkip)
  }

  /** The toSkip loop: the values from start while the position is below length and the value within bound. */
  method SkipPositions(start: int, step: int, length: int, bound: int) returns (toSkip: map<int, int>)
    requires step >= 1 && length >= 0
    ensures SkipTable(toSkip, start, step, length, bound)
  {
    toSkip := map[];
    var cur := start;
    var i := 0;
    while i < length && cur <= bound
      invariant 0 <= i <= length && cur == Value(start, step, i)
      invariant forall v :: v in toSkip ==> 0 <= toSkip[v] < i && Value(start, step, toSkip[v]) == v
      invariant forall t :: 0 <= t < i ==> Value(start, step, t) in toSkip
      decreases length - i
    {
      toSkip := toSkip[cur := i];
      cur := cur + step;
      i := i + 1;
    }
    forall t | 0 <= t < length && Value(start, step, t) <= bound
      ensures Value(start, step, t) in toSkip
    {
      if t >= i {
        ValueGrows(start, step, i, t);
      }
    }
  }

  /** A prime up to bound is recorded exactly at its position, when that lies below length. */
  lemma SkipLookup(toSkip: map<int, int>, start: int, step: int, length: int, bound: int, p: int)
    requires step >= 1 && SkipTable(toSkip, start, step, length, bound) && p <= bound
    ensures p in toSkip ==> toSkip[p] == PositionOf(start, step, p)
    ensures p !in toSkip ==> !(0 <= PositionOf(start, step, p) < length)
  {
  }

  /** One prime of generateBitSet on the bit set: null, nothing, or its positions set and its own one cleared. */
  method SievePrime(ps: seq<int>, inv: seq<seq<int>>, qr: Option<QRS.Sieve>, start: int, step: int,
                    length: int, bound: int, toSkip: map<int, int>, i: int, bits: array<bool>) returns (stop: bool)
    requires Shaped(ps, inv) && 0 <= i < |ps| && ps[i] <= bound && start >= 0 && step >= 1
    requires bits.Length == length && SkipTable(toSkip, start, step, length, bound)
    modifies bits
    ensures stop <==> Apply(old(bits[..]), PlanAt(ps, inv, qr, start, step, i), length).None?
    ensures !stop ==> Apply(old(bits[..]), PlanAt(ps, inv, qr, start, step, i), length) == Some(bits[..])
  {
    var p := ps[i];
    if qr.Some? && QRS.IsDivisor(qr.value, p) {
      return false;
    }
    JavaDivNonneg(step, p);
    JavaDivNonneg(start, p);
    var a := if step <= Common.MAX_LONG then JavaRem(step, p) else step % p;
    var b := if start <= Common.MAX_LONG then JavaRem(start, p) else start % p;
    var offset := FirstMultiple(b, a, inv[i][a], p);
    if offset.Always? {
      return true;
    }
    if offset.From? {
      MarkMultiples(bits, offset.first, p, length);
      SkipLookup(toSkip, start, step, length, bound, p);
      if p in toSkip {
        bits[toSkip[p]] := false;
      }
    }
    stop := false;
  }

  /** The bit set before the primes: the QR sieve's, cut to length, or a new empty one; false for null. */
  method InitialBits(qr: Option<QRS.Sieve>, start: int, step: int, length: int) returns (ok: bool, bits: array<bool>)
    requires (qr.Some? ==> QRS.Valid(qr.value)) && start >= 0 && step >= 0 && 0 <= length <= INT_MAX
    ensures fresh(bits)
    ensures ok <==> Initial(qr, start, step, length).Some?
    ensures ok ==> bits[..] == Initial(qr, start, step, length).value
  {
    if qr.Some? {
      var b := QRS.GenerateBitSet(qr.value, start, step, length);
      if b.None? {
        return false, new bool[0];
      }
      bits := new bool[length](k requires 0 <= k < length => b.value[k]);
      ok := true;
    } else {
      bits := new bool[length](_ => false);
      ok := true;
    }
  }

  /** The loop over the primes up to bound: each marks the bit set in turn; true for null. */
  method SievePrimes(ps: seq<int>, inv: seq<seq<int>>, qr: Option<QRS.Sieve>, start: int, step: int,
                     length: int, bound: int, toSkip: map<int, int>, bits: array<bool>) returns (stop: bool)
    requires Shaped(ps, inv) && start >= 0 && step >= 1
    requires bits.Length == length && SkipTable(toSkip, start, step, length, bound)
    modifies bits
    ensures stop <==> SieveAll(old(bits[..]), Plans(ps, inv, qr, start, step, bound), length).None?
    ensures !stop ==> SieveAll(old(bits[..]), Plans(ps, inv, qr, start, step, bound), length) == Some(bits[..])
  {
    ghost var init := bits[..];
    ghost var plans := Plans(ps, inv, qr, start, step, bound);
    var i := 0;
    while i < |ps| && ps[i] <= bound
      invariant 0 <= i <= |plans|
      invariant SieveAll(init, plans[..i], length) == Some(bits[..])
    {
      SieveAllStep(init, plans, i, length);
      stop := SievePrime(ps, inv, qr, start, step, length, bound, toSkip, i, bits);
      if stop {
        NullStays(init, plans, i + 1, length);
        return;
      }
      i := i + 1;
    }
    assert plans[..i] == plans;
    stop := false;
  }

  /**
   * generateBitSet(start, step, length, primeBound, qrSieve): the positions
   * of the progression, below length, that the QR sieve excludes or a prime
   * up to primeBound divides, each prime's own position left clear; null
   * when the QR sieve excludes everything or a prime divides every value.
   */
  method GenerateBitSet(ps: seq<int>, inv: seq<seq<int>>, start: int, step: int, length: int,
                        primeBound: int, qr: Option<QRS.Sieve>) returns (r: Option<seq<bool>>)
    requires Shaped(ps, inv) && start >= 0 && step >= 1 && 0 <= length <= INT_MAX
    requires qr.Some? ==> QRS.Valid(qr.value)
    ensures r == BitSetOf(ps, inv, qr, start, step, length, primeBound)
  {
    var toSkip := SkipPositions(start, step, length, primeBound);
    var ok, bits := InitialBits(qr, start, step, length);
    if !ok {
      return None;
    }
    var stop := SievePrimes(ps, inv, qr, start, step, length, primeBound, toSkip, bits);
    if stop {
      return None;
    }
    r := Some(bits[..]);
  }

  // ------------------------------------------------------------------
  // What generateBitSet promises
  // ------------------------------------------------------------------

  /** Prime i divides the QR sieve's modulus, so the loop skips it. */
  predicate LeftToQR(ps: seq<int>, qr: Option<QRS.Sieve>, i: int)
    requires 0 <= i < |ps| && ps[i] != 0
  {
    qr.Some? && QRS.IsDivisor(qr.value, ps[i])
  }

  /** v is one of the primes generateBitSet sieves with: up to bound and not left to the QR sieve. */
  ghost predicate Sieving(ps: seq<int>, qr: Option<QRS.Sieve>, bound: int, v: int)
    requires ScanSieve.PrimeTable(ps)
  {
    exists i :: 0 <= i < PrimeCount(ps, bound, 0) && !LeftToQR(ps, qr, i) && ps[i] == v
  }

  /** One of the primes generateBitSet sieves with divides v. */
  ghost predicate Divisible(ps: seq<int>, qr: Option<QRS.Sieve>, bound: int, v: int)
    requires ScanSieve.PrimeTable(ps)
  {
    exists i :: 0 <= i < PrimeCount(ps, bound, 0) && !LeftToQR(ps, qr, i) && v % ps[i] == 0
  }

  /** Bit j of the QR sieve's pattern; false without a QR sieve. */
  predicate QRExcluded(qr: Option<QRS.Sieve>, start: int, step: int, j: int)
    requires qr.Some? ==> QRS.Valid(qr.value)
  {
    qr.Some? && QRS.Excluded(qr.value.residue, start, step, j)
  }

  /** Each plan of generateBitSet does what it should for the progression. */
  lemma PlanAtFits(ps: seq<int>, inv: seq<seq<int>>, qr: Option<QRS.Sieve>, start: int, step: int, length: int, i: int)
    requires Tables(ps, inv) && step >= 1 && 0 <= i < |ps|
    ensures Fits(PlanAt(ps, inv, qr, start, step, i), start, step, length)
  {
    var p := ps[i];
    if PlanAt(ps, inv, qr, start, step, i).Prime? {
      OffsetMeaning(start, step, start % p, step % p, inv[i][step % p], p);
    }
  }

  /** All plans fit, and no prime is planned twice. */
  lemma PlansFit(ps: seq<int>, inv: seq<seq<int>>, qr: Option<QRS.Sieve>, start: int, step: int, length: int, bound: int)
    requires Tables(ps, inv) && step >= 1
    ensures AllFit(Plans(ps, inv, qr, start, step, bound), start, step, length)
    ensures Distinct(Plans(ps, inv, qr, start, step, bound))
  {
    var plans := Plans(ps, inv, qr, start, step, bound);
    forall i | 0 <= i < |plans|
      ensures Fits(plans[i], start, step, length)
    {
      PlanAtFits(ps, inv, qr, start, step, length, i);
    }
  }

  /** The primes the plans strike and divide by are the sieving primes. */
  lemma PlannedPrimes(ps: seq<int>, inv: seq<seq<int>>, qr: Option<QRS.Sieve>, start: int, step: int, bound: int, v: int)
    requires Tables(ps, inv) && step >= 1
    ensures Struck(Plans(ps, inv, qr, start, step, bound), v) == Sieving(ps, qr, bound, v)
    ensures DividedBy(Plans(ps, inv, qr, start, step, bound), v) == Divisible(ps, qr, bound, v)
  {
    StruckSieving(ps, inv, qr, start, step, bound, v);
    DividedDivisible(ps, inv, qr, start, step, bound, v);
  }

  lemma StruckSieving(ps: seq<int>, inv: seq<seq<int>>, qr: Option<QRS.Sieve>, start: int, step: int, bound: int, v: int)
    requires Tables(ps, inv) && step >= 1
    ensures Struck(Plans(ps, inv, qr, start, step, bound), v) == Sieving(ps, qr, bound, v)
  {
    var plans := Plans(ps, inv, qr, start, step, bound);
    if Struck(plans, v) {
      var i :| 0 <= i < |plans| && plans[i].Prime? && plans[i].p == v;
      assert !LeftToQR(ps, qr, i) && ps[i] == v;
    }
    if Sieving(ps, qr, bound, v) {
      var i :| 0 <= i < PrimeCount(ps, bound, 0) && !LeftToQR(ps, qr, i) && ps[i] == v;
      assert plans[i].Prime? && plans[i].p == v;
    }
  }

  lemma DividedDivisible(ps: seq<int>, inv: seq<seq<int>>, qr: Option<QRS.Sieve>, start: int, step: int, bound: int, v: int)
    requires Tables(ps, inv) && step >= 1
    ensures DividedBy(Plans(ps, inv, qr, start, step, bound), v) == Divisible(ps, qr, bound, v)
  {
    var plans := Plans(ps, inv, qr, start, step, bound);
    if DividedBy(plans, v) {
      var i :| 0 <= i < |plans| && plans[i].Prime? && plans[i].p > 0 && v % plans[i].p == 0;
      assert !LeftToQR(ps, qr, i) && v % ps[i] == 0;
    }
    if Divisible(ps, qr, bound, v) {
      var i :| 0 <= i < PrimeCount(ps, bound, 0) && !LeftToQR(ps, qr, i) && v % ps[i] == 0;
      assert plans[i].Prime? && plans[i].p > 0 && v % plans[i].p == 0;
    }
  }

  /**
   * generateBitSet returns null exactly when the QR sieve's cycle excludes
   * every position or a prime it sieves with divides both start and step,
   * that is every value.
   */
  lemma BitSetNull(ps: seq<int>, inv: seq<seq<int>>, qr: Option<QRS.Sieve>, start: int, step: int, length: nat, bound: int)
    requires Tables(ps, inv) && step >= 1 && (qr.Some? ==> QRS.Valid(qr.value))
    ensures BitSetOf(ps, inv, qr, start, step, length, bound).None? <==>
      || Initial(qr, start, step, length).None?
      || exists i :: 0 <= i < PrimeCount(ps, bound, 0) && !LeftToQR(ps, qr, i) &&
           start % ps[i] == 0 && step % ps[i] == 0
  {
    var plans := Plans(ps, inv, qr, start, step, bound);
    PlansFit(ps, inv, qr, start, step, length, bound);
    if Initial(qr, start, step, length).Some? {
      SieveAllNull(Initial(qr, start, step, length).value, plans, length);
      forall i | 0 <= i < |plans|
        ensures plans[i].Prime? && plans[i].offset.Always? <==>
          !LeftToQR(ps, qr, i) && start % ps[i] == 0 && step % ps[i] == 0
      {
        assert Fits(plans[i], start, step, length);
      }
    }
  }

  /**
   * Below length, generateBitSet sets bit j exactly when the value at j is
   * not itself one of the sieving primes, and the QR sieve excludes it or
   * one of the sieving primes divides it.
   */
  lemma BitSetMarks(ps: seq<int>, inv: seq<seq<int>>, qr: Option<QRS.Sieve>, start: int, step: int,
                    length: nat, bound: int, j: int)
    requires Tables(ps, inv) && step >= 1 && (qr.Some? ==> QRS.Valid(qr.value)) && 0 <= j < length
    requires BitSetOf(ps, inv, qr, start, step, length, bound).Some?
    ensures BitSetOf(ps, inv, qr, start, step, length, bound).value[j] ==
      (!Sieving(ps, qr, bound, Value(start, step, j)) &&
       (QRExcluded(qr, start, step, j) || Divisible(ps, qr, bound, Value(start, step, j))))
  {
    var init := Initial(qr, start, step, length).value;
    var v := Value(start, step, j);
    var plans := Plans(ps, inv, qr, start, step, bound);
    var r := SieveAll(init, plans, length);
    assert BitSetOf(ps, inv, qr, start, step, length, bound) == r;
    PlansFit(ps, inv, qr, start, step, length, bound);
    SieveAllMarks(init, plans, start, step, length, j);
    assert init[j] == QRExcluded(qr, start, step, j);
    PlannedPrimes(ps, inv, qr, start, step, bound, v);
    assert r.value[j] == (!Struck(plans, v) && (init[j] || DividedBy(plans, v)));
  }

  // ------------------------------------------------------------------
  // Task.run
  // ------------------------------------------------------------------

  /** x solves the problem: base^x == target modulo x. */
  predicate Solves(base: int, target: int, x: int)
    requires x >= 1
  {
    Power(base, x) % x == target % x
  }

  /** The first check of a value M: base^C == target modulo M. */
  predicate PreChecked(base: int, target: int, C: int, M: int)
    requires C >= 0 && M >= 1
  {
    Power(base, C) % M == target % M
  }

  /** M passes both checks of a task: the first one, and M*C solves the problem. */
  predicate Passes(base: int, target: int, C: int, M: int)
    requires C >= 1 && M >= 1
  {
    MulAtLeast(M, C);
    PreChecked(base, target, C, M) && Solves(base, target, M * C)
  }

  /** The QR sieve of a task: multiplier.testBit(0) picks the one for odd C. */
  function QRFor(sc: Scanner, C: int): Option<QRS.Sieve>
  {
    if C % 2 == 1 then sc.oddQR else sc.evenQR
  }

  /** The number of clear bits among the first n: the values a task counts. */
  function Unmarked(bits: seq<bool>, n: nat): (c: nat)
    requires n <= |bits|
    ensures c <= n
  {
    if n == 0 then 0 else Unmarked(bits, n - 1) + (if bits[n - 1] then 0 else 1)
  }

  /** The values at the first n positions a task reports, in order: clear, and when checking, passing both checks. */
  function Reported(bits: seq<bool>, base: int, target: int, C: int, start: int, step: int, check: bool, n: nat): seq<int>
    requires n <= |bits| && C >= 1 && start >= 1 && step >= 1
  {
    if n == 0 then []
    else
      var M := Value(start, step, n - 1);
      MulNonneg(n - 1, step);
      Reported(bits, base, target, C, start, step, check, n - 1) +
        (if !bits[n - 1] && check && Passes(base, target, C, M) then [M] else [])
  }

  /**
   * A value is reported exactly when checking is on and it is the value of a
   * clear position that passes both checks; so every reported M gives the
   * solution M*C.
   */
  lemma {:induction false} ReportedMeaning(bits: seq<bool>, base: int, target: int, C: int, start: int, step: int,
                                           check: bool, n: nat, M: int)
    requires n <= |bits| && C >= 1 && start >= 1 && step >= 1
    ensures M in Reported(bits, base, target, C, start, step, check, n) <==>
      check && M >= 1 && Passes(base, target, C, M) &&
      exists k :: 0 <= k < n && !bits[k] && M == Value(start, step, k)
  {
    if n > 0 {
      ReportedMeaning(bits, base, target, C, start, step, check, n - 1, M);
      MulNonneg(n - 1, step);
      if check && M >= 1 && Passes(base, target, C, M) &&
         exists k :: 0 <= k < n && !bits[k] && M == Value(start, step, k) {
        var k :| 0 <= k < n && !bits[k] && M == Value(start, step, k);
        if k < n - 1 {
          assert exists k' :: 0 <= k' < n - 1 && !bits[k'] && M == Value(start, step, k');
        }
      }
    }
  }

  /**
   * The prefilter loses no prime: for a prime M, base^(M*C) == base^C
   * modulo M by Fermat's little theorem, so a solution M*C passes the first
   * check.
   */
  lemma PrimePassesPreCheck(base: int, target: int, C: int, M: int)
    requires IsPrime(M) && C >= 1 && Solves(base, target, M * C)
    ensures PreChecked(base, target, C, M)
  {
    MulAtLeast(M, C);
    PowerMul(base, M, C);
    Fermat(M, base);
    PowerCong(Power(base, M), base, C, M);
    CongIffDivides(Power(base, M * C), target, M * C);
    DividesTrans(M, M * C, Power(base, M * C) - target);
    CongIffDivides(Power(base, M * C), target, M);
  }

  /**
   * startWithBig: the positions from 0 on whose values fit a long, at most
   * length; (int) min((Long.MAX_VALUE - start)/step, length - 1) + 1.
   */
  function StartWithBig(start: int, step: int, length: int): (n: int)
    requires 0 <= start <= LONG_MAX && 1 <= step <= LONG_MAX && 0 <= length <= INT_MAX
    ensures 0 <= n <= length
    ensures forall i :: 0 <= i < n ==> Value(start, step, i) <= LONG_MAX
    ensures n < length ==> Value(start, step, n) > LONG_MAX
  {
    var q := JavaDiv(LONG_MAX - start, step);
    var n := (if q < length - 1 then q else length - 1) + 1;
    StartWithBigFits(start, step, length, q, n);
    n
  }

  /** The count startWithBig computes from the quotient q: its values fit a long, and the next one does not. */
  lemma StartWithBigFits(start: int, step: int, length: int, q: int, n: int)
    requires 0 <= start <= LONG_MAX && 1 <= step <= LONG_MAX && 0 <= length <= INT_MAX
    requires q == JavaDiv(LONG_MAX - start, step) && n == (if q < length - 1 then q else length - 1) + 1
    ensures 0 <= n <= length
    ensures forall i :: 0 <= i < n ==> Value(start, step, i) <= LONG_MAX
    ensures n < length ==> Value(start, step, n) > LONG_MAX
  {
    JavaDivNonneg(LONG_MAX - start, step);
    assert LONG_MAX - start == step * q + (LONG_MAX - start) % step;
    assert forall i :: 0 <= i < n ==> Value(start, step, i) <= LONG_MAX by {
      forall i | 0 <= i < n
        ensures Value(start, step, i) <= LONG_MAX
      {
        MulMono(i, q, step);
      }
    }
    assert n < length ==> Value(start, step, n) > LONG_MAX by {
      if n < length {
        assert n * step == step * q + step;
      }
    }
  }

  /** The calculator the factory creates for C: it computes base^C. */
  predicate Computes(calculator: MPC.Calculator, base: int, C: int)
    requires C >= 0
  {
    MPC.Built(calculator) && Power(calculator.baseBig, calculator.exp) * calculator.multiplierBig == Power(base, C)
  }

  /**
   * Both checks of a value M: calculate(M) == mod(target, M), then
   * base.modPow(M*C, M*C) == mod(target, M*C); asLong picks the long or
   * BigInteger form of mod, which agree.
   */
  method Check(sc: Scanner, C: int, calculator: MPC.Calculator, M: int, asLong: bool) returns (ok: bool)
    requires C >= 1 && M >= 1 && Computes(calculator, sc.base, C)
    ensures ok == Passes(sc.base, sc.target, C, M)
  {
    var r := MPC.Calculate(calculator, M);
    var targetMod := if asLong then Common.Mod(sc.target, M) else Common.ModBig(sc.target, M);
    if r != targetMod {
      return false;
    }
    var candidate := M * C;
    MulAtLeast(M, C);
    ok := Power(sc.base, candidate) % candidate == Common.ModBig(sc.target, candidate);
  }

  /** What Task.run hands to the consumer: no results and count 0 for a null bit set. */
  function TaskOutcome(sc: Scanner, C: int, start: int, step: int, length: nat, bound: int, check: bool): (seq<int>, nat)
    requires Ready(sc) && C >= 1 && start >= 1 && step >= 1
  {
    var qr := QRFor(sc, C);
    match BitSetOf(sc.primes, sc.inv, qr, start, step, length, bound)
    case None => ([], 0)
    case Some(bits) =>
      (Reported(bits, sc.base, sc.target, C, start, step, check, length), Unmarked(bits, length))
  }

  /** The long loop: positions below startWithBig, values computed as start + step*i in a long. */
  method LongLoop(sc: Scanner, C: int, calculator: MPC.Calculator, bits: seq<bool>, start: int, step: int,
                  check: bool, startWithBig: int) returns (results: seq<int>, counter: nat)
    requires Ready(sc) && C >= 1 && start >= 1 && step >= 1 && Computes(calculator, sc.base, C)
    requires 0 <= startWithBig <= |bits|
    requires forall i :: 0 <= i < startWithBig ==> Value(start, step, i) <= LONG_MAX
    ensures results == Reported(bits, sc.base, sc.target, C, start, step, check, startWithBig)
    ensures counter == Unmarked(bits, startWithBig)
  {
    results, counter := [], 0;
    var i := 0;
    while i < startWithBig
      invariant 0 <= i <= startWithBig
      invariant results == Reported(bits, sc.base, sc.target, C, start, step, check, i)
      invariant counter == Unmarked(bits, i)
    {
      if !bits[i] {
        counter := counter + 1;
        if check {
          var m := start + step * i;
          MulNonneg(i, step);
          var ok := Check(sc, C, calculator, m, true);
          if ok {
            results := results + [m];
          }
        }
      }
      i := i + 1;
    }
  }

  /**
   * The BigInteger loop from startWithBig: M moves to the value of each
   * checked position by adding step*move, taken from the mSteps memo or
   * computed and stored there.
   */
  method BigLoop(sc: Scanner, C: int, calculator: MPC.Calculator, bits: seq<bool>, start: int, step: int,
                 check: bool, startWithBig: int, results0: seq<int>, counter0: nat) returns (results: seq<int>, counter: nat)
    requires Ready(sc) && C >= 1 && start >= 1 && step >= 1 && Computes(calculator, sc.base, C)
    requires 0 <= startWithBig <= |bits|
    requires results0 == Reported(bits, sc.base, sc.target, C, start, step, check, startWithBig)
    requires counter0 == Unmarked(bits, startWithBig)
    ensures results == Reported(bits, sc.base, sc.target, C, start, step, check, |bits|)
    ensures counter == Unmarked(bits, |bits|)
  {
    results, counter := results0, counter0;
    var M := start;
    var prev := 0;
    var mSteps: map<int, int> := map[1 := step];
    var i := startWithBig;
    while i < |bits|
      invariant startWithBig <= i <= |bits| && 0 <= prev <= i
      invariant M == Value(start, step, prev)
      invariant forall k :: k in mSteps ==> mSteps[k] == step * k
      invariant results == Reported(bits, sc.base, sc.target, C, start, step, check, i)
      invariant counter == Unmarked(bits, i)
    {
      if !bits[i] {
        counter := counter + 1;
        if check {
          M, prev, mSteps := Advance(start, step, M, prev, i, mSteps);
          MulNonneg(i, step);
          var ok := Check(sc, C, calculator, M, false);
          if ok {
            results := results + [M];
          }
        }
      }
      i := i + 1;
    }
  }

  /** One move of M in the BigInteger loop: to the value of position i, through the mSteps memo. */
  method Advance(start: int, step: int, M0: int, prev0: int, i: int, mSteps0: map<int, int>)
    returns (M: int, prev: int, mSteps: map<int, int>)
    requires 0 <= prev0 <= i && M0 == Value(start, step, prev0)
    requires forall k :: k in mSteps0 ==> mSteps0[k] == step * k
    ensures prev == i && M == Value(start, step, i)
    ensures forall k :: k in mSteps ==> mSteps[k] == step * k
  {
    M, prev, mSteps := M0, prev0, mSteps0;
    var move := i - prev;
    if move > 0 {
      var addM;
      if move in mSteps {
        addM := mSteps[move];
      } else {
        addM := step * move;
        mSteps := mSteps[move := addM];
      }
      M := M + addM;
      prev := i;
    }
  }

  /**
   * Task.run: the bit set of the window, then the long loop while values fit
   * a long and the BigInteger loop after it; the consumer receives the
   * reported values and the count of clear positions.
   */
  method Run(sc: Scanner, C: int, start: int, step: int, length: int, primeBound: int,
             calculator: MPC.Calculator, check: bool) returns (results: seq<int>, counter: nat)
    requires Ready(sc) && C >= 1 && start >= 1 && step >= 1 && 0 <= length <= INT_MAX
    requires Computes(calculator, sc.base, C)
    ensures (results, counter) == TaskOutcome(sc, C, start, step, length, primeBound, check)
  {
    var bits := GenerateBitSet(sc.primes, sc.inv, start, step, length, primeBound, QRFor(sc, C));
    if bits.None? {
      return [], 0;
    }
    var b := bits.value;
    results, counter := [], 0;
    var startWithBig := 0;
    if start <= Common.MAX_LONG && step <= Common.MAX_LONG {
      startWithBig := StartWithBig(start, step, length);
      results, counter := LongLoop(sc, C, calculator, b, start, step, check, startWithBig);
    }
    if startWithBig < length {
      results, counter := BigLoop(sc, C, calculator, b, start, step, check, startWithBig, results, counter);
    }
  }

  // ------------------------------------------------------------------
  // scan
  // ------------------------------------------------------------------

  /** Task i covers the positions from Covered(.., i) on, so it starts at B + A*Covered(.., i). */
  function TaskStart(A: int, B: int, taskLength: int, plusOne: int, i: nat): (start: int)
    requires A >= 1 && B >= 1 && taskLength >= 0 && plusOne >= 0
    ensures start >= B
  {
    MulNonneg(A, Covered(taskLength, plusOne, i));
    B + A * Covered(taskLength, plusOne, i)
  }

  /** Task i+1 starts one step of A per value of task i after task i: start.add(biggerStep or smallerStep). */
  lemma TaskStartNext(A: int, B: int, taskLength: int, plusOne: int, i: nat)
    requires A >= 1 && B >= 1 && taskLength >= 0 && plusOne >= 0
    ensures TaskStart(A, B, taskLength, plusOne, i + 1) ==
      TaskStart(A, B, taskLength, plusOne, i) + (if i < plusOne then A * taskLength + A else A * taskLength)
  {
    var c := Covered(taskLength, plusOne, i);
    assert Covered(taskLength, plusOne, i + 1) == c + CurLength(taskLength, plusOne, i);
    assert A * (c + CurLength(taskLength, plusOne, i)) == A * c + A * CurLength(taskLength, plusOne, i);
  }

  /** M is one of the first `total` values of the progression B + A*k. */
  ghost predicate InWindow(A: int, B: int, total: int, M: int)
  {
    exists k :: 0 <= k < total && M == Value(B, A, k)
  }

  /** A window of len values starting c0 steps in lies inside the window of c0 + len values. */
  lemma WindowShift(A: int, B: int, c0: int, len: int, M: int)
    requires c0 >= 0 && InWindow(A, B + A * c0, len, M)
    ensures InWindow(A, B, c0 + len, M)
  {
    var k :| 0 <= k < len && M == Value(B + A * c0, A, k);
    assert M == Value(B, A, c0 + k);
  }

  /**
   * Every reported M passed both checks, so M*C is a solution, and M is one
   * of the first `total` values of the progression B + A*k.
   */
  ghost predicate Sound(base: int, target: int, C: int, A: int, B: int, total: int, results: seq<int>)
    requires C >= 1
  {
    forall i :: 0 <= i < |results| ==>
      results[i] >= 1 && Passes(base, target, C, results[i]) && InWindow(A, B, total, results[i])
  }

  /** What one task reports is sound for its own window. */
  lemma ReportedSound(bits: seq<bool>, base: int, target: int, C: int, start: int, step: int, check: bool, n: nat)
    requires n <= |bits| && C >= 1 && start >= 1 && step >= 1
    ensures Sound(base, target, C, step, start, n, Reported(bits, base, target, C, start, step, check, n))
  {
    var rep := Reported(bits, base, target, C, start, step, check, n);
    forall i | 0 <= i < |rep|
      ensures rep[i] >= 1 && Passes(base, target, C, rep[i]) && InWindow(step, start, n, rep[i])
    {
      ReportedMeaning(bits, base, target, C, start, step, check, n, rep[i]);
    }
  }

  /** One task reports only solutions from its own window. */
  lemma TaskSound(sc: Scanner, C: int, start: int, A: int, len: nat, bound: int, check: bool)
    requires Ready(sc) && C >= 1 && A >= 1 && start >= 1
    ensures Sound(sc.base, sc.target, C, A, start, len, TaskOutcome(sc, C, start, A, len, bound, check).0)
  {
    match BitSetOf(sc.primes, sc.inv, QRFor(sc, C), start, A, len, bound)
    case None =>
    case Some(bits) =>
      ReportedSound(bits, sc.base, sc.target, C, start, A, check, len);
  }

  /** One task counts at most its length. */
  lemma TaskCount(sc: Scanner, C: int, start: int, A: int, len: nat, bound: int, check: bool)
    requires Ready(sc) && C >= 1 && A >= 1 && start >= 1
    ensures TaskOutcome(sc, C, start, A, len, bound, check).1 <= len
  {
  }

  /** Sound results of the first tasks and of the next one join into sound results of all of them. */
  lemma SoundJoin(base: int, target: int, C: int, A: int, B: int, c0: int, len: int, before: seq<int>, task: seq<int>)
    requires C >= 1 && c0 >= 0 && len >= 0
    requires Sound(base, target, C, A, B, c0, before) && Sound(base, target, C, A, B + A * c0, len, task)
    ensures Sound(base, target, C, A, B, c0 + len, before + task)
  {
    var out := before + task;
    forall i | 0 <= i < |out|
      ensures out[i] >= 1 && Passes(base, target, C, out[i]) && InWindow(A, B, c0 + len, out[i])
    {
      if i < |before| {
        assert out[i] == before[i];
        var k :| 0 <= k < c0 && before[i] == Value(B, A, k);
        assert 0 <= k < c0 + len;
      } else {
        assert out[i] == task[i - |before|];
        WindowShift(A, B, c0, len, out[i]);
      }
    }
  }

  /** Integer division of a count by a larger one gives 0, and only then. */
  lemma DivIsZero(a: int, n: int)
    requires a >= 0 && n >= 1
    ensures a / n == 0 <==> a < n
  {
    if a < n {
      DivModUnique(a, n, 0, a);
    }
  }

  /** Task i of the split: what Task.run of the task starting at TaskStart(.., i) with CurLength(.., i) values hands on. */
  ghost function TaskOf(sc: Scanner, C: int, A: int, B: int, taskLength: int, plusOne: int, bound: int, check: bool, i: nat)
    : (seq<int>, nat)
  {
    if Ready(sc) && C >= 1 && A >= 1 && B >= 1 && taskLength >= 0 && plusOne >= 0 then
      TaskOutcome(sc, C, TaskStart(A, B, taskLength, plusOne, i), A, CurLength(taskLength, plusOne, i), bound, check)
    else ([], 0)
  }

  /** The outcomes of the first n tasks, in task order. */
  ghost function Tasks(sc: Scanner, C: int, A: int, B: int, taskLength: int, plusOne: int, bound: int, check: bool, n: nat)
    : (ts: seq<(seq<int>, nat)>)
    ensures |ts| == n
  {
    if n == 0 then []
    else
      Tasks(sc, C, A, B, taskLength, plusOne, bound, check, n - 1) +
        [TaskOf(sc, C, A, B, taskLength, plusOne, bound, check, n - 1)]
  }

  /** Entry i of the outcomes of the first n tasks is the outcome of task i. */
  lemma {:induction false} TasksAt(sc: Scanner, C: int, A: int, B: int, taskLength: int, plusOne: int, bound: int,
                                   check: bool, n: nat, i: nat)
    requires i < n
    ensures Tasks(sc, C, A, B, taskLength, plusOne, bound, check, n)[i] ==
      TaskOf(sc, C, A, B, taskLength, plusOne, bound, check, i)
  {
    if i < n - 1 {
      TasksAt(sc, C, A, B, taskLength, plusOne, bound, check, n - 1, i);
    }
  }

  /** What tasks hand to one consumer, one task after the other: their results joined, their counts added. */
  function Joined(ts: seq<(seq<int>, nat)>): (seq<int>, nat)
  {
    if |ts| == 0 then ([], 0)
    else
      var before := Joined(ts[..|ts| - 1]);
      (before.0 + ts[|ts| - 1].0, before.1 + ts[|ts| - 1].1)
  }

  /** One more task appends its results and adds its count. */
  lemma JoinedSnoc(ts: seq<(seq<int>, nat)>, t: (seq<int>, nat))
    ensures Joined(ts + [t]) == (Joined(ts).0 + t.0, Joined(ts).1 + t.1)
  {
    assert (ts + [t])[..|ts|] == ts;
  }

  /** Handing on one more outcome after the joined outcome of ts gives the joined outcome of ts + [t]. */
  lemma JoinedStep(ts: seq<(seq<int>, nat)>, t: (seq<int>, nat), ts': seq<(seq<int>, nat)>, before: (seq<int>, nat), after: (seq<int>, nat))
    requires ts' == ts + [t] && before == Joined(ts) && after == (before.0 + t.0, before.1 + t.1)
    ensures after == Joined(ts')
  {
    JoinedSnoc(ts, t);
  }

  /** Handing on task i after the outcome of tasks 0 to i-1 gives the outcome of tasks 0 to i. */
  lemma TasksStep(sc: Scanner, C: int, A: int, B: int, taskLength: int, plusOne: int, bound: int, check: bool, i: nat,
                  before: (seq<int>, nat), after: (seq<int>, nat))
    requires before == Joined(Tasks(sc, C, A, B, taskLength, plusOne, bound, check, i))
    requires after == (before.0 + TaskOf(sc, C, A, B, taskLength, plusOne, bound, check, i).0,
                       before.1 + TaskOf(sc, C, A, B, taskLength, plusOne, bound, check, i).1)
    ensures after == Joined(Tasks(sc, C, A, B, taskLength, plusOne, bound, check, i + 1))
  {
    JoinedStep(Tasks(sc, C, A, B, taskLength, plusOne, bound, check, i), TaskOf(sc, C, A, B, taskLength, plusOne, bound, check, i),
               Tasks(sc, C, A, B, taskLength, plusOne, bound, check, i + 1), before, after);
  }

  /**
   * The first n tasks together report only solutions from the window of
   * the values they cover, and count at most that many values.
   */
  lemma {:induction false} TasksSound(sc: Scanner, C: int, A: int, B: int, taskLength: int, plusOne: int, bound: int,
                                      check: bool, n: nat)
    requires Ready(sc) && C >= 1 && A >= 1 && B >= 1 && taskLength >= 0 && plusOne >= 0
    ensures Sound(sc.base, sc.target, C, A, B, Covered(taskLength, plusOne, n),
                  Joined(Tasks(sc, C, A, B, taskLength, plusOne, bound, check, n)).0)
    ensures Joined(Tasks(sc, C, A, B, taskLength, plusOne, bound, check, n)).1 <= Covered(taskLength, plusOne, n)
  {
    if n > 0 {
      var init := Tasks(sc, C, A, B, taskLength, plusOne, bound, check, n - 1);
      var before := Joined(init);
      TasksSound(sc, C, A, B, taskLength, plusOne, bound, check, n - 1);
      TasksSoundStep(sc, C, A, B, taskLength, plusOne, bound, check, n - 1, before.0, before.1);
      JoinedSnoc(init, TaskOf(sc, C, A, B, taskLength, plusOne, bound, check, n - 1));
    }
  }

  /** Task i, reported after sound results of tasks 0 to i-1, keeps them sound and the count within bounds. */
  lemma TasksSoundStep(sc: Scanner, C: int, A: int, B: int, taskLength: int, plusOne: int, bound: int,
                       check: bool, i: nat, before: seq<int>, count: nat)
    requires Ready(sc) && C >= 1 && A >= 1 && B >= 1 && taskLength >= 0 && plusOne >= 0
    requires Sound(sc.base, sc.target, C, A, B, Covered(taskLength, plusOne, i), before)
    requires count <= Covered(taskLength, plusOne, i)
    ensures Sound(sc.base, sc.target, C, A, B, Covered(taskLength, plusOne, i + 1),
                  before + TaskOf(sc, C, A, B, taskLength, plusOne, bound, check, i).0)
    ensures count + TaskOf(sc, C, A, B, taskLength, plusOne, bound, check, i).1 <= Covered(taskLength, plusOne, i + 1)
  {
    var start := TaskStart(A, B, taskLength, plusOne, i);
    var len := CurLength(taskLength, plusOne, i);
    TaskSound(sc, C, start, A, len, bound, check);
    TaskCount(sc, C, start, A, len, bound, check);
    SoundJoin(sc.base, sc.target, C, A, B, Covered(taskLength, plusOne, i), len, before,
              TaskOf(sc, C, A, B, taskLength, plusOne, bound, check, i).0);
  }

  /** A value is among the joined results exactly when one of the tasks reports it. */
  lemma {:induction false} JoinedMembers(ts: seq<(seq<int>, nat)>, M: int)
    ensures M in Joined(ts).0 <==> exists i :: 0 <= i < |ts| && M in ts[i].0
  {
    if |ts| > 0 {
      var init := ts[..|ts| - 1];
      JoinedMembers(init, M);
      if exists i :: 0 <= i < |ts| && M in ts[i].0 {
        var i :| 0 <= i < |ts| && M in ts[i].0;
        if i < |ts| - 1 {
          assert M in init[i].0;
        }
      }
      if exists i :: 0 <= i < |init| && M in init[i].0 {
        var i :| 0 <= i < |init| && M in init[i].0;
        assert M in ts[i].0;
      }
    }
  }

  /** Task i of scan run, its results and count handed to the consumer after those of tasks 0 to i-1. */
  method RunTask(sc: Scanner, C: int, A: int, B: int, taskLength: int, plusOne: int, i: nat, start: int, curLength: int,
                 primeBound: int, calculator: MPC.Calculator, check: bool, before: (seq<int>, nat))
    returns (after: (seq<int>, nat))
    requires Ready(sc) && C >= 1 && A >= 1 && B >= 1 && 0 <= taskLength < INT_MAX && plusOne >= 0
    requires Computes(calculator, sc.base, C)
    requires start == TaskStart(A, B, taskLength, plusOne, i) && curLength == CurLength(taskLength, plusOne, i)
    ensures after == (before.0 + TaskOf(sc, C, A, B, taskLength, plusOne, primeBound, check, i).0,
                      before.1 + TaskOf(sc, C, A, B, taskLength, plusOne, primeBound, check, i).1)
  {
    var taskResults, taskCount := Run(sc, C, start, A, curLength, primeBound, calculator, check);
    after := (before.0 + taskResults, before.1 + taskCount);
  }

  /**
   * scan, with its tasks run one after the other: it fails exactly when
   * there are more tasks than values, dividing by a task length of 0;
   * otherwise it hands on the results of its tasks joined and their counts
   * added, so a value is reported exactly when one task reports it; every
   * reported M lies among the window's B + A*k for k < length and its
   * multiple M*C is a solution, and at most `length` values are counted.
   */
  method Scan(sc: Scanner, C: int, A: int, B: int, length: int, check: bool) returns (r: Result<(seq<int>, nat)>)
    requires Valid(sc) && C >= 1 && A >= 1 && B >= 1 && length > 0
    requires length / TasksNumber(length, sc.threadsNumber, sc.maxLengthPerTask, sc.minParallelLength) < INT_MAX
    ensures r.Err? <==> length < TasksNumber(length, sc.threadsNumber, sc.maxLengthPerTask, sc.minParallelLength)
    ensures r.Err? ==> r.error == DIVIDE_BY_ZERO
    ensures r.Ok? ==> Sound(sc.base, sc.target, C, A, B, length, r.value.0) && r.value.1 <= length
    ensures r.Ok? ==>
      var n := TasksNumber(length, sc.threadsNumber, sc.maxLengthPerTask, sc.minParallelLength);
      length / n >= 1 &&
      r.value == Joined(Tasks(sc, C, A, B, length / n, length % n,
                              PrimeBound(sc.sieveBound, length / n, sc.sieveLengthFactor), check, n))
    ensures r.Ok? ==>
      var n := TasksNumber(length, sc.threadsNumber, sc.maxLengthPerTask, sc.minParallelLength);
      forall M :: M in r.value.0 <==>
        exists i :: 0 <= i < n && M in TaskOf(sc, C, A, B, length / n, length % n,
                                              PrimeBound(sc.sieveBound, length / n, sc.sieveLengthFactor), check, i).0
  {
    var n := TasksNumber(length, sc.threadsNumber, sc.maxLengthPerTask, sc.minParallelLength);
    var taskLength := length / n;
    var plusOne := length % n;
    DivIsZero(length, n);
    if taskLength == 0 {
      return Err(DIVIDE_BY_ZERO);
    }
    var primeBound := PrimeBound(sc.sieveBound, taskLength, sc.sieveLengthFactor);
    var calculator := MPCF.CreateCalculator(sc.factory, C);
    var outcome := RunTasks(sc, C, A, B, taskLength, plusOne, n, primeBound, calculator, check);
    SplitCovers(length, n);
    TasksSound(sc, C, A, B, taskLength, plusOne, primeBound, check, n);
    TasksMembers(sc, C, A, B, taskLength, plusOne, primeBound, check, n);
    return Ok(outcome);
  }

  /** A value is among the joined results of the first n tasks exactly when one of those tasks reports it. */
  lemma TasksMembers(sc: Scanner, C: int, A: int, B: int, taskLength: int, plusOne: int, bound: int, check: bool, n: nat)
    ensures forall M :: M in Joined(Tasks(sc, C, A, B, taskLength, plusOne, bound, check, n)).0 <==>
      exists i :: 0 <= i < n && M in TaskOf(sc, C, A, B, taskLength, plusOne, bound, check, i).0
  {
    forall M {
      JoinedMembers(Tasks(sc, C, A, B, taskLength, plusOne, bound, check, n), M);
    }
    forall i | 0 <= i < n {
      TasksAt(sc, C, A, B, taskLength, plusOne, bound, check, n, i);
    }
  }

  /** The tasks of scan, created with their starts and lengths and run in order. */
  method RunTasks(sc: Scanner, C: int, A: int, B: int, taskLength: int, plusOne: int, n: nat, primeBound: int,
                  calculator: MPC.Calculator, check: bool) returns (outcome: (seq<int>, nat))
    requires Ready(sc) && C >= 1 && A >= 1 && B >= 1 && 0 <= taskLength < INT_MAX && plusOne >= 0
    requires Computes(calculator, sc.base, C)
    ensures outcome == Joined(Tasks(sc, C, A, B, taskLength, plusOne, primeBound, check, n))
  {
    outcome := ([], 0);
    var start := B;
    var smallerStep := A * taskLength;
    var biggerStep := smallerStep + A;
    var i := 0;
    while i < n
      invariant 0 <= i <= n
      invariant start == TaskStart(A, B, taskLength, plusOne, i)
      invariant outcome == Joined(Tasks(sc, C, A, B, taskLength, plusOne, primeBound, check, i))
    {
      outcome, start := NextTask(sc, C, A, B, taskLength, plusOne, i, start, smallerStep, biggerStep,
                                 primeBound, calculator, check, outcome);
      i := i + 1;
    }
  }

  /** One turn of the task loop of scan: task i is created, run and handed on, and the start moves past it. */
  method NextTask(sc: Scanner, C: int, A: int, B: int, taskLength: int, plusOne: int, i: nat, start: int,
                  smallerStep: int, biggerStep: int, primeBound: int, calculator: MPC.Calculator, check: bool,
                  before: (seq<int>, nat))
    returns (after: (seq<int>, nat), next: int)
    requires Ready(sc) && C >= 1 && A >= 1 && B >= 1 && 0 <= taskLength < INT_MAX && plusOne >= 0
    requires Computes(calculator, sc.base, C)
    requires start == TaskStart(A, B, taskLength, plusOne, i)
    requires smallerStep == A * taskLength && biggerStep == smallerStep + A
    requires before == Joined(Tasks(sc, C, A, B, taskLength, plusOne, primeBound, check, i))
    ensures next == TaskStart(A, B, taskLength, plusOne, i + 1)
    ensures after == Joined(Tasks(sc, C, A, B, taskLength, plusOne, primeBound, check, i + 1))
  {
    var curLength := if i < plusOne then taskLength + 1 else taskLength;
    after := RunTask(sc, C, A, B, taskLength, plusOne, i, start, curLength, primeBound, calculator, check, before);
    TasksStep(sc, C, A, B, taskLength, plusOne, primeBound, check, i, before, after);
    TaskStartNext(A, B, taskLength, plusOne, i);
    next := start + (if i < plusOne then biggerStep else smallerStep);
  }
}
