/**
 * Scanner.java (the default package): the first version of the scanner.
 * It cuts the range of values B + k*A into tasks the same way and sieves
 * each window with the small primes only (no quadratic-residue sieve), then
 * checks every value the sieve leaves with BigInteger arithmetic alone.
 */
module OldScanner {
  import opened Wrappers
  import opened Arith
  import opened JavaLang
  import Common
  import Modules
  import Primes
  import S = Scanner
  import opened Marking

  /** The scanner's fields that the scan reads; the executor and the log threshold are left out. */
  datatype Scanner = Scanner(
    base: int, target: int, sieveBound: int, sieveLengthFactor: int,
    primes: seq<int>, inv: seq<seq<int>>,
    threadsNumber: int, maxLengthPerTask: int, minParallelLength: int)

  /** What the constructor establishes: the asserted bounds and the prime and inverse tables up to sieveBound. */
  ghost predicate Valid(sc: Scanner)
  {
    && 0 <= sc.sieveBound <= INT_MAX && INT_MIN <= sc.sieveLengthFactor <= INT_MAX
    && sc.threadsNumber > 0 && sc.maxLengthPerTask >= 2
    && S.Tables(sc.primes, sc.inv)
    && (forall i :: 0 <= i < |sc.primes| ==> sc.primes[i] <= sc.sieveBound)
  }

  /**
   * The constructor: the primes of the table up to sieveBound, each with its
   * table of inverses pow(j, p-2, p), built by the same loop as the newer
   * scanner's.
   */
  method New(base: int, target: int, sieveBound: int, sieveLengthFactor: int, primes: Primes.Primes,
             threadsNumber: int, maxLengthPerTask: int, minParallelLength: int) returns (sc: Scanner)
    requires 0 <= sieveBound <= INT_MAX && INT_MIN <= sieveLengthFactor <= INT_MAX
    requires threadsNumber > 0 && maxLengthPerTask >= 2
    requires primes.Valid()
    ensures Valid(sc)
    ensures && sc.base == base && sc.target == target
            && sc.sieveBound == sieveBound && sc.sieveLengthFactor == sieveLengthFactor
            && sc.threadsNumber == threadsNumber && sc.maxLengthPerTask == maxLengthPerTask
            && sc.minParallelLength == minParallelLength
    ensures forall x :: x in primes.table ==> (x in sc.primes <==> x <= sieveBound)
  {
    var ps, inv := S.PrimesUpTo(primes, sieveBound);
    sc := Scanner(base, target, sieveBound, sieveLengthFactor, ps, inv, threadsNumber, maxLengthPerTask, minParallelLength);
  }

  /**
   * The prime bound of a task: sieveBound and sieveLengthFactor are longs
   * here, so taskLength*sieveLengthFactor does not wrap. Primes up to about
   * sieveLengthFactor times the length of a task are sieved, and never more than
   * sieveBound.
   */
  function PrimeBound(sieveBound: int, taskLength: int, sieveLengthFactor: int): (b: int)
    requires 0 <= sieveBound && taskLength >= 1
    ensures b <= sieveBound
    ensures sieveLengthFactor >= 0 ==>
      && 0 <= b
      && (b == sieveBound <==> taskLength * (sieveLengthFactor + 1) > sieveBound)
      && (b < sieveBound ==> b == taskLength * sieveLengthFactor)
  {
    var q := sieveBound / taskLength;
    assert sieveBound == taskLength * q + sieveBound % taskLength;
    if q > sieveLengthFactor then
      S.MulMono(sieveLengthFactor + 1, q, taskLength);
      if sieveLengthFactor >= 0 then
        MulNonneg(taskLength, sieveLengthFactor);
        taskLength * sieveLengthFactor
      else
        MulAtLeast(taskLength, -sieveLengthFactor);
        taskLength * sieveLengthFactor
    else
      S.MulMono(q + 1, sieveLengthFactor + 1, taskLength);
      sieveBound
  }

  /** generateBitSet: the newer scanner's procedure without a quadratic-residue sieve. */
  method GenerateBitSet(sc: Scanner, start: int, step: int, length: int, primeBound: int) returns (r: Option<seq<bool>>)
    requires S.Shaped(sc.primes, sc.inv) && start >= 0 && step >= 1 && 0 <= length <= INT_MAX
    ensures r == S.BitSetOf(sc.primes, sc.inv, None, start, step, length, primeBound)
  {
    r := S.GenerateBitSet(sc.primes, sc.inv, start, step, length, primeBound, None);
  }

  /** What Task.run hands to the consumer: an empty array and count 0 for a null bit set. */
  function TaskOutcome(sc: Scanner, C: int, start: int, step: int, length: nat, bound: int): (seq<int>, nat)
    requires S.Shaped(sc.primes, sc.inv) && C >= 1 && start >= 1 && step >= 1
  {
    match S.BitSetOf(sc.primes, sc.inv, None, start, step, length, bound)
    case None => ([], 0)
    case Some(bits) => (S.Reported(bits, sc.base, sc.target, C, start, step, true, length), S.Unmarked(bits, length))
  }

  /**
   * Both checks of a value M, each as mod(pow(..) - target, ..) == 0:
   * base^C == target modulo M, then base^(M*C) == target modulo M*C.
   */
  method Check(sc: Scanner, C: int, M: int) returns (ok: bool)
    requires C >= 1 && M >= 1
    ensures ok == S.Passes(sc.base, sc.target, C, M)
  {
    var r := Modules.PowBig(sc.base, C, M);
    CongIffDivides(r, sc.target, M);
    if Common.ModBig(r - sc.target, M) != 0 {
      return false;
    }
    var candidate := M * C;
    MulAtLeast(M, C);
    var r2 := Modules.PowBig(sc.base, candidate, candidate);
    CongIffDivides(r2, sc.target, candidate);
    ok := Common.ModBig(r2 - sc.target, candidate) == 0;
  }

  /** The loop of Task.run: every clear position is counted, M moves to its value, and both checks run. */
  method CheckAll(sc: Scanner, C: int, bits: seq<bool>, start: int, step: int) returns (results: seq<int>, counter: nat)
    requires C >= 1 && start >= 1 && step >= 1
    ensures results == S.Reported(bits, sc.base, sc.target, C, start, step, true, |bits|)
    ensures counter == S.Unmarked(bits, |bits|)
  {
    var M := start;
    var mSteps: map<int, int> := map[1 := step];
    results, counter := [], 0;
    var prev := 0;
    var i := 0;
    while i < |bits|
      invariant 0 <= prev <= i <= |bits|
      invariant M == Value(start, step, prev)
      invariant forall k :: k in mSteps ==> mSteps[k] == step * k
      invariant results == S.Reported(bits, sc.base, sc.target, C, start, step, true, i)
      invariant counter == S.Unmarked(bits, i)
    {
      if !bits[i] {
        M, prev, mSteps := S.Advance(start, step, M, prev, i, mSteps);
        counter := counter + 1;
        MulNonneg(i, step);
        var ok := Check(sc, C, M);
        if ok {
          results := results + [M];
        }
      }
      i := i + 1;
    }
  }

  /** Task.run: the bit set of the window, then the checks of every value it leaves. */
  method Run(sc: Scanner, C: int, start: int, step: int, length: int, primeBound: int)
    returns (results: seq<int>, counter: nat)
    requires S.Shaped(sc.primes, sc.inv) && C >= 1 && start >= 1 && step >= 1 && 0 <= length <= INT_MAX
    ensures (results, counter) == TaskOutcome(sc, C, start, step, length, primeBound)
  {
    var bits := GenerateBitSet(sc, start, step, length, primeBound);
    if bits.None? {
      return [], 0;
    }
    results, counter := CheckAll(sc, C, bits.value, start, step);
  }

  /** Every task reports only solutions from its window and counts at most its length. */
  lemma TaskSound(sc: Scanner, C: int, start: int, A: int, len: nat, bound: int)
    requires S.Shaped(sc.primes, sc.inv) && C >= 1 && A >= 1 && start >= 1
    ensures S.Sound(sc.base, sc.target, C, A, start, len, TaskOutcome(sc, C, start, A, len, bound).0)
    ensures TaskOutcome(sc, C, start, A, len, bound).1 <= len
  {
    match S.BitSetOf(sc.primes, sc.inv, None, start, A, len, bound)
    case None =>
    case Some(bits) =>
      S.ReportedSound(bits, sc.base, sc.target, C, start, A, true, len);
  }

  /** Task i of the split: what Task.run of the task starting at TaskStart(.., i) with CurLength(.., i) values hands on. */
  ghost function TaskOf(sc: Scanner, C: int, A: int, B: int, taskLength: int, plusOne: int, bound: int, i: nat)
    : (seq<int>, nat)
  {
    if S.Shaped(sc.primes, sc.inv) && C >= 1 && A >= 1 && B >= 1 && taskLength >= 0 && plusOne >= 0 then
      TaskOutcome(sc, C, S.TaskStart(A, B, taskLength, plusOne, i), A, S.CurLength(taskLength, plusOne, i), bound)
    else ([], 0)
  }

  /** The outcomes of the first n tasks, in task order. */
  ghost function Tasks(sc: Scanner, C: int, A: int, B: int, taskLength: int, plusOne: int, bound: int, n: nat)
    : (ts: seq<(seq<int>, nat)>)
    ensures |ts| == n
  {
    if n == 0 then []
    else
      Tasks(sc, C, A, B, taskLength, plusOne, bound, n - 1) + [TaskOf(sc, C, A, B, taskLength, plusOne, bound, n - 1)]
  }

  /** Entry i of the outcomes of the first n tasks is the outcome of task i. */
  lemma {:induction false} TasksAt(sc: Scanner, C: int, A: int, B: int, taskLength: int, plusOne: int, bound: int,
                                   n: nat, i: nat)
    requires i < n
    ensures Tasks(sc, C, A, B, taskLength, plusOne, bound, n)[i] == TaskOf(sc, C, A, B, taskLength, plusOne, bound, i)
  {
    if i < n - 1 {
      TasksAt(sc, C, A, B, taskLength, plusOne, bound, n - 1, i);
    }
  }

  /** Handing on task i after the outcome of tasks 0 to i-1 gives the outcome of tasks 0 to i. */
  lemma TasksStep(sc: Scanner, C: int, A: int, B: int, taskLength: int, plusOne: int, bound: int, i: nat,
                  before: (seq<int>, nat), after: (seq<int>, nat))
    requires before == S.Joined(Tasks(sc, C, A, B, taskLength, plusOne, bound, i))
    requires after == (before.0 + TaskOf(sc, C, A, B, taskLength, plusOne, bound, i).0,
                       before.1 + TaskOf(sc, C, A, B, taskLength, plusOne, bound, i).1)
    ensures after == S.Joined(Tasks(sc, C, A, B, taskLength, plusOne, bound, i + 1))
  {
    S.JoinedStep(Tasks(sc, C, A, B, taskLength, plusOne, bound, i), TaskOf(sc, C, A, B, taskLength, plusOne, bound, i),
                 Tasks(sc, C, A, B, taskLength, plusOne, bound, i + 1), before, after);
  }

  /**
   * The first n tasks together report only solutions from the window of
   * the values they cover, and count at most that many values.
   */
  lemma {:induction false} TasksSound(sc: Scanner, C: int, A: int, B: int, taskLength: int, plusOne: int, bound: int,
                                      n: nat)
    requires S.Shaped(sc.primes, sc.inv) && C >= 1 && A >= 1 && B >= 1 && taskLength >= 0 && plusOne >= 0
    ensures S.Sound(sc.base, sc.target, C, A, B, S.Covered(taskLength, plusOne, n),
                    S.Joined(Tasks(sc, C, A, B, taskLength, plusOne, bound, n)).0)
    ensures S.Joined(Tasks(sc, C, A, B, taskLength, plusOne, bound, n)).1 <= S.Covered(taskLength, plusOne, n)
  {
    if n > 0 {
      var init := Tasks(sc, C, A, B, taskLength, plusOne, bound, n - 1);
      var before := S.Joined(init);
      TasksSound(sc, C, A, B, taskLength, plusOne, bound, n - 1);
      TasksSoundStep(sc, C, A, B, taskLength, plusOne, bound, n - 1, before.0, before.1);
      S.JoinedSnoc(init, TaskOf(sc, C, A, B, taskLength, plusOne, bound, n - 1));
    }
  }

  /** Task i, reported after sound results of tasks 0 to i-1, keeps them sound and the count within bounds. */
  lemma TasksSoundStep(sc: Scanner, C: int, A: int, B: int, taskLength: int, plusOne: int, bound: int,
                       i: nat, before: seq<int>, count: nat)
    requires S.Shaped(sc.primes, sc.inv) && C >= 1 && A >= 1 && B >= 1 && taskLength >= 0 && plusOne >= 0
    requires S.Sound(sc.base, sc.target, C, A, B, S.Covered(taskLength, plusOne, i), before)
    requires count <= S.Covered(taskLength, plusOne, i)
    ensures S.Sound(sc.base, sc.target, C, A, B, S.Covered(taskLength, plusOne, i + 1),
                    before + TaskOf(sc, C, A, B, taskLength, plusOne, bound, i).0)
    ensures count + TaskOf(sc, C, A, B, taskLength, plusOne, bound, i).1 <= S.Covered(taskLength, plusOne, i + 1)
  {
    var start := S.TaskStart(A, B, taskLength, plusOne, i);
    var len := S.CurLength(taskLength, plusOne, i);
    TaskSound(sc, C, start, A, len, bound);
    S.SoundJoin(sc.base, sc.target, C, A, B, S.Covered(taskLength, plusOne, i), len, before,
                TaskOf(sc, C, A, B, taskLength, plusOne, bound, i).0);
  }

  /** Task i of scan run, its results and count handed to the consumer after those of tasks 0 to i-1. */
  method RunTask(sc: Scanner, C: int, A: int, B: int, taskLength: int, plusOne: int, i: nat, start: int, curLength: int,
                 primeBound: int, before: (seq<int>, nat)) returns (after: (seq<int>, nat))
    requires S.Shaped(sc.primes, sc.inv) && C >= 1 && A >= 1 && B >= 1 && 0 <= taskLength < INT_MAX && plusOne >= 0
    requires start == S.TaskStart(A, B, taskLength, plusOne, i) && curLength == S.CurLength(taskLength, plusOne, i)
    ensures after == (before.0 + TaskOf(sc, C, A, B, taskLength, plusOne, primeBound, i).0,
                      before.1 + TaskOf(sc, C, A, B, taskLength, plusOne, primeBound, i).1)
  {
    var taskResults, taskCount := Run(sc, C, start, A, curLength, primeBound);
    after := (before.0 + taskResults, before.1 + taskCount);
  }

  /** The tasks of scan, created with their starts and lengths and run in order. */
  method RunTasks(sc: Scanner, C: int, A: int, B: int, taskLength: int, plusOne: int, n: nat, primeBound: int)
    returns (outcome: (seq<int>, nat))
    requires S.Shaped(sc.primes, sc.inv) && C >= 1 && A >= 1 && B >= 1 && 0 <= taskLength < INT_MAX && plusOne >= 0
    ensures outcome == S.Joined(Tasks(sc, C, A, B, taskLength, plusOne, primeBound, n))
  {
    outcome := ([], 0);
    var start := B;
    var smallerStep := A * taskLength;
    var biggerStep := smallerStep + A;
    var i := 0;
    while i < n
      invariant 0 <= i <= n
      invariant start == S.TaskStart(A, B, taskLength, plusOne, i)
      invariant outcome == S.Joined(Tasks(sc, C, A, B, taskLength, plusOne, primeBound, i))
    {
      outcome, start := NextTask(sc, C, A, B, taskLength, plusOne, i, start, smallerStep, biggerStep, primeBound, outcome);
      i := i + 1;
    }
  }

  /** One turn of the task loop: run task i, then move start on by its length's step. */
  method NextTask(sc: Scanner, C: int, A: int, B: int, taskLength: int, plusOne: int, i: nat, start: int,
                  smallerStep: int, biggerStep: int, primeBound: int, before: (seq<int>, nat))
    returns (after: (seq<int>, nat), next: int)
    requires S.Shaped(sc.primes, sc.inv) && C >= 1 && A >= 1 && B >= 1 && 0 <= taskLength < INT_MAX && plusOne >= 0
    requires start == S.TaskStart(A, B, taskLength, plusOne, i)
    requires smallerStep == A * taskLength && biggerStep == smallerStep + A
    requires before == S.Joined(Tasks(sc, C, A, B, taskLength, plusOne, primeBound, i))
    ensures next == S.TaskStart(A, B, taskLength, plusOne, i + 1)
    ensures after == S.Joined(Tasks(sc, C, A, B, taskLength, plusOne, primeBound, i + 1))
  {
    var curLength := if i < plusOne then taskLength + 1 else taskLength;
    after := RunTask(sc, C, A, B, taskLength, plusOne, i, start, curLength, primeBound, before);
    TasksStep(sc, C, A, B, taskLength, plusOne, primeBound, i, before, after);
    S.TaskStartNext(A, B, taskLength, plusOne, i);
    next := start + (if i < plusOne then biggerStep else smallerStep);
  }

  /**
   * scan, with its tasks run one after the other: it fails exactly when
   * there are more tasks than values, dividing by a task length of 0;
   * otherwise it hands on the results of its tasks joined and their counts
   * added, so a value is reported exactly when one task reports it; every
   * reported M lies among B + A*k for k < length and its multiple M*C is a
   * solution, and at most `length` values are counted.
   */
  method Scan(sc: Scanner, C: int, A: int, B: int, length: int) returns (r: Result<(seq<int>, nat)>)
    requires Valid(sc) && C >= 1 && A >= 1 && B >= 1 && length > 0
    requires length / S.TasksNumber(length, sc.threadsNumber, sc.maxLengthPerTask, sc.minParallelLength) < INT_MAX
    ensures r.Err? <==> length < S.TasksNumber(length, sc.threadsNumber, sc.maxLengthPerTask, sc.minParallelLength)
    ensures r.Err? ==> r.error == S.DIVIDE_BY_ZERO
    ensures r.Ok? ==> S.Sound(sc.base, sc.target, C, A, B, length, r.value.0) && r.value.1 <= length
    ensures r.Ok? ==>
      var n := S.TasksNumber(length, sc.threadsNumber, sc.maxLengthPerTask, sc.minParallelLength);
      length / n >= 1 &&
      r.value == S.Joined(Tasks(sc, C, A, B, length / n, length % n,
                                PrimeBound(sc.sieveBound, length / n, sc.sieveLengthFactor), n))
    ensures r.Ok? ==>
      var n := S.TasksNumber(length, sc.threadsNumber, sc.maxLengthPerTask, sc.minParallelLength);
      forall M :: M in r.value.0 <==>
        exists i :: 0 <= i < n && M in TaskOf(sc, C, A, B, length / n, length % n,
                                              PrimeBound(sc.sieveBound, length / n, sc.sieveLengthFactor), i).0
  {
    var n := S.TasksNumber(length, sc.threadsNumber, sc.maxLengthPerTask, sc.minParallelLength);
    var taskLength := length / n;
    var plusOne := length % n;
    S.DivIsZero(length, n);
    if taskLength == 0 {
      return Err(S.DIVIDE_BY_ZERO);
    }
    var primeBound := PrimeBound(sc.sieveBound, taskLength, sc.sieveLengthFactor);
    var outcome := RunTasks(sc, C, A, B, taskLength, plusOne, n, primeBound);
    S.SplitCovers(length, n);
    TasksSound(sc, C, A, B, taskLength, plusOne, primeBound, n);
    TasksMembers(sc, C, A, B, taskLength, plusOne, primeBound, n);
    return Ok(outcome);
  }

  /** A value is among the joined results of the first n tasks exactly when one of those tasks reports it. */
  lemma TasksMembers(sc: Scanner, C: int, A: int, B: int, taskLength: int, plusOne: int, bound: int, n: nat)
    ensures forall M :: M in S.Joined(Tasks(sc, C, A, B, taskLength, plusOne, bound, n)).0 <==>
      exists i :: 0 <= i < n && M in TaskOf(sc, C, A, B, taskLength, plusOne, bound, i).0
  {
    forall M {
      S.JoinedMembers(Tasks(sc, C, A, B, taskLength, plusOne, bound, n), M);
    }
    forall i | 0 <= i < n {
      TasksAt(sc, C, A, B, taskLength, plusOne, bound, n, i);
    }
  }
}
