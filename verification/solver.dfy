/**
 * Solver.java: the search for every x up to solutionCeil with
 * base^x == target (mod x). Every x = C*y is reached through its known
 * factor C, a product of good primes on a stack; y is restricted to the
 * class B mod A. Each node first tries to factor base^C - target and
 * records the divisor multiples that solve; when that fails or leaves
 * composite factors, it scans the window of y. It then branches into
 * C*p for good primes p up to the square root of what is left, merging
 * the prime's restriction into {A, B} below the first level.
 *
 * The scanner, the factorizer, the factorization cache and the policy of
 * the launch are collaborators of the search; they are taken as given
 * values and functions, with what the search relies on stated in Valid().
 */
module Solver {
  import opened Wrappers
  import opened Arith
  import opened JavaLang
  import Common
  import Modules
  import Primes
  import MPC = ModPowCalculator
  import MPCF = ModPowCalculatorFactory
  import F = Factorization
  import GP = GoodPrimes
  import Restrictions
  import S = Scanner
  import Text

  /** x is a solution: a positive x with base^x == target (mod x). */
  predicate IsSolution(base: int, target: int, x: int)
  {
    x >= 1 && S.Solves(base, target, x)
  }

  /** Every entry of s from index `from` on is a solution. */
  ghost predicate AllSolutions(base: int, target: int, s: seq<int>, from: nat)
  {
    forall k :: from <= k < |s| ==> IsSolution(base, target, s[k])
  }

  /** What scanner.scan promises of the values m it reports for a node C: positive, and C*m a solution. */
  ghost predicate Reports(base: int, target: int, C: int, ms: seq<int>)
  {
    forall i :: 0 <= i < |ms| ==> ms[i] >= 1 && IsSolution(base, target, C * ms[i])
  }

  /** The scanner model meets that promise: its results are sound for the window it scanned. */
  lemma ScannerReports(base: int, target: int, C: int, A: int, B: int, total: int, ms: seq<int>)
    requires C >= 1
    requires S.Sound(base, target, C, A, B, total, ms)
    ensures Reports(base, target, C, ms)
  {
    forall i | 0 <= i < |ms|
      ensures ms[i] >= 1 && IsSolution(base, target, C * ms[i])
    {
      assert S.Passes(base, target, C, ms[i]);
      assert ms[i] * C == C * ms[i];
    }
  }

  /** Every factor is positive. */
  predicate Positive(fs: seq<int>)
  {
    forall k :: 0 <= k < |fs| ==> fs[k] >= 1
  }

  /** A good-prime row the search can branch on: a prime with a restriction a >= 1, b >= 0. */
  predicate Usable(r: GP.Row)
  {
    IsPrime(r.p) && r.a >= 1 && r.b >= 0
  }

  /** The rows GoodPrimes.generate produces are usable. */
  lemma GeneratedRowsUsable(base: int, target: int, rows: seq<GP.Row>)
    requires forall k :: 0 <= k < |rows| ==> GP.RowOf(base, target, rows[k])
    ensures forall k :: 0 <= k < |rows| ==> Usable(rows[k])
  {
  }

  /**
   * The values C*d, for d from ds in order, that are solutions: what the
   * divisor consumer of tryFactorization hands to addSolution.
   */
  function Found(base: int, target: int, C: int, ds: seq<int>): (r: seq<int>)
    ensures |r| <= |ds|
    ensures AllSolutions(base, target, r, 0)
  {
    if ds == [] then []
    else
      var N := C * ds[|ds| - 1];
      Found(base, target, C, ds[..|ds| - 1]) + (if IsSolution(base, target, N) then [N] else [])
  }

  /** x is recorded exactly when it is C*d for some d of ds and is a solution. */
  lemma {:induction false} FoundMeaning(base: int, target: int, C: int, ds: seq<int>, x: int)
    ensures x in Found(base, target, C, ds) <==>
              IsSolution(base, target, x) && exists k :: 0 <= k < |ds| && x == C * ds[k]
    decreases |ds|
  {
    if ds != [] {
      var init := ds[..|ds| - 1];
      FoundMeaning(base, target, C, init, x);
      if exists k :: 0 <= k < |init| && x == C * init[k] {
        var k :| 0 <= k < |init| && x == C * init[k];
        assert ds[k] == init[k];
      }
      if exists k :: 0 <= k < |ds| && x == C * ds[k] {
        var k :| 0 <= k < |ds| && x == C * ds[k];
        if k < |init| {
          assert init[k] == ds[k];
        }
      }
    }
  }

  /**
   * For a factorization into primes, C*d is recorded exactly when d is a
   * divisor of the factored number and C*d is a solution.
   */
  lemma FactoredFinds(base: int, target: int, C: int, f: F.Factorization, d: int)
    requires C >= 1 && Primes.Factored(f.factors)
    ensures C * d in Found(base, target, C, F.Emit(f.factors, 0, 1)) <==>
              d >= 1 && Common.Product(f.factors) % d == 0 && IsSolution(base, target, C * d)
  {
    var ds := F.Emit(f.factors, 0, 1);
    F.Divisors(f.factors, 0);
    assert f.factors[0..] == f.factors;
    FoundMeaning(base, target, C, ds, C * d);
    if exists k :: 0 <= k < |ds| && C * d == C * ds[k] {
      var k :| 0 <= k < |ds| && C * d == C * ds[k];
      CancelLeft(C, d, ds[k]);
      assert ds[k] in ds;
    }
    if d >= 1 && Common.Product(f.factors) % d == 0 {
      assert d in ds;
      var k :| 0 <= k < |ds| && ds[k] == d;
    }
  }

  lemma CancelLeft(c: int, a: int, b: int)
    requires c >= 1 && c * a == c * b
    ensures a == b
  {
    assert c * (a - b) == 0 && c * (b - a) == 0;
    FactorSign(c, a - b);
    FactorSign(c, b - a);
  }

  /** From positive factors and a positive start, forEachDivisor hands out only positive values. */
  lemma {:induction false} EmitPositive(f: seq<int>, pos: nat, cur: int)
    requires pos <= |f| && Positive(f) && cur >= 1
    ensures forall x :: x in F.Emit(f, pos, cur) ==> x >= 1
    decreases |f| - pos, 1, 0
  {
    if pos < |f| {
      var end := F.Run(f, pos);
      EmitPositive(f, end, cur);
      EmitPowersPositive(f, pos, end, cur, pos);
    }
  }

  lemma {:induction false} EmitPowersPositive(f: seq<int>, pos: nat, end: nat, cur: int, i: nat)
    requires pos < end <= |f| && pos <= i <= end && Positive(f) && cur >= 1
    ensures forall x :: x in F.EmitPowers(f, pos, end, cur, i) ==> x >= 1
    decreases |f| - pos, 0, end - i
  {
    if i < end {
      MulAtLeast(cur, f[pos]);
      EmitPositive(f, end, cur * f[pos]);
      EmitPowersPositive(f, pos, end, cur * f[pos], i + 1);
    }
  }

  /** Each value of ms times C, in order: the solutions scan records. */
  function Scaled(C: int, ms: seq<int>): (r: seq<int>)
    ensures |r| == |ms|
    decreases |ms|
  {
    if ms == [] then [] else Scaled(C, ms[..|ms| - 1]) + [C * ms[|ms| - 1]]
  }

  /** What a sound scanner reports becomes solutions once scaled by C. */
  lemma {:induction false} ScaledSolutions(base: int, target: int, C: int, ms: seq<int>)
    requires Reports(base, target, C, ms)
    ensures AllSolutions(base, target, Scaled(C, ms), 0)
    decreases |ms|
  {
    if ms != [] {
      var init := ms[..|ms| - 1];
      assert Reports(base, target, C, init) by {
        forall i | 0 <= i < |init|
          ensures init[i] >= 1 && IsSolution(base, target, C * init[i])
        {
          assert init[i] == ms[i];
        }
      }
      ScaledSolutions(base, target, C, init);
    }
  }

  /** The strings of stackToString: the factors shown, primes of the stack then the last factor unless it is 1. */
  function Parts(stack: seq<int>, last: int): seq<int>
  {
    stack + (if last != 1 then [last] else [])
  }

  /** stackToString's text: "1" for no factor, otherwise the factors joined by " * ". */
  function Rendered(stack: seq<int>, last: int): string
  {
    var parts := Parts(stack, last);
    if parts == [] then "1" else Text.Join(F.Numerals(parts), " * ")
  }

  /** The factors shown multiply to the node's C times the last factor. */
  lemma PartsProduct(stack: seq<int>, last: int)
    ensures Common.Product(Parts(stack, last)) == Common.Product(stack) * last
  {
    if last != 1 {
      Common.ProductSnoc(stack, last);
    } else {
      assert Parts(stack, last) == stack;
    }
  }

  /** Text.IntString of n is "1" only for n == 1. */
  lemma IntStringOne(n: int)
    ensures Text.IntString(n) == "1" <==> n == 1
  {
    if n >= 0 && Text.IntString(n) == "1" {
      assert Text.NumeralValue("1") == 1 by {
        assert "1"[..0] == "";
      }
    }
    if n < 0 {
      assert Text.IntString(n)[0] == '-';
    }
  }

  lemma {:induction false} JoinSnoc(parts: seq<string>, x: string, sep: string)
    ensures Text.Join(parts + [x], sep) == if parts == [] then x else Text.Join(parts, sep) + sep + x
    decreases |parts|
  {
    if |parts| >= 2 {
      assert (parts + [x])[1..] == parts[1..] + [x];
      JoinSnoc(parts[1..], x, sep);
    } else if |parts| == 1 {
      assert (parts + [x])[1..] == [x];
    }
  }

  /** The text is "1" exactly when nothing is shown, as long as no factor shown is itself 1. */
  lemma RenderedOne(stack: seq<int>, last: int)
    requires forall k :: 0 <= k < |stack| ==> stack[k] != 1
    ensures Rendered(stack, last) == "1" <==> |stack| == 0 && last == 1
  {
    var parts := Parts(stack, last);
    if parts != [] {
      if |parts| == 1 {
        IntStringOne(parts[0]);
        assert Text.Join(F.Numerals(parts), " * ") == Text.IntString(parts[0]);
      } else {
        assert Text.Join(F.Numerals(parts), " * ") == F.Numerals(parts)[0] + " * " + Text.Join(F.Numerals(parts)[1..], " * ");
        assert |Text.Join(F.Numerals(parts), " * ")| >= 3;
      }
    }
  }

  /** The tail of s0 that s added at its end is made of solutions, and s0 is kept in front. */
  ghost predicate Extends(base: int, target: int, s0: seq<int>, s: seq<int>)
  {
    |s| >= |s0| && s[..|s0|] == s0 && AllSolutions(base, target, s, |s0|)
  }

  lemma ExtendsTrans(base: int, target: int, s0: seq<int>, s1: seq<int>, s2: seq<int>)
    requires Extends(base, target, s0, s1) && Extends(base, target, s1, s2)
    ensures Extends(base, target, s0, s2)
  {
    assert s2[..|s0|] == s1[..|s0|];
    forall k | |s0| <= k < |s2|
      ensures IsSolution(base, target, s2[k])
    {
      if k < |s1| {
        assert s2[k] == s1[k];
      }
    }
  }

  lemma SolutionsAppend(base: int, target: int, a: seq<int>, b: seq<int>)
    requires AllSolutions(base, target, a, 0) && AllSolutions(base, target, b, 0)
    ensures AllSolutions(base, target, a + b, 0)
  {
    forall k | 0 <= k < |a + b|
      ensures IsSolution(base, target, (a + b)[k])
    {
      if k >= |a| {
        assert (a + b)[k] == b[k - |a|];
      }
    }
  }

  lemma AppendAssoc(a: seq<int>, b: seq<int>, c: seq<int>)
    ensures a + b + c == a + (b + c)
  {
  }

  /** The set of values of s. */
  function Elems(s: seq<int>): set<int>
  {
    set x | x in s
  }

  /**
   * One step down the prime stack: the child C*p of a node still fits below
   * solutionCeil, grows the node, and has a slot on a stack of
   * solutionCeil.bitLength() entries.
   */
  lemma StackRoom(ceil: int, C: int, p: int, pos: nat, len: nat)
    requires ceil >= 1 && 1 <= C && 2 <= p && p <= Primes.ISqrt(ceil / C)
    requires Power(2, pos) <= C && ceil < Power(2, len)
    ensures C < C * p <= ceil
    ensures Power(2, pos + 1) <= C * p
    ensures pos + 1 < len
  {
    var div := ceil / C;
    var r := Primes.ISqrt(div);
    S.MulMono(p, r, p);
    S.MulMono(p, r, r);
    assert p <= p * p <= div by {
      MulAtLeast(p, p);
    }
    S.MulMono(p, div, C);
    assert div * C <= ceil;
    S.MulMono(2, p, C);
    assert Power(2, pos + 1) == 2 * Power(2, pos);
    if len <= pos + 1 {
      if len < pos + 1 {
        PowerGrows(2, len, pos + 1);
      }
    }
  }

  class Solver {
    const base: int
    const target: int
    const solutionCeil: int
    /** The good primes in increasing order, each with its restriction {A, B} and gcd(A, B). */
    const goodPrimes: seq<GP.Row>
    /** The factorization cache by exponent, when there is one. */
    const db: Option<map<int, F.Factorization>>
    const factory: MPCF.Factory
    /** scanner.scan(C, A, B, length, launch.checkCandidates()): the values m reported. */
    const scan: (int, int, int, int) -> seq<int>
    /** launch.scanLength: the policy's length for a window of the given size. */
    const scanLength: int -> int
    /** launch.tryFactorize for the bit-length forecast of base^C: whether factoring is worth it for C. */
    const tryFactorize: int -> bool
    /** factorizer.factorize. */
    const factorize: int -> F.Factorization
    /** The primes of the current node, one per level. */
    const primeStack: array<int>
    /** launch.addSolution: the solutions recorded, in order. */
    var solutions: seq<int>
    /** The indices known to fail the merge with the current node's restriction. */
    var incompatibles: set<int>

    /** The constructor's assertions and what the search relies on from its collaborators. */
    ghost predicate Valid()
    {
      && base >= 2 && solutionCeil >= 1
      && primeStack.Length == Bits(solutionCeil)
      && (forall k :: 0 <= k < |goodPrimes| ==> Usable(goodPrimes[k]))
      && MPCF.Valid(factory) && factory.base == base
      && (forall C, A, B, len {:trigger ScanSound(C, A, B, len)} :: ScanSound(C, A, B, len))
      && (forall n {:trigger FactorsPositive(n)} :: FactorsPositive(n))
      && (forall c {:trigger CachedPositive(c)} :: CachedPositive(c))
    }

    /** The scanner reports only values m with C*m a solution. */
    ghost predicate ScanSound(C: int, A: int, B: int, len: int)
    {
      C >= 1 ==> Reports(base, target, C, scan(C, A, B, len))
    }

    /** The factorizer hands out positive factors. */
    ghost predicate FactorsPositive(n: int)
    {
      Positive(factorize(n).factors)
    }

    /** The cached factorizations have positive factors. */
    ghost predicate CachedPositive(c: int)
    {
      db.Some? && c in db.value ==> Positive(db.value[c].factors)
    }

    /** The solver after its constructor: the prime stack sized by solutionCeil's bit length. */
    constructor (base: int, target: int, solutionCeil: int, goodPrimes: seq<GP.Row>, db: Option<map<int, F.Factorization>>,
                 factory: MPCF.Factory, scan: (int, int, int, int) -> seq<int>, scanLength: int -> int,
                 tryFactorize: int -> bool, factorize: int -> F.Factorization)
      requires base >= 2 && solutionCeil >= 1
      requires forall k :: 0 <= k < |goodPrimes| ==> Usable(goodPrimes[k])
      requires MPCF.Valid(factory) && factory.base == base
      requires forall C, A, B, len :: C >= 1 ==> Reports(base, target, C, scan(C, A, B, len))
      requires forall n :: Positive(factorize(n).factors)
      requires db.Some? ==> forall c :: c in db.value ==> Positive(db.value[c].factors)
      ensures Valid() && fresh(primeStack)
      ensures this.base == base && this.target == target && this.solutionCeil == solutionCeil
      ensures this.goodPrimes == goodPrimes && this.db == db && this.factory == factory
      ensures this.scan == scan && this.scanLength == scanLength
      ensures this.tryFactorize == tryFactorize && this.factorize == factorize
      ensures solutions == [] && incompatibles == {}
    {
      this.base := base;
      this.target := target;
      this.solutionCeil := solutionCeil;
      this.goodPrimes := goodPrimes;
      this.db := db;
      this.factory := factory;
      this.scan := scan;
      this.scanLength := scanLength;
      this.tryFactorize := tryFactorize;
      this.factorize := factorize;
      this.primeStack := new int[Bits(solutionCeil)];
      solutions := [];
      incompatibles := {};
    }

    /** What scan(C, A, B, length) records: nothing for a non-positive length, else C*m for each m reported. */
    function ScanRecords(C: int, A: int, B: int, length: int): seq<int>
    {
      if length <= 0 then [] else Scaled(C, scan(C, A, B, length))
    }

    /** The factorization tryFactorization works with for C != 1: the cached one, else |base^C - target| factored when the policy agrees and it is not 0. */
    function Chosen(C: nat): Option<F.Factorization>
    {
      if db.Some? && C <= Common.MAX_INT && C in db.value then Some(db.value[C])
      else if !tryFactorize(C) then None
      else
        var n := Abs(Power(base, C) - target);
        if n == 0 then None else Some(factorize(n))
    }

    /** What tryFactorization records for C: 1 for C == 1, else the solving divisor multiples of the chosen factorization. */
    function TryRecords(C: int): seq<int>
      requires C >= 1
    {
      if C == 1 then [1]
      else
        match Chosen(C)
        case None => []
        case Some(f) => Found(base, target, C, F.Emit(f.factors, 0, 1))
    }

    /** What tryFactorization returns for C: true for C == 1, else whether a factorization without composites was found. */
    predicate TryResult(C: int)
      requires C >= 1
    {
      C == 1 || (Chosen(C).Some? && F.CompositeCount(Chosen(C).value) == 0)
    }

    /**
     * What a node records before it branches: what tryFactorization records,
     * then a scan of the window unless the factorization was complete.
     */
    function NodeRecords(C: int, A: int, B: int): seq<int>
      requires C >= 1 && A >= 1
    {
      var length := scanLength((solutionCeil / C - B) / A + 1);
      TryRecords(C) + (if TryResult(C) then [] else ScanRecords(C, A, B, length))
    }

    lemma NodeRecordsSplit(C: int, A: int, B: int, am: int, length: int)
      requires C >= 1 && A >= 1 && am == solutionCeil / C - B && length == scanLength(am / A + 1)
      ensures NodeRecords(C, A, B) == TryRecords(C) + (if TryResult(C) then [] else ScanRecords(C, A, B, length))
    {
      var length' := scanLength((solutionCeil / C - B) / A + 1);
      assert length' == length;
    }

    /** Everything scan records is a solution. */
    lemma ScanSolutions(C: int, A: int, B: int, length: int)
      requires Valid() && C >= 1
      ensures AllSolutions(base, target, ScanRecords(C, A, B, length), 0)
    {
      if length > 0 {
        assert ScanSound(C, A, B, length);
        ScaledSolutions(base, target, C, scan(C, A, B, length));
      }
    }

    /** Everything a node records before branching is a solution. */
    lemma NodeSolutions(C: int, A: int, B: int)
      requires Valid() && C >= 1 && A >= 1
      ensures AllSolutions(base, target, NodeRecords(C, A, B), 0)
    {
      var length := scanLength((solutionCeil / C - B) / A + 1);
      var tried := TryRecords(C);
      assert AllSolutions(base, target, tried, 0) by {
        if C == 1 {
          assert IsSolution(base, target, 1);
        }
      }
      ScanSolutions(C, A, B, length);
      var scanned := if TryResult(C) then [] else ScanRecords(C, A, B, length);
      NodeRecordsSplit(C, A, B, solutionCeil / C - B, length);
      SolutionsAppend(base, target, tried, scanned);
    }

    /**
     * solve(): a scan for prime solutions (the window 1, 2, ..., of length
     * solutionCeil when target == base, else of length base), then the search
     * from the root node C = 1, A = 1, B = 0 with no incompatible index.
     */
    method Solve()
      requires Valid()
      modifies this`solutions, this`incompatibles, primeStack
      ensures Extends(base, target, old(solutions), solutions)
      ensures var first := ScanRecords(1, 1, 1, if target == base then solutionCeil else base);
              |solutions| >= |old(solutions)| + |first| && solutions[..|old(solutions)| + |first|] == old(solutions) + first
      ensures incompatibles == {}
    {
      ghost var s0 := solutions;
      ghost var first := ScanRecords(1, 1, 1, if target == base then solutionCeil else base);
      ScanSolutions(1, 1, 1, if target == base then solutionCeil else base);
      if target == base {
        Scan(1, 1, 1, solutionCeil);
      } else {
        Scan(1, 1, 1, base);
      }
      ghost var s1 := solutions;
      assert Extends(base, target, s0, s1);
      incompatibles := {};
      assert primeStack[..0] == [];
      Pognali(0, 0, 1, 1, 0);
      ExtendsTrans(base, target, s0, s1, solutions);
      assert solutions[..|s0| + |first|] == solutions[..|s1|];
    }

    /**
     * pognali(pos, gpPos, C, A, B): the node C with y == B (mod A). Nothing
     * happens when solutionCeil / C < B. Otherwise the node records what
     * NodeRecords says, then branches; every value recorded is a solution,
     * the stack below pos is kept, and the incompatible indices are as before.
     */
    method Pognali(pos: nat, gpPos: nat, C: int, A: int, B: int)
      requires Valid() && 1 <= C <= solutionCeil && A >= 1 && B >= 0
      requires Power(2, pos) <= C && pos <= primeStack.Length && Common.Product(primeStack[..pos]) == C
      requires gpPos == 0 || gpPos < |goodPrimes|
      modifies this`solutions, this`incompatibles, primeStack
      ensures incompatibles == old(incompatibles)
      ensures Extends(base, target, old(solutions), solutions)
      ensures primeStack[..pos] == old(primeStack[..pos])
      ensures solutionCeil / C < B ==> solutions == old(solutions)
      ensures solutionCeil / C >= B ==>
                |solutions| >= |old(solutions)| + |NodeRecords(C, A, B)| &&
                solutions[..|old(solutions)| + |NodeRecords(C, A, B)|] == old(solutions) + NodeRecords(C, A, B)
      decreases solutionCeil - C, 3
    {
      var div := solutionCeil / C;
      var am := div - B;
      if am < 0 {
        return;
      }
      ghost var s0 := solutions;
      var length := scanLength(am / A + 1);
      ghost var records := NodeRecords(C, A, B);
      ghost var tried := TryRecords(C);
      ghost var scanned := if TryResult(C) then [] else ScanRecords(C, A, B, length);
      NodeRecordsSplit(C, A, B, am, length);
      var factorized := TryFactorization(C);
      assert solutions == s0 + tried;
      if !factorized {
        Scan(C, A, B, length);
        assert solutions == s0 + tried + scanned;
      } else {
        assert scanned == [];
        assert solutions == s0 + tried + scanned;
      }
      ghost var s1 := solutions;
      AppendAssoc(s0, tried, scanned);
      NodeSolutions(C, A, B);
      assert Extends(base, target, s0, s1);
      var bound := Primes.ISqrt(div);
      if |goodPrimes| == 0 || bound < goodPrimes[gpPos].p {
        return;
      }
      if pos == 0 {
        BranchFirst(pos, gpPos, C, div);
      } else {
        BranchMerged(pos, gpPos, C, A, B, div);
      }
      ExtendsTrans(base, target, s0, s1, solutions);
      assert solutions[..|s1|] == s1;
      assert solutions[..|s0| + |NodeRecords(C, A, B)|] == s1[..|s1|];
    }

    /** The first level: every good prime p from gpPos on with p*p <= div and gcd(A_p, B_p) == 1 starts the node (p, A_p, B_p). */
    method BranchFirst(pos: nat, gpPos: nat, C: int, div: int)
      requires Valid() && 1 <= C <= solutionCeil && div == solutionCeil / C
      requires Power(2, pos) <= C && pos <= primeStack.Length && Common.Product(primeStack[..pos]) == C
      requires gpPos <= |goodPrimes|
      modifies this`solutions, this`incompatibles, primeStack
      ensures incompatibles == old(incompatibles)
      ensures Extends(base, target, old(solutions), solutions)
      ensures primeStack[..pos] == old(primeStack[..pos])
      decreases solutionCeil - C, 2
    {
      var bound := Primes.ISqrt(div);
      var i := gpPos;
      while i < |goodPrimes| && goodPrimes[i].p <= bound
        invariant gpPos <= i <= |goodPrimes|
        invariant incompatibles == old(incompatibles)
        invariant Extends(base, target, old(solutions), solutions)
        invariant primeStack[..pos] == old(primeStack[..pos])
        decreases |goodPrimes| - i
      {
        if goodPrimes[i].gcdAB <= 1 {
          ghost var s := solutions;
          Descend(pos, i, C, div, goodPrimes[i].a, goodPrimes[i].b);
          ExtendsTrans(base, target, old(solutions), s, solutions);
        }
        i := i + 1;
      }
    }

    /**
     * The deeper levels: the indices from the last prime up to sqrt(div) down
     * to gpPos, skipping the incompatible ones; an index whose merge fails
     * becomes incompatible for the rest of this level and is forgotten when
     * the level ends.
     */
    method BranchMerged(pos: nat, gpPos: nat, C: int, A: int, B: int, div: int)
      requires Valid() && 1 <= C <= solutionCeil && div == solutionCeil / C && A >= 1 && B >= 0
      requires Power(2, pos) <= C && pos <= primeStack.Length && Common.Product(primeStack[..pos]) == C
      requires gpPos <= |goodPrimes|
      modifies this`solutions, this`incompatibles, primeStack
      ensures incompatibles == old(incompatibles)
      ensures Extends(base, target, old(solutions), solutions)
      ensures primeStack[..pos] == old(primeStack[..pos])
      decreases solutionCeil - C, 2
    {
      var bound := Primes.ISqrt(div);
      var pBound := gpPos;
      while pBound < |goodPrimes| && goodPrimes[pBound].p <= bound
        invariant gpPos <= pBound <= |goodPrimes|
        invariant forall j :: gpPos <= j < pBound ==> goodPrimes[j].p <= bound
        decreases |goodPrimes| - pBound
      {
        pBound := pBound + 1;
      }
      var toClear: seq<int> := [];
      var i := pBound - 1;
      while i >= gpPos
        invariant gpPos - 1 <= i < pBound
        invariant Elems(toClear) !! old(incompatibles)
        invariant incompatibles == old(incompatibles) + Elems(toClear)
        invariant Extends(base, target, old(solutions), solutions)
        invariant primeStack[..pos] == old(primeStack[..pos])
        decreases i
      {
        if i !in incompatibles {
          ghost var s := solutions;
          var failed := MergeStep(pos, i, C, A, B, div);
          ExtendsTrans(base, target, old(solutions), s, solutions);
          if failed {
            incompatibles := incompatibles + {i};
            toClear := toClear + [i];
          }
        }
        i := i - 1;
      }
      Forget(toClear, old(incompatibles));
    }

    /** The loop that removes the indices this level made incompatible. */
    method Forget(toClear: seq<int>, ghost before: set<int>)
      requires Elems(toClear) !! before && incompatibles == before + Elems(toClear)
      modifies this`incompatibles
      ensures incompatibles == before
    {
      for k := 0 to |toClear|
        invariant incompatibles == before + (Elems(toClear) - Elems(toClear[..k]))
      {
        assert Elems(toClear[..k + 1]) == Elems(toClear[..k]) + {toClear[k]} by {
          assert toClear[..k + 1] == toClear[..k] + [toClear[k]];
        }
        incompatibles := incompatibles - {toClear[k]};
      }
      assert toClear[..|toClear|] == toClear;
    }

    /**
     * One index of a deeper level: Restrictions.merge of the node with the
     * prime's restriction; a failed merge is reported, a merge with
     * gcd(A', B') > 1 is skipped, otherwise the search goes down to C*p.
     */
    method MergeStep(pos: nat, i: nat, C: int, A: int, B: int, div: int) returns (failed: bool)
      requires Valid() && 1 <= C <= solutionCeil && div == solutionCeil / C && A >= 1 && B >= 0
      requires Power(2, pos) <= C && pos <= primeStack.Length && Common.Product(primeStack[..pos]) == C
      requires i < |goodPrimes| && goodPrimes[i].p <= Primes.ISqrt(div)
      modifies this`solutions, this`incompatibles, primeStack
      ensures incompatibles == old(incompatibles)
      ensures Extends(base, target, old(solutions), solutions)
      ensures primeStack[..pos] == old(primeStack[..pos])
      ensures failed ==> solutions == old(solutions)
      ensures B < A && goodPrimes[i].b < goodPrimes[i].a ==>
                (failed <==> forall A', B' :: !Restrictions.MergesTo(base, target, C, A, B, goodPrimes[i].p, goodPrimes[i].a, goodPrimes[i].b, A', B'))
      decreases solutionCeil - C, 1
    {
      var row := goodPrimes[i];
      var newAB := Restrictions.Merge(base, target, C, A, B, row.p, row.a, row.b);
      if newAB.None? {
        return true;
      }
      failed := false;
      if Gcd(newAB.value.0, newAB.value.1) > 1 {
        return;
      }
      Descend(pos, i, C, div, newAB.value.0, newAB.value.1);
    }

    /** primeStack[pos] = p, then the node C*p with restriction {A, B} one level down. */
    method Descend(pos: nat, i: nat, C: int, div: int, A: int, B: int)
      requires Valid() && 1 <= C <= solutionCeil && div == solutionCeil / C && A >= 1 && B >= 0
      requires Power(2, pos) <= C && pos <= primeStack.Length && Common.Product(primeStack[..pos]) == C
      requires i < |goodPrimes| && goodPrimes[i].p <= Primes.ISqrt(div)
      modifies this`solutions, this`incompatibles, primeStack
      ensures incompatibles == old(incompatibles)
      ensures Extends(base, target, old(solutions), solutions)
      ensures primeStack[..pos] == old(primeStack[..pos])
      decreases solutionCeil - C, 0
    {
      var p := goodPrimes[i].p;
      assert Usable(goodPrimes[i]);
      BitsBound(solutionCeil);
      StackRoom(solutionCeil, C, p, pos, primeStack.Length);
      ghost var below := primeStack[..pos];
      primeStack[pos] := p;
      assert primeStack[..pos] == below;
      assert primeStack[..pos + 1] == below + [p];
      Common.ProductSnoc(below, p);
      Pognali(pos + 1, i, C * p, A, B);
      assert primeStack[..pos] == primeStack[..pos + 1][..pos];
    }

    /**
     * tryFactorization(C, A, pos): true and the solution 1 for C == 1;
     * otherwise the factorization Chosen gives, if any: the divisor
     * multiples C*d that solve are recorded, and the result says whether it
     * has no composite factor. A and pos only feed the policy's bookkeeping
     * and the log.
     */
    method TryFactorization(C: int) returns (factorized: bool)
      requires Valid() && C >= 1
      modifies this`solutions
      ensures factorized == TryResult(C) && solutions == old(solutions) + TryRecords(C)
    {
      if C == 1 {
        solutions := solutions + [1];
        return true;
      }
      var factorization: F.Factorization;
      if db.Some? && C <= Common.MAX_INT && C in db.value {
        factorization := db.value[C];
        assert CachedPositive(C);
      } else {
        if !tryFactorize(C) {
          return false;
        }
        var n := Abs(Power(base, C) - target);
        if n == 0 {
          return false;
        }
        factorization := factorize(n);
        assert FactorsPositive(n);
      }
      var ds := F.ForEachDivisorOf(factorization);
      EmitPositive(factorization.factors, 0, 1);
      RecordDivisors(C, ds);
      factorized := F.CompositeCount(factorization) == 0;
    }

    /** The divisor consumer of tryFactorization: C*d is recorded for each d in turn that makes it a solution. */
    method RecordDivisors(C: int, ds: seq<int>)
      requires Valid() && C >= 1 && forall x :: x in ds ==> x >= 1
      modifies this`solutions
      ensures solutions == old(solutions) + Found(base, target, C, ds)
    {
      for k := 0 to |ds|
        invariant solutions == old(solutions) + Found(base, target, C, ds[..k])
      {
        assert ds[k] in ds;
        var N := C * ds[k];
        MulAtLeast(C, ds[k]);
        var r := PowBig(N);
        assert ds[..k + 1][..k] == ds[..k];
        if r == Common.Mod(target, N) {
          solutions := solutions + [N];
        }
      }
      assert ds[..|ds|] == ds;
    }

    /** baseBig.modPow(N, N). */
    method PowBig(N: int) returns (r: int)
      requires Valid() && N >= 1
      ensures r == Power(base, N) % N
    {
      r := Modules.PowBig(base, N, N);
    }

    /** scan(C, A, B, length, pos): each value m the scanner reports for a positive length is recorded as C*m. */
    method Scan(C: int, A: int, B: int, length: int)
      requires Valid() && C >= 1
      modifies this`solutions
      ensures solutions == old(solutions) + ScanRecords(C, A, B, length)
    {
      if length <= 0 {
        return;
      }
      var ms := scan(C, A, B, length);
      for k := 0 to |ms|
        invariant solutions == old(solutions) + Scaled(C, ms[..k])
      {
        assert ms[..k + 1][..k] == ms[..k];
        solutions := solutions + [C * ms[k]];
      }
      assert ms[..|ms|] == ms;
    }

    /**
     * stackToString(lastFactor, pos): the first pos primes of the stack and
     * the last factor (1 when absent), in the text Rendered gives.
     */
    method StackToString(lastFactor: Option<int>, pos: nat) returns (s: string)
      requires pos <= primeStack.Length
      ensures s == Rendered(primeStack[..pos], if lastFactor.None? then 1 else lastFactor.value)
    {
      var last := if lastFactor.None? then 1 else lastFactor.value;
      if pos == 0 && last == 1 {
        return "1";
      }
      var buf := "";
      for i := 0 to pos
        invariant buf == Text.Join(F.Numerals(primeStack[..i]), " * ")
        invariant |buf| > 0 <==> i > 0
      {
        assert primeStack[..i + 1] == primeStack[..i] + [primeStack[i]];
        assert F.Numerals(primeStack[..i + 1]) == F.Numerals(primeStack[..i]) + [Text.IntString(primeStack[i])];
        JoinSnoc(F.Numerals(primeStack[..i]), Text.IntString(primeStack[i]), " * ");
        if |buf| > 0 {
          buf := buf + " * ";
        }
        buf := buf + Text.IntString(primeStack[i]);
      }
      var parts := Parts(primeStack[..pos], last);
      if last != 1 {
        assert F.Numerals(parts) == F.Numerals(primeStack[..pos]) + [Text.IntString(last)];
        JoinSnoc(F.Numerals(primeStack[..pos]), Text.IntString(last), " * ");
        if |buf| > 0 {
          buf := buf + " * ";
        }
        buf := buf + Text.IntString(last);
      } else {
        assert parts == primeStack[..pos];
      }
      s := buf;
    }

    /**
     * baseModPow(exp, mod): the long power for exponent and modulus up to
     * Long.MAX_VALUE, else the calculator of the factory; base^exp mod mod
     * on both paths, except that the long path gives 1 for exponent 0 and
     * modulus 1.
     */
    method BaseModPow(exp: nat, mod: int) returns (r: int)
      requires Valid() && mod > 0
      ensures r == if exp == 0 && mod == 1 then 1 else Power(base, exp) % mod
    {
      if exp <= Common.MAX_LONG && mod <= Common.MAX_LONG {
        r := Modules.Pow(base, exp, mod);
        if exp == 0 && mod > 1 {
          assert Power(base, 0) == 1;
          ModSmall(1, mod);
        }
      } else {
        var calculator := MPCF.CreateCalculator(factory, exp);
        r := MPC.Calculate(calculator, mod);
      }
    }
  }
}
