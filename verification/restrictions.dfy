/**
 * primes/Restrictions.java: for a modulus p, the restriction {A, B} on the
 * exponents x with base^x == target (mod p), meaning x == B (mod A), found by
 * baby-step/giant-step over a LongMod accumulator; and merge, which folds a
 * prime's restriction into the restriction already collected for a modulus C.
 */
module Restrictions {
  import opened Wrappers
  import opened Arith
  import opened JavaLang
  import opened Orders
  import opened Crt
  import Common
  import ModUtils
  import LongMod
  import Primes

  /** LongIntMap.get: the stored value, or 0 for a missing key. */
  function Get(m: map<int, int>, k: int): int
  {
    if k in m then m[k] else 0
  }

  /**
   * The restriction of a unit b modulo the prime p for target t: the order of
   * b, and the position of t in the cycle of powers of b, if t occurs there.
   */
  ghost function UnitRestriction(b: int, p: int, t: int): (r: Option<(int, int)>)
    requires Unit(b, p)
    ensures r.Some? ==> 1 <= r.value.0 <= p - 1 && 0 <= r.value.1 < r.value.0
  {
    match Log(b, p, Order(b, p), t)
    case None => None
    case Some(d) => Some((Order(b, p), d))
  }

  /**
   * The brute-force restriction modulo a prime: {1, 0} when base mod p is 0 or
   * 1 and target agrees with it, none when it does not; otherwise the cycle
   * length of base^i mod p and target's position in the cycle.
   */
  ghost function Restriction(base: int, p: int, target: int): (r: Option<(int, int)>)
    requires IsPrime(p)
    ensures r.Some? ==> 1 <= r.value.0 <= p - 1 && 0 <= r.value.1 < r.value.0
  {
    var b, t := base % p, target % p;
    if b == 0 || b == 1 then
      if t == b then Some((1, 0)) else None
    else
      UnitRestriction(b, p, t)
  }

  /**
   * What a restriction means: a positive exponent x has base^x == target
   * (mod p) exactly when p has a restriction {A, B} and x == B (mod A).
   */
  lemma RestrictionMeaning(base: int, p: int, target: int, x: nat)
    requires IsPrime(p) && x >= 1
    ensures Power(base, x) % p == target % p <==>
      Restriction(base, p, target).Some? &&
      x % Restriction(base, p, target).value.0 == Restriction(base, p, target).value.1
  {
    var b, t := base % p, target % p;
    PowerMod(base, x, p);
    if b == 0 {
      assert Power(b, x) == b * Power(b, x - 1);
      ModSmall(0, p);
    } else if b == 1 {
      PowerOne(x);
      ModSmall(1, p);
    } else {
      var L := Order(b, p);
      PowerReduce(b, p, L, x);
      match Log(b, p, L, t)
      case None =>
        assert PowMod(b, x % L, p) != t;
      case Some(d) =>
        PowerEqIff(b, p, L, x, d);
        ModSmall(d, L);
    }
  }

  // ------------------------------------------------------------------
  // Powers modulo p, one step at a time
  // ------------------------------------------------------------------

  /** Multiplying reduced powers adds exponents. */
  lemma PowModAdd(b: int, k: nat, j: nat, p: int)
    requires p > 0
    ensures (PowMod(b, k, p) * PowMod(b, j, p)) % p == PowMod(b, k + j, p)
  {
    PowerAdd(b, k, j);
    ModIdempotent(Power(b, k), p);
    ModIdempotent(Power(b, j), p);
    CongMul(Power(b, k) % p, Power(b, k), Power(b, j) % p, Power(b, j), p);
  }

  lemma PowModOne(b: int, p: int)
    requires 0 <= b < p
    ensures PowMod(b, 1, p) == b && PowMod(b, 0, p) == 1 % p
  {
    ModSmall(b, p);
  }

  /** Reduced powers of b are equal when their exponents agree modulo the order. */
  lemma PowModShift(b: int, p: int, L: int, i: nat, j: nat)
    requires Unit(b, p) && IsOrder(b, p, L) && i % L == j % L
    ensures PowMod(b, i, p) == PowMod(b, j, p)
  {
    PowerEqIff(b, p, L, i, j);
  }

  // ------------------------------------------------------------------
  // The baby steps
  // ------------------------------------------------------------------

  /** The table of the baby steps: every key is the power of b given by its value, which is in [1, n]. */
  ghost predicate Table(mp: map<int, int>, b: int, p: int, n: int)
    requires p > 0
  {
    forall k :: k in mp ==> 1 <= mp[k] <= n && PowMod(b, mp[k], p) == k
  }

  /** The j-th baby step b^j mod p; Complete is stated over it so that other powers do not trigger it. */
  function Baby(b: int, p: int, j: nat): int
    requires p > 0
  {
    PowMod(b, j, p)
  }

  /** For a unit, the table holds every power b^1 .. b^n under its own exponent. */
  ghost predicate Complete(mp: map<int, int>, b: int, p: int, n: int)
    requires p > 0
  {
    forall j :: 1 <= j <= n ==> Baby(b, p, j) in mp && mp[Baby(b, p, j)] == j
  }

  /** None of b^1 .. b^n is 1. */
  ghost predicate NoOneUpTo(b: int, p: int, n: int)
    requires p > 0
  {
    forall j :: 1 <= j <= n ==> PowMod(b, j, p) != 1
  }

  /** Below the order, a new power differs from every power already in the table. */
  lemma NewKey(mp: map<int, int>, b: int, p: int, i: int)
    requires Unit(b, p) && 1 <= i && Table(mp, b, p, i - 1) && NoOneUpTo(b, p, i - 1)
    ensures PowMod(b, i, p) !in mp
  {
    var L := Order(b, p);
    assert i <= L by {
      assert PowMod(b, L, p) == 1;
    }
    forall k | k in mp
      ensures k != PowMod(b, i, p)
    {
      var v := mp[k];
      PowerEqIff(b, p, L, v, i);
      ModSmall(v, L);
      if i < L {
        ModSmall(i, L);
      } else {
        ModMultiple(L, 1);
      }
    }
  }

  /** Storing b^i under i extends the table, and for a unit keeps it complete and one entry per step. */
  lemma TableExtend(mp: map<int, int>, b: int, p: int, i: int)
    requires p > 0 && 1 <= i && Table(mp, b, p, i - 1) && NoOneUpTo(b, p, i - 1)
    requires Unit(b, p) ==> |mp| == i - 1 && Complete(mp, b, p, i - 1)
    ensures Table(mp[PowMod(b, i, p) := i], b, p, i)
    ensures Unit(b, p) ==> |mp[PowMod(b, i, p) := i]| == i && Complete(mp[PowMod(b, i, p) := i], b, p, i)
  {
    if Unit(b, p) {
      NewKey(mp, b, p, i);
    }
  }

  /**
   * The baby-step loop of calculateRestriction: the step multiplier set to b,
   * then up to n calls of step(), each power stored with its exponent, stopping
   * at the first power that is 1.
   */
  method BabySteps(modP: LongMod.Impl, b: int, n: int) returns (mp: map<int, int>, cycled: bool, xn: int, steps: int)
    requires LongMod.Ready(modP) && LongMod.CurrentOf(modP) == 1
    requires 2 <= b < LongMod.ModOf(modP) && n >= 0
    modifies LongMod.Obj(modP)
    ensures LongMod.Ready(modP) && LongMod.StepOf(modP) == b
    ensures 0 <= steps <= n && (!cycled ==> steps == n)
    ensures LongMod.CurrentOf(modP) == xn == PowMod(b, steps, LongMod.ModOf(modP))
    ensures cycled ==> steps >= 1 && xn == 1 && 1 in mp && |mp| >= 1
    ensures NoOneUpTo(b, LongMod.ModOf(modP), if cycled then steps - 1 else steps)
    ensures Table(mp, b, LongMod.ModOf(modP), steps)
    ensures Unit(b, LongMod.ModOf(modP)) ==> |mp| == steps && Complete(mp, b, LongMod.ModOf(modP), steps)
  {
    var p := LongMod.ModOf(modP);
    mp := map[];
    cycled := false;
    xn := 1;
    steps := 0;
    LongMod.SetStep(modP, b);
    PowModOne(b, p);
    ModSmall(1, p);
    var i := 1;
    while i <= n
      invariant 1 <= i <= n + 1 && steps == i - 1
      invariant LongMod.Ready(modP) && LongMod.StepOf(modP) == b
      invariant LongMod.CurrentOf(modP) == xn == PowMod(b, steps, p)
      invariant NoOneUpTo(b, p, steps) && Table(mp, b, p, steps)
      invariant Unit(b, p) ==> |mp| == steps && Complete(mp, b, p, steps)
      decreases n + 1 - i
    {
      xn := LongMod.Step(modP);
      PowModAdd(b, steps, 1, p);
      TableExtend(mp, b, p, i);
      mp := mp[xn := i];
      steps := i;
      if xn == 1 {
        cycled := true;
        break;
      }
      i := i + 1;
    }
  }

  // ------------------------------------------------------------------
  // The giant steps
  // ------------------------------------------------------------------

  /** A giant step that has not passed the order lands outside the table. */
  lemma GiantMiss(mp: map<int, int>, b: int, p: int, n: int, k: int)
    requires Unit(b, p) && Table(mp, b, p, n) && 0 <= n < k <= Order(b, p)
    ensures Get(mp, PowMod(b, k, p)) == 0
  {
    var L := Order(b, p);
    forall x | x in mp
      ensures x != PowMod(b, k, p)
    {
      var v := mp[x];
      PowerEqIff(b, p, L, v, k);
      ModSmall(v, L);
      if k < L {
        ModSmall(k, L);
      } else {
        ModMultiple(L, 1);
      }
    }
  }

  /** The first giant step past the order lands on the table entry k - L. */
  lemma GiantHit(mp: map<int, int>, b: int, p: int, n: int, k: int)
    requires Unit(b, p) && Complete(mp, b, p, n)
    requires Order(b, p) < k <= Order(b, p) + n
    ensures Get(mp, PowMod(b, k, p)) == k - Order(b, p)
  {
    var L := Order(b, p);
    ModAddMultiple(k - L, L, 1);
    PowModShift(b, p, L, k, k - L);
    assert mp[Baby(b, p, k - L)] == k - L;
  }

  /** t, if it has a logarithm other than 0, is located by pos: pos is 0 or congruent to it. */
  ghost predicate Found(b: int, p: int, t: int, pos: int)
    requires Unit(b, p)
  {
    var L := Order(b, p);
    var log := Log(b, p, L, t);
    (pos != 0 ==> log.Some? && (pos - log.value) % L == 0) && (t == 1 ==> pos == 0)
  }

  /** While t is unlocated at giant step nk, its logarithm (if any) lies in (n, L - nk + n]. */
  ghost predicate Window(b: int, p: int, n: int, t: int, nk: int)
    requires Unit(b, p)
  {
    var L := Order(b, p);
    var log := Log(b, p, L, t);
    log.Some? && t != 1 ==> n < log.value <= L - nk + n
  }

  /** The baby-step lookup of t itself starts the search. */
  lemma GiantStart(mp: map<int, int>, b: int, p: int, n: int, t: int)
    requires Unit(b, p) && 0 <= t < p && n >= 1
    requires Table(mp, b, p, n) && Complete(mp, b, p, n) && NoOneUpTo(b, p, n)
    ensures n < Order(b, p) && Found(b, p, t, Get(mp, t))
    ensures Get(mp, t) == 0 ==> Window(b, p, n, t, n)
  {
    var L := Order(b, p);
    var log := Log(b, p, L, t);
    assert n < L by {
      assert PowMod(b, L, p) == 1;
    }
    var pos := Get(mp, t);
    assert pos != 0 ==> log.Some? && (pos - log.value) % L == 0 by {
      if pos != 0 {
        assert 1 <= mp[t] <= n;
        LogIs(b, p, L, t, pos);
        ModSmall(pos, L);
        ModSmall(0, L);
        assert pos - log.value == 0;
      }
    }
    assert 1 !in mp by {
      forall k | k in mp
        ensures k != 1
      {
        assert PowMod(b, mp[k], p) != 1;
      }
    }
    assert log.Some? && 0 < log.value <= n ==> pos > 0 by {
      if log.Some? && 0 < log.value <= n {
        assert Baby(b, p, log.value) in mp;
      }
    }
    assert log.Some? && log.value == 0 ==> t == 1 by {
      ModSmall(1, p);
    }
  }

  /** The auxiliary value b^nk * t found in the table at pt locates t at pt - nk. */
  lemma LookupHit(mp: map<int, int>, b: int, p: int, n: int, t: int, nk: nat, pt: int)
    requires Unit(b, p) && Table(mp, b, p, n) && 0 <= t < p && t != 1
    requires pt > 0 && pt == Get(mp, (PowMod(b, nk, p) * t) % p)
    ensures Found(b, p, t, pt - nk) && pt != nk
  {
    var L := Order(b, p);
    var c := (PowMod(b, nk, p) * t) % p;
    assert c in mp && PowMod(b, pt, p) == c;
    ModMulLeft(Power(b, nk), t, p);
    ShiftedLog(b, p, L, t, nk, pt);
    var x := pt - nk;
    assert Log(b, p, L, t) == Some(x % L);
    assert pt != nk by {
      ModSmall(0, L);
      ModSmall(1, p);
    }
    ModSubZero(x, L);
  }

  lemma ModSubZero(x: int, m: int)
    requires m > 0
    ensures (x - x % m) % m == 0
  {
    assert x - x % m == m * (x / m);
    ModMultiple(m, x / m);
  }

  /** An auxiliary value missing from the table narrows the window by n. */
  lemma LookupMiss(mp: map<int, int>, b: int, p: int, n: int, t: int, nk: nat)
    requires Unit(b, p) && Complete(mp, b, p, n) && 0 <= t < p && nk <= Order(b, p)
    ensures Window(b, p, n, t, nk) && Get(mp, (PowMod(b, nk, p) * t) % p) == 0 ==> Window(b, p, n, t, nk + n)
  {
    var L := Order(b, p);
    var log := Log(b, p, L, t);
    if log.Some? && L - nk < log.value <= L - nk + n {
      var d := log.value;
      var e := d + nk - L;
      PowModAdd(b, nk, d, p);
      ModAddMultiple(e, L, 1);
      PowModShift(b, p, L, d + nk, e);
      assert mp[Baby(b, p, e)] == e;
    }
  }

  /** A non-negative exponent congruent to d modulo L reduces to d. */
  lemma ResidueOf(pos: int, d: int, L: int)
    requires L > 0 && 0 <= d < L && pos >= 0 && (pos - d) % L == 0
    ensures pos % L == d
  {
    var q := (pos - d) / L;
    assert pos == L * q + d;
    DivModUnique(pos, L, q, d);
  }

  /** The position after the lookup of b^nk * t at giant step nk: set from the table while t is unlocated. */
  function NextPos(mp: map<int, int>, b: int, p: int, t: int, nk: nat, pos: int): int
    requires p > 0
  {
    var pt := Get(mp, (PowMod(b, nk, p) * t) % p);
    if pos == 0 && t != 1 && pt > 0 then pt - nk else pos
  }

  /** The giant-step loop invariant for a unit: the order not yet passed, and t located or bracketed. */
  ghost predicate GiantInv(b: int, p: int, n: int, t: int, nk: int, pos: int)
    requires Unit(b, p)
  {
    nk <= Order(b, p) && Found(b, p, t, pos) && (pos == 0 && t != 1 ==> Window(b, p, n, t, nk))
  }

  /** One lookup keeps the invariant: it locates t or narrows its window by n. */
  lemma Lookup(mp: map<int, int>, b: int, p: int, n: int, t: int, nk: nat, pos: int)
    requires Unit(b, p) && 0 <= t < p && 1 <= n <= nk
    requires Table(mp, b, p, n) && Complete(mp, b, p, n) && GiantInv(b, p, n, t, nk, pos)
    ensures var pos' := NextPos(mp, b, p, t, nk, pos);
            Found(b, p, t, pos') && (pos' == 0 && t != 1 ==> Window(b, p, n, t, nk + n))
  {
    var pt := Get(mp, (PowMod(b, nk, p) * t) % p);
    var pos' := NextPos(mp, b, p, t, nk, pos);
    if pos == 0 && t != 1 {
      if pt > 0 {
        LookupHit(mp, b, p, n, t, nk, pt);
        assert pos' == pt - nk;
      } else {
        LookupMiss(mp, b, p, n, t, nk);
        assert pos' == 0;
      }
    } else {
      assert pos' == pos;
    }
  }

  /** A giant step lands outside the table until it passes the order, then on the entry k - L. */
  lemma Lands(mp: map<int, int>, b: int, p: int, n: int, k: int)
    requires Unit(b, p) && 1 <= n < k <= Order(b, p) + n
    requires Table(mp, b, p, n) && Complete(mp, b, p, n)
    ensures k <= Order(b, p) ==> Get(mp, PowMod(b, k, p)) == 0
    ensures k > Order(b, p) ==> Get(mp, PowMod(b, k, p)) == k - Order(b, p)
  {
    if k <= Order(b, p) {
      GiantMiss(mp, b, p, n, k);
    } else {
      GiantHit(mp, b, p, n, k);
    }
  }

  /**
   * One pass of the giant-step loop keeps the invariant while the step lands
   * outside the table, and when it lands inside, the step has just passed
   * the order by the entry found.
   */
  lemma Advance(mp: map<int, int>, b: int, p: int, n: int, t: int, nk: nat, pos: int)
    requires Unit(b, p) && 0 <= t < p && 1 <= n <= nk
    requires Table(mp, b, p, n) && Complete(mp, b, p, n) && GiantInv(b, p, n, t, nk, pos)
    ensures var pos', k := NextPos(mp, b, p, t, nk, pos), Get(mp, PowMod(b, nk + n, p));
            (k == 0 ==> GiantInv(b, p, n, t, nk + n, pos')) &&
            (k > 0 ==> nk + n - k == Order(b, p) && Found(b, p, t, pos') &&
                       (pos' == 0 && t != 1 ==> Window(b, p, n, t, nk + n)))
  {
    Lookup(mp, b, p, n, t, nk, pos);
    Lands(mp, b, p, n, nk + n);
  }

  /** Once the cycle length L is known, pos (brought into [0, L)) is the logarithm of t. */
  lemma GiantResult(b: int, p: int, n: int, t: int, nk: int, pos: int)
    requires Unit(b, p) && 0 <= t < p && n >= 1 && nk > Order(b, p)
    requires Found(b, p, t, pos) && (pos == 0 && t != 1 ==> Window(b, p, n, t, nk)) && pos + Order(b, p) >= 0
    ensures pos == 0 && t != 1 ==> UnitRestriction(b, p, t) == None
    ensures !(pos == 0 && t != 1) ==>
              var L := Order(b, p);
              UnitRestriction(b, p, t) == Some((L, JavaRem(if pos < 0 then pos + L else pos, L)))
  {
    var L := Order(b, p);
    var log := Log(b, p, L, t);
    var q := if pos < 0 then pos + L else pos;
    JavaDivNonneg(q, L);
    if t == 1 {
      ModSmall(1, p);
      LogIs(b, p, L, 1, 0);
      ModSmall(0, L);
    } else if pos != 0 {
      var d := log.value;
      assert (q - d) % L == 0 by {
        if pos < 0 {
          ModAddMultiple(pos - d, L, 1);
        }
      }
      ResidueOf(q, d, L);
    } else {
      assert log.None?;
    }
  }

  /**
   * One pass of the giant-step loop body: while t is unlocated, look up
   * b^nk * t in the table; then step the accumulator to b^(nk+n) and look
   * that up.
   */
  method GiantStep(modP: LongMod.Impl, mp: map<int, int>, b: int, t: int, n: nat, nk: nat, pos: int)
    returns (pos': int, k: int)
    requires LongMod.Ready(modP) && LongMod.AuxOf(modP) == t
    requires LongMod.StepOf(modP) == PowMod(b, n, LongMod.ModOf(modP))
    requires LongMod.CurrentOf(modP) == PowMod(b, nk, LongMod.ModOf(modP))
    modifies LongMod.Obj(modP)
    ensures LongMod.Ready(modP) && LongMod.AuxOf(modP) == t
    ensures LongMod.StepOf(modP) == PowMod(b, n, LongMod.ModOf(modP))
    ensures LongMod.CurrentOf(modP) == PowMod(b, nk + n, LongMod.ModOf(modP))
    ensures pos' == NextPos(mp, b, LongMod.ModOf(modP), t, nk, pos)
    ensures k == Get(mp, PowMod(b, nk + n, LongMod.ModOf(modP)))
  {
    pos' := pos;
    if pos == 0 && t != 1 {
      var ct := LongMod.GetAux(modP);
      var pt := Get(mp, ct);
      if pt > 0 {
        pos' := pt - nk;
      }
    }
    var xnk := LongMod.Step(modP);
    PowModAdd(b, nk, n, LongMod.ModOf(modP));
    k := Get(mp, xnk);
  }

  /**
   * The giant-step loop of calculateRestriction (no power up to b^n was 1):
   * the accumulator now steps by b^n, and while t is unlocated b^nk * t is
   * looked up at each giant step, until a giant step lands in the table,
   * which gives the cycle length len; past cycleSize + n it gives up.
   */
  method GiantLoop(modP: LongMod.Impl, mp: map<int, int>, b: int, t: int, n: int, xn: int, cycleSize: int)
    returns (found: bool, pos: int, nk: int, len: int)
    requires LongMod.Ready(modP) && 2 <= b < LongMod.ModOf(modP) && 0 <= t < LongMod.ModOf(modP)
    requires n >= 1 && cycleSize >= 1
    requires LongMod.CurrentOf(modP) == xn == PowMod(b, n, LongMod.ModOf(modP))
    requires Table(mp, b, LongMod.ModOf(modP), n) && NoOneUpTo(b, LongMod.ModOf(modP), n)
    requires Unit(b, LongMod.ModOf(modP)) ==> Complete(mp, b, LongMod.ModOf(modP), n)
    modifies LongMod.Obj(modP)
    ensures found ==> len >= 1 && pos + len >= 0
    ensures Unit(b, LongMod.ModOf(modP)) && Order(b, LongMod.ModOf(modP)) <= cycleSize ==>
              found && len == Order(b, LongMod.ModOf(modP)) && nk > len &&
              Found(b, LongMod.ModOf(modP), t, pos) && (pos == 0 && t != 1 ==> Window(b, LongMod.ModOf(modP), n, t, nk))
  {
    var p := LongMod.ModOf(modP);
    ghost var unit := Unit(b, p) && Order(b, p) <= cycleSize;
    pos := Get(mp, t);
    ModSmall(xn, p);
    ModSmall(t, p);
    LongMod.SetStep(modP, xn);
    LongMod.SetAux(modP, t);
    if unit {
      GiantStart(mp, b, p, n, t);
    }
    nk := n;
    len := 0;
    while true
      invariant LongMod.Ready(modP) && LongMod.StepOf(modP) == xn && LongMod.AuxOf(modP) == t
      invariant n <= nk <= cycleSize + n && LongMod.CurrentOf(modP) == PowMod(b, nk, p)
      invariant pos + nk - n >= 0
      invariant unit ==> GiantInv(b, p, n, t, nk, pos)
      decreases cycleSize + n - nk
    {
      if unit {
        Advance(mp, b, p, n, t, nk, pos);
      }
      var k;
      pos, k := GiantStep(modP, mp, b, t, n, nk, pos);
      nk := nk + n;
      if k > 0 {
        len := nk - k;
        found := true;
        return;
      }
      if nk > cycleSize + n {
        found := false;
        return;
      }
    }
  }

  /**
   * The giant-step part of calculateRestriction: after the loop, t still
   * unlocated (and not 1) means no restriction; otherwise its position is
   * brought into [0, len).
   */
  method GiantSteps(modP: LongMod.Impl, mp: map<int, int>, b: int, t: int, n: int, xn: int, cycleSize: int)
    returns (r: Option<(int, int)>)
    requires LongMod.Ready(modP) && 2 <= b < LongMod.ModOf(modP) && 0 <= t < LongMod.ModOf(modP)
    requires n >= 1 && cycleSize >= 1
    requires LongMod.CurrentOf(modP) == xn == PowMod(b, n, LongMod.ModOf(modP))
    requires Table(mp, b, LongMod.ModOf(modP), n) && NoOneUpTo(b, LongMod.ModOf(modP), n)
    requires Unit(b, LongMod.ModOf(modP)) ==> Complete(mp, b, LongMod.ModOf(modP), n)
    modifies LongMod.Obj(modP)
    ensures r.Some? ==> 0 <= r.value.1 < r.value.0
    ensures Unit(b, LongMod.ModOf(modP)) && Order(b, LongMod.ModOf(modP)) <= cycleSize ==>
              r == UnitRestriction(b, LongMod.ModOf(modP), t)
  {
    var p := LongMod.ModOf(modP);
    var found, pos, nk, len := GiantLoop(modP, mp, b, t, n, xn, cycleSize);
    if !found {
      return None;
    }
    if Unit(b, p) && Order(b, p) <= cycleSize {
      GiantResult(b, p, n, t, nk, pos);
    }
    if pos == 0 && t != 1 {
      return None;
    }
    if pos < 0 {
      pos := pos + len;
    }
    r := Some((len, JavaRem(pos, len)));
  }

  // ------------------------------------------------------------------
  // calculateRestriction
  // ------------------------------------------------------------------

  /** Base 1 has order 1, so its restriction is {1, 0} for target 1 and none otherwise. */
  lemma OneRestriction(p: int, t: int)
    requires IsPrime(p) && 0 <= t < p
    ensures UnitRestriction(1, p, t) == if t == 1 then Some((1, 0)) else None
  {
    assert Power(1, 1) == 1;
    ModSmall(1, p);
    var L := Order(1, p);
    assert L == 1 by {
      assert PowMod(1, 1, p) == 1;
    }
  }

  /** With the cycle closed within the baby steps, the table size is the order. */
  lemma CycledRestriction(mp: map<int, int>, b: int, p: int, steps: int, t: int)
    requires Unit(b, p) && steps >= 1 && PowMod(b, steps, p) == 1 && NoOneUpTo(b, p, steps - 1)
    requires Table(mp, b, p, steps) && Complete(mp, b, p, steps) && 0 <= t < p
    ensures steps == Order(b, p)
    ensures Get(mp, t) == 0 ==> UnitRestriction(b, p, t) == None
    ensures Get(mp, t) > 0 ==> UnitRestriction(b, p, t) == Some((steps, Get(mp, t) % steps))
  {
    var L := Order(b, p);
    assert steps == L by {
      assert PowMod(b, L, p) == 1;
    }
    var log := Log(b, p, L, t);
    var pos := Get(mp, t);
    if pos > 0 {
      assert 1 <= mp[t] <= steps && PowMod(b, pos, p) == t;
      LogIs(b, p, L, t, pos);
    }
    assert log.Some? ==> pos > 0 by {
      if log.Some? {
        var d := log.value;
        if d == 0 {
          ModSmall(1, p);
          assert Baby(b, p, L) == t;
          assert Baby(b, p, L) in mp;
        } else {
          assert Baby(b, p, d) == t;
          assert Baby(b, p, d) in mp;
        }
      }
    }
  }

  /**
   * The private calculateRestriction over a fresh accumulator modulo p: base
   * and target reduced into [0, p); base 0 or 1 answers at once; otherwise
   * baby steps up to n = floor(sqrt(cycleSize)) and, if no power up to b^n is
   * 1, giant steps. For a prime p whose order of base is at most cycleSize the
   * answer is the brute-force restriction.
   */
  method CalculateRestrictionWith(base: int, modP: LongMod.Impl, target: int, cycleSize: int) returns (r: Option<(int, int)>)
    requires LongMod.Ready(modP) && LongMod.CurrentOf(modP) == 1 && cycleSize >= 1
    modifies LongMod.Obj(modP)
    ensures r.Some? ==> 0 <= r.value.1 < r.value.0
    ensures var p, b, t := LongMod.ModOf(modP), base % LongMod.ModOf(modP), target % LongMod.ModOf(modP);
            (b == 0 || b == 1) ==> r == if t == b then Some((1, 0)) else None
    ensures var p, b, t := LongMod.ModOf(modP), base % LongMod.ModOf(modP), target % LongMod.ModOf(modP);
            Unit(b, p) && Order(b, p) <= cycleSize ==> r == UnitRestriction(b, p, t)
  {
    var p := LongMod.GetMod(modP);
    var b := Common.Mod(base, p);
    var t := Common.Mod(target, p);
    if b == 0 || b == 1 {
      if b == 1 && IsPrime(p) {
        OneRestriction(p, t);
      }
      return if t == b then Some((1, 0)) else None;
    }
    var n := Primes.ISqrt(cycleSize);
    assert n >= 1;
    var mp, cycled, xn, steps := BabySteps(modP, b, n);
    if cycled {
      ghost var unit := Unit(b, p) && Order(b, p) <= cycleSize;
      if unit {
        CycledRestriction(mp, b, p, steps, t);
      }
      var pos := Get(mp, t);
      if pos == 0 {
        return None;
      }
      return Some((|mp|, pos % |mp|));
    }
    r := GiantSteps(modP, mp, b, t, n, xn, cycleSize);
  }

  /** calculateRestriction(base, p, target, cycleSize): over LongMod.create(p). */
  method CalculateRestrictionCycle(base: int, p: int, target: int, cycleSize: int) returns (r: Option<(int, int)>)
    requires p > 0 && cycleSize >= 1
    ensures r.Some? ==> 0 <= r.value.1 < r.value.0
    ensures (base % p == 0 || base % p == 1) ==> r == if target % p == base % p then Some((1, 0)) else None
    ensures Unit(base % p, p) && Order(base % p, p) <= cycleSize ==> r == UnitRestriction(base % p, p, target % p)
  {
    var modP := LongMod.Create(p);
    r := CalculateRestrictionWith(base, modP, target, cycleSize);
  }

  /**
   * calculateRestriction(base, p, target): the cycle size p - 1. For a prime p
   * this is the brute-force restriction.
   */
  method CalculateRestriction(base: int, p: int, target: int) returns (r: Option<(int, int)>)
    requires p >= 2
    ensures r.Some? ==> 0 <= r.value.1 < r.value.0
    ensures IsPrime(p) ==> r == Restriction(base, p, target)
  {
    r := CalculateRestrictionCycle(base, p, target, p - 1);
  }

  // ------------------------------------------------------------------
  // merge
  // ------------------------------------------------------------------

  /** Scaling a congruence and its modulus by k > 0 changes nothing. */
  lemma CongScale(k: int, z: int, u: int, m: int)
    requires k > 0 && m > 0
    ensures Congruent(k * z, k * u, k * m) <==> Congruent(z, u, m)
  {
    var d := z - u;
    assert k * z - k * u == k * d;
    CongIffDivides(k * z, k * u, k * m);
    CongIffDivides(z, u, m);
    if d % m == 0 {
      assert k * d == (k * m) * (d / m);
      ModMultiple(k * m, d / m);
    }
    if (k * d) % (k * m) == 0 {
      var q := (k * d) / (k * m);
      assert k * d == k * (m * q);
      assert d == m * q;
      ModMultiple(m, q);
    }
  }

  /**
   * The merged class of the two component merges, divided by C, is the
   * class of z with p*z in the node's class B mod A and C*z in the prime's
   * class b mod a.
   */
  lemma MergeClasses(A: int, B: int, p: int, C: int, a: int, b: int, a1: int, b1: int, NA: int, NB: int)
    requires A > 0 && p > 0 && C > 0 && a > 0 && a1 > 0
    requires Lifted(A, B, p, a1, b1) && Merged(a1 * C, b1 * C, a, b, NA, NB)
    ensures NA % C == 0 && NB % C == 0 && NA / C > 0
    ensures forall z :: Congruent(z, NB / C, NA / C) <==> Congruent(p * z, B, A) && Congruent(C * z, b, a)
  {
    var m := a1 * C;
    assert Congruent(NB, b1 * C, m);
    assert Congruent(NB + NA, b1 * C, m) by {
      ModAddMultiple(NB, NA, 1);
      assert Congruent(NB + NA, NB, NA);
    }
    assert NA % m == 0 by {
      CongSub(NB + NA, b1 * C, NB, b1 * C, m);
      assert (NB + NA) - NB == NA;
      assert (b1 * C - b1 * C) % m == 0;
    }
    ModMultiple(C, a1);
    assert C * a1 == m;
    DividesTrans(C, m, NA);
    CongDivisor(NB, b1 * C, m, C);
    ModMultiple(C, b1);
    assert b1 * C == C * b1;
    var A', B' := NA / C, NB / C;
    DivOfMultiple(NA, C);
    DivOfMultiple(NB, C);
    forall z
      ensures Congruent(z, B', A') <==> Congruent(p * z, B, A) && Congruent(C * z, b, a)
    {
      CongScale(C, z, B', A');
      assert Congruent(C * z, NB, NA) <==> Congruent(C * z, b1 * C, m) && Congruent(C * z, b, a);
      CongScale(C, z, b1, a1);
      assert C * b1 == b1 * C && C * a1 == m;
      CongScale(p, z, b1, a1);
      assert p * b1 == b1 * p && p * a1 == a1 * p;
      assert Congruent(p * z, b1 * p, a1 * p) <==> Congruent(p * z, B, A) && (p * z) % p == 0;
      ModMultiple(p, z);
    }
  }

  /** The exact check of merge: the representative (A + B)*N of the merged class reaches the target modulo N. */
  ghost predicate CheckPasses(base: int, targetRemainder: int, N: int, A: int, B: int)
    requires N > 0 && A > 0 && B >= 0
  {
    MulNonneg(B + A, N);
    Power(base, (B + A) * N) % N == targetRemainder % N
  }

  /**
   * B' mod A', written with 0 <= B' < A', is the class of the z with p*z in
   * the node's class B mod A and C*z in the prime's class b mod a.
   */
  ghost predicate Refines(C: int, A: int, B: int, p: int, a: int, b: int, A': int, B': int)
    requires A > 0 && a > 0
  {
    0 <= B' < A' && forall z :: Congruent(z, B', A') <==> Congruent(p * z, B, A) && Congruent(C * z, b, a)
  }

  /** merge succeeds with {A', B'}: the refined class, whose exact check passes modulo C*p. */
  ghost predicate MergesTo(base: int, targetRemainder: int, C: int, A: int, B: int, p: int, a: int, b: int, A': int, B': int)
    requires C > 0 && p > 0 && A > 0 && a > 0
  {
    MulAtLeast(C, p);
    Refines(C, A, B, p, a, b, A', B') && CheckPasses(base, targetRemainder, C * p, A', B')
  }

  /** There is at most one refined class. */
  lemma RefinesUnique(C: int, A: int, B: int, p: int, a: int, b: int, A1: int, B1: int, A2: int, B2: int)
    requires A > 0 && a > 0
    requires Refines(C, A, B, p, a, b, A1, B1) && Refines(C, A, B, p, a, b, A2, B2)
    ensures A1 == A2 && B1 == B2
  {
    ClassUnique(A1, B1, A2, B2);
  }

  /** When p divides A but not B, no p*z lies in B mod A, so nothing refines the node. */
  lemma BlockedRefinesNothing(C: int, A: int, B: int, p: int, a: int, b: int, A': int, B': int)
    requires A > 0 && a > 0 && p > 0 && A % p == 0 && B % p != 0
    ensures !Refines(C, A, B, p, a, b, A', B')
  {
    if Refines(C, A, B, p, a, b, A', B') {
      assert Congruent(B', B', A');
      assert Congruent(p * B', B, A);
      CongDivisor(p * B', B, A, p);
      ModMultiple(p, B');
    }
  }

  /** When the lifted node class and the prime's class are disjoint, nothing refines the node. */
  lemma DisjointRefinesNothing(C: int, A: int, B: int, p: int, a: int, b: int, a1: int, b1: int, A': int, B': int)
    requires A > 0 && a > 0 && p > 0 && C > 0 && Lifted(A, B, p, a1, b1)
    requires forall v :: !(Congruent(v, b1 * C, a1 * C) && Congruent(v, b, a))
    ensures !Refines(C, A, B, p, a, b, A', B')
  {
    if Refines(C, A, B, p, a, b, A', B') {
      var z := B';
      assert Congruent(z, B', A') && Congruent(C * z, b, a);
      assert !Congruent(C * z, b1 * C, a1 * C);
      assert C * b1 == b1 * C && C * a1 == a1 * C && p * b1 == b1 * p && p * a1 == a1 * p;
      ModMultiple(p, z);
      assert Congruent(p * z, b1 * p, a1 * p);
      CongScale(p, z, b1, a1);
      CongScale(C, z, b1, a1);
    }
  }

  /** Canonical inputs give a canonical merged class: the refined class of the node. */
  lemma MergedRefines(A: int, B: int, p: int, C: int, a: int, b: int, a1: int, b1: int, NA: int, NB: int)
    requires A > 0 && p > 0 && C > 0 && a > 0 && a1 > 0 && 0 <= NB < NA
    requires Lifted(A, B, p, a1, b1) && Merged(a1 * C, b1 * C, a, b, NA, NB)
    ensures Refines(C, A, B, p, a, b, NA / C, NB / C)
  {
    MergeClasses(A, B, p, C, a, b, a1, b1, NA, NB);
    ModUtils.QuotientsKeepOrder(NA, NB, C);
  }

  /** A merged class is reduced and has passed the exact check modulo C*p. */
  lemma MergesToFacts(base: int, targetRemainder: int, C: int, A: int, B: int, p: int, a: int, b: int, A': int, B': int)
    requires C > 0 && p > 0 && A > 0 && a > 0 && MergesTo(base, targetRemainder, C, A, B, p, a, b, A', B')
    ensures 0 <= B' < A' && C * p > 0 && CheckPasses(base, targetRemainder, C * p, A', B')
  {
    MulAtLeast(C, p);
  }

  /** When the check fails on the refined class, merge succeeds with no class. */
  lemma FailedCheckMergesNothing(base: int, targetRemainder: int, C: int, A: int, B: int, p: int, a: int, b: int, A': int, B': int)
    requires C > 0 && p > 0 && A > 0 && a > 0 && Refines(C, A, B, p, a, b, A', B')
    requires C * p > 0 && !CheckPasses(base, targetRemainder, C * p, A', B')
    ensures forall A'', B'' :: !MergesTo(base, targetRemainder, C, A, B, p, a, b, A'', B'')
  {
    forall A'', B'' | MergesTo(base, targetRemainder, C, A, B, p, a, b, A'', B'')
      ensures false
    {
      RefinesUnique(C, A, B, p, a, b, A', B', A'', B'');
    }
  }

  /** b1 < a1 stays so when both are scaled by C > 0. */
  lemma ScaleKeepsOrder(a1: int, b1: int, C: int)
    requires C > 0 && b1 < a1
    ensures b1 * C < a1 * C
  {
    assert a1 * C - b1 * C == C * (a1 - b1);
    MulAtLeast(C, a1 - b1);
  }

  /**
   * The exact check of merge on N: base^((A + B)*N) mod N against the target
   * mod N, by the long pow when N fits a long and by BigInteger.modPow
   * otherwise.
   */
  method ExactCheck(base: int, targetRemainder: int, N: int, A: int, B: int) returns (passed: bool)
    requires base > 1 && N > 0 && A > 0 && B >= 0
    ensures passed == CheckPasses(base, targetRemainder, N, A, B)
  {
    var exp := (B + A) * N;
    MulNonneg(B + A, N);
    if N <= Common.MAX_LONG {
      var v := ModUtils.Pow(Common.Mod(base, N), exp, N);
      PowerMod(base, exp, N);
      passed := v == Common.Mod(targetRemainder, N);
    } else {
      var v := ModUtils.PowBig(base, exp, N);
      passed := v == Common.Mod(targetRemainder, N);
    }
  }

  /**
   * Restrictions.merge: a node over modulus C whose exponents are x = C*y with
   * y == B (mod A), refined by the prime p with its restriction b mod a on
   * x / p. The refined exponents are x = C*p*z; divideLinearSum keeps the y
   * that p divides, the generalized merge adds the prime's restriction, and
   * the exact check base^((A'+B')*C*p) == targetRemainder (mod C*p) decides.
   */
  method Merge(base: int, targetRemainder: int, C: int, A: int, B: int, p: int, a: int, b: int)
    returns (r: Option<(int, int)>)
    requires base > 1 && C > 0 && A > 0 && B >= 0 && IsPrime(p) && a > 0 && b >= 0
    ensures A % p == 0 && B % p != 0 ==> r.None?
    ensures r.Some? ==> r.value.0 > 0 && r.value.1 >= 0
    ensures r.Some? ==>
              forall z :: Congruent(z, r.value.1, r.value.0) <==> Congruent(p * z, B, A) && Congruent(C * z, b, a)
    ensures r.Some? ==> CheckPasses(base, targetRemainder, C * p, r.value.0, r.value.1)
    ensures B < A && b < a && r.Some? ==> MergesTo(base, targetRemainder, C, A, B, p, a, b, r.value.0, r.value.1)
    ensures B < A && b < a && r.None? ==> forall A', B' :: !MergesTo(base, targetRemainder, C, A, B, p, a, b, A', B')
  {
    var withP := ModUtils.DivideLinearSum(A, B, p);
    if withP.None? {
      forall A', B' {
        BlockedRefinesNothing(C, A, B, p, a, b, A', B');
      }
      return None;
    }
    var a1, b1 := withP.value.0, withP.value.1;
    if B < A {
      ScaleKeepsOrder(a1, b1, C);
    }
    var newAB := ModUtils.Merge(a1 * C, b1 * C, a, b);
    if newAB.None? {
      forall A', B' {
        DisjointRefinesNothing(C, A, B, p, a, b, a1, b1, A', B');
      }
      return None;
    }
    var NA, NB := newAB.value.0, newAB.value.1;
    MergeClasses(A, B, p, C, a, b, a1, b1, NA, NB);
    if B < A && b < a {
      MergedRefines(A, B, p, C, a, b, a1, b1, NA, NB);
    }
    var A', B' := NA / C, NB / C;
    MulNonneg(C, p);
    var checkPassed := ExactCheck(base, targetRemainder, C * p, A', B');
    if checkPassed {
      return Some((A', B'));
    }
    if B < A && b < a {
      FailedCheckMergesNothing(base, targetRemainder, C, A, B, p, a, b, A', B');
    }
    return None;
  }
}
