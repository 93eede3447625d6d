/**
 * The prime marking that scan/ScanSieve.java (BitSetGenerator.generate),
 * scan/Scanner.java and Scanner.java (generateBitSet) share. For each sieving
 * prime p the positions j of the progression start + j*step that p divides
 * are set, every p-th position from the first one; null when p divides every
 * value; and the position whose value is p itself is cleared again.
 */
module Marking {
  import opened Wrappers
  import opened Arith
  import Common

  /** The value at position j of the progression. */
  function Value(start: int, step: int, j: int): int
  {
    start + j * step
  }

  /**
   * The position whose value is v in a progression with a positive step, as
   * the toSkip map of the scanners records it; -1 when no position j >= 0
   * holds v.
   */
  function PositionOf(start: int, step: int, v: int): (c: int)
    requires step >= 1
    ensures c >= -1
    ensures c >= 0 ==> Value(start, step, c) == v
    ensures forall j :: j >= 0 && Value(start, step, j) == v ==> c == j
  {
    assert forall j :: j >= 0 && Value(start, step, j) == v ==>
      v >= start && (v - start) % step == 0 && (v - start) / step == j by {
      forall j | j >= 0 && Value(start, step, j) == v
        ensures v >= start && (v - start) % step == 0 && (v - start) / step == j
      {
        MulNonneg(j, step);
        ModMultiple(step, j);
      }
    }
    if v >= start && (v - start) % step == 0 then
      assert Value(start, step, (v - start) / step) == v by {
        DivOfMultiple(v - start, step);
      }
      (v - start) / step
    else -1
  }

  /** Values of a progression with a positive step grow with the position. */
  lemma ValueGrows(start: int, step: int, i: int, t: int)
    requires step >= 1 && i <= t
    ensures Value(start, step, i) <= Value(start, step, t)
  {
    MulNonneg(t - i, step);
    assert Value(start, step, t) - Value(start, step, i) == (t - i) * step;
  }

  /** j is one of first, first + p, first + 2p, ... */
  predicate InClass(first: int, p: int, j: int)
    requires p > 0
  {
    first <= j && (j - first) % p == 0
  }

  /**
   * What the branch on startModP and stepMod decides: null (p divides every
   * value), pStep == -1 (p divides none) or every p-th position from pStart.
   */
  datatype Offset = Always | Never | From(first: int)

  /**
   * The branch itself, for b == start mod p and a == step mod p: b == 0 starts
   * at 0, unless a == 0 too; otherwise a == 0 marks nothing and the first
   * position is -b*inv mod p, inv being the inverse of a.
   */
  function FirstMultiple(b: int, a: int, inv: int, p: int): (o: Offset)
    requires p > 0
    ensures o.From? ==> 0 <= o.first < p
  {
    if b == 0 then (if a == 0 then Always else From(0))
    else if a == 0 then Never
    else From(Common.Mod(-b * inv, p))
  }

  /** For j >= 0 and a first position below p, the class test is a residue test. */
  lemma InClassMod(first: int, p: int, j: int)
    requires 0 <= first < p && j >= 0
    ensures InClass(first, p, j) <==> j % p == first
  {
    CongIffDivides(j, first, p);
    ModSmall(first, p);
    if j % p == first {
      assert j == p * (j / p) + first;
      MulNonneg(p, j / p);
    }
  }

  /** With a*inv == 1 mod p, j hits -b*inv mod p exactly when p divides b + j*a. */
  lemma ClassHit(b: int, a: int, inv: int, p: int, j: int)
    requires IsPrime(p) && 0 < a < p && (a * inv) % p == 1
    ensures j % p == (-b * inv) % p <==> (b + j * a) % p == 0
  {
    ModSmall(a, p);
    ModSmall(1, p);
    assert a * (-b * inv) == (-b) * (a * inv);
    CongMul(-b, -b, a * inv, 1, p);
    assert (a * (-b * inv)) % p == (-b) % p;
    CongIffDivides(a * j, -b, p);
    assert a * j - (-b) == b + j * a;
    if j % p == (-b * inv) % p {
      ModSmall(a, p);
      CongMul(a, a, j, -b * inv, p);
    }
    if (b + j * a) % p == 0 {
      CancelMod(p, a, j, -b * inv);
    }
  }

  /**
   * The branch finds exactly the positions p divides: null when p divides
   * start and step, none when it divides step only, and otherwise the
   * positions from the first one, every p-th.
   */
  lemma OffsetMeaning(start: int, step: int, b: int, a: int, inv: int, p: int)
    requires IsPrime(p) && b == start % p && a == step % p
    requires a != 0 ==> (a * inv) % p == 1
    ensures FirstMultiple(b, a, inv, p).Always? <==> start % p == 0 && step % p == 0
    ensures FirstMultiple(b, a, inv, p).Never? ==> forall j :: Value(start, step, j) % p != 0
    ensures FirstMultiple(b, a, inv, p).From? ==>
      forall j :: j >= 0 ==> (InClass(FirstMultiple(b, a, inv, p).first, p, j) <==> Value(start, step, j) % p == 0)
  {
    var o := FirstMultiple(b, a, inv, p);
    forall j
      ensures Value(start, step, j) % p == (b + j * a) % p
    {
      ModIdempotent(start, p);
      ModIdempotent(step, p);
      CongMul(j, j, step, a, p);
      CongAdd(start, b, j * step, j * a, p);
    }
    if o.Never? {
      forall j
        ensures Value(start, step, j) % p != 0
      {
        assert b + j * a == b;
        ModSmall(b, p);
      }
    } else if o.From? {
      forall j | j >= 0
        ensures InClass(o.first, p, j) <==> Value(start, step, j) % p == 0
      {
        InClassMod(o.first, p, j);
        if b == 0 {
          ModSmall(0, p);
          assert b + j * a == a * j;
          if (a * j) % p == 0 {
            ModSmall(a, p);
            EuclidLemma(p, a, j);
          }
          if j % p == 0 {
            DividesMul(p, j, a);
            assert j * a == a * j;
          }
        } else {
          ClassHit(b, a, inv, p, j);
        }
      }
    }
  }

  // ------------------------------------------------------------------
  // Setting and clearing bits
  // ------------------------------------------------------------------

  /** The for loop of bitSet.set(j) over j = first, first + p, ... below length. */
  function Marked(b: seq<bool>, first: int, p: int, length: int): (r: seq<bool>)
    requires p > 0
    ensures |r| == |b|
  {
    seq(|b|, j requires 0 <= j < |b| => b[j] || (j < length && InClass(first, p, j)))
  }

  /** bitSet.clear(c); nothing for a position outside the bits. */
  function Cleared(b: seq<bool>, c: int): (r: seq<bool>)
    ensures |r| == |b|
  {
    if 0 <= c < |b| then b[c := false] else b
  }

  /** Only first itself lies in [first, first + p) among the positions of its class. */
  lemma NextInClass(first: int, p: int, j: int, t: int)
    requires p > 0 && InClass(first, p, j) && j <= t < j + p && InClass(first, p, t)
    ensures t == j
  {
    CongIffDivides(t, first, p);
    CongIffDivides(j, first, p);
    CongIffDivides(t, j, p);
    ModSmall(t - j, p);
  }

  /** The marking loop, on the bit set as an array. */
  method MarkMultiples(bits: array<bool>, first: int, p: int, length: int)
    requires 0 <= first && p > 0 && length <= bits.Length
    modifies bits
    ensures bits[..] == Marked(old(bits[..]), first, p, length)
  {
    ghost var b := bits[..];
    var j := first;
    while j < length
      invariant InClass(first, p, j)
      invariant forall t :: 0 <= t < bits.Length ==> bits[t] == (b[t] || (t < j && t < length && InClass(first, p, t)))
      decreases length - j
    {
      bits[j] := true;
      forall t | j < t < j + p && InClass(first, p, t)
        ensures false
      {
        NextInClass(first, p, j, t);
      }
      assert InClass(first, p, j + p) by {
        ModAddMultiple(j - first, p, 1);
      }
      j := j + p;
    }
  }

  // ------------------------------------------------------------------
  // The whole marking, prime by prime
  // ------------------------------------------------------------------

  /** What the loop does with one prime: skip it, or find its offset and clear position. */
  datatype Plan = Skip | Prime(p: int, offset: Offset, clear: int)

  /** Every prime of the plans is positive. */
  predicate Positive(plans: seq<Plan>)
  {
    forall i :: 0 <= i < |plans| && plans[i].Prime? ==> plans[i].p > 0
  }

  /** One prime: null, nothing, or its positions set and then its clear position cleared. */
  function Apply(b: seq<bool>, pl: Plan, length: int): (r: Option<seq<bool>>)
    requires pl.Prime? ==> pl.p > 0
    ensures r.Some? ==> |r.value| == |b|
  {
    match pl
    case Skip => Some(b)
    case Prime(p, o, c) =>
      match o
      case Always => None
      case Never => Some(b)
      case From(first) => Some(Cleared(Marked(b, first, p, length), c))
  }

  /** The primes in order from the initial bits; the first null ends it. */
  function SieveAll(init: seq<bool>, plans: seq<Plan>, length: int): (r: Option<seq<bool>>)
    requires Positive(plans)
    ensures r.Some? ==> |r.value| == |init|
  {
    if |plans| == 0 then Some(init)
    else
      match SieveAll(init, plans[..|plans| - 1], length)
      case None => None
      case Some(b) => Apply(b, plans[|plans| - 1], length)
  }

  /** One more plan: the fold over plans[..i + 1] applies plans[i] to the fold over plans[..i]. */
  lemma SieveAllStep(init: seq<bool>, plans: seq<Plan>, i: int, length: int)
    requires Positive(plans) && 0 <= i < |plans|
    ensures SieveAll(init, plans[..i + 1], length) ==
      (match SieveAll(init, plans[..i], length)
       case None => None
       case Some(b) => Apply(b, plans[i], length))
  {
    assert plans[..i + 1][..i] == plans[..i];
  }

  /** A null prefix of the marking makes the whole marking null. */
  lemma NullStays(init: seq<bool>, plans: seq<Plan>, n: nat, length: int)
    requires Positive(plans) && n <= |plans|
    requires SieveAll(init, plans[..n], length).None?
    ensures SieveAll(init, plans, length).None?
  {
    SieveAllNull(init, plans[..n], length);
    SieveAllNull(init, plans, length);
    var i :| 0 <= i < n && plans[..n][i].Prime? && plans[..n][i].offset.Always?;
    assert plans[i] == plans[..n][i];
  }

  /**
   * A plan does what it should for the progression: its prime is prime, it is
   * null exactly when p divides start and step, it marks exactly the positions
   * below length that p divides, and it clears exactly the position whose
   * value is p.
   */
  ghost predicate Fits(pl: Plan, start: int, step: int, length: int)
  {
    pl.Prime? ==>
      && IsPrime(pl.p)
      && (pl.offset.Always? <==> start % pl.p == 0 && step % pl.p == 0)
      && (pl.offset.Never? ==> forall j :: 0 <= j < length ==> Value(start, step, j) % pl.p != 0)
      && (pl.offset.From? ==> forall j :: 0 <= j < length ==>
            (InClass(pl.offset.first, pl.p, j) <==> Value(start, step, j) % pl.p == 0))
      && (0 <= pl.clear < length ==> Value(start, step, pl.clear) == pl.p)
      && (forall j :: 0 <= j < length && Value(start, step, j) == pl.p ==> pl.clear == j)
  }

  ghost predicate AllFit(plans: seq<Plan>, start: int, step: int, length: int)
  {
    forall i :: 0 <= i < |plans| ==> Fits(plans[i], start, step, length)
  }

  /** No prime is planned twice. */
  ghost predicate Distinct(plans: seq<Plan>)
  {
    forall i, k :: 0 <= i < k < |plans| && plans[i].Prime? && plans[k].Prime? ==> plans[i].p != plans[k].p
  }

  /** v is one of the planned primes. */
  ghost predicate Struck(plans: seq<Plan>, v: int)
  {
    exists i :: 0 <= i < |plans| && plans[i].Prime? && plans[i].p == v
  }

  /** Some planned prime divides v. */
  ghost predicate DividedBy(plans: seq<Plan>, v: int)
  {
    exists i :: 0 <= i < |plans| && plans[i].Prime? && plans[i].p > 0 && v % plans[i].p == 0
  }

  /** The marking is null exactly when some prime's offset is null. */
  lemma {:induction false} SieveAllNull(init: seq<bool>, plans: seq<Plan>, length: int)
    requires Positive(plans)
    ensures SieveAll(init, plans, length).None? <==>
      exists i :: 0 <= i < |plans| && plans[i].Prime? && plans[i].offset.Always?
  {
    if |plans| > 0 {
      var pre := plans[..|plans| - 1];
      SieveAllNull(init, pre, length);
      if SieveAll(init, pre, length).None? {
        var i :| 0 <= i < |pre| && pre[i].Prime? && pre[i].offset.Always?;
        assert plans[i] == pre[i];
      } else {
        forall i | 0 <= i < |plans| - 1 && plans[i].Prime?
          ensures !plans[i].offset.Always?
        {
          assert pre[i] == plans[i];
        }
      }
    }
  }

  /**
   * Which bits the marking leaves set: below length, a position is set
   * exactly when its value is not one of the primes and it was set to begin
   * with or some prime divides its value.
   */
  lemma {:induction false} SieveAllMarks(init: seq<bool>, plans: seq<Plan>, start: int, step: int, length: int, j: int)
    requires Positive(plans) && AllFit(plans, start, step, length) && Distinct(plans)
    requires 0 <= j < length <= |init|
    requires SieveAll(init, plans, length).Some?
    ensures SieveAll(init, plans, length).value[j] ==
      (!Struck(plans, Value(start, step, j)) && (init[j] || DividedBy(plans, Value(start, step, j))))
  {
    var v := Value(start, step, j);
    if |plans| > 0 {
      var n := |plans| - 1;
      var pre := plans[..n];
      var q := plans[n];
      assert forall i :: 0 <= i < n ==> pre[i] == plans[i];
      assert SieveAll(init, pre, length).Some?;
      SieveAllMarks(init, pre, start, step, length, j);
      var b := SieveAll(init, pre, length).value;
      var r := SieveAll(init, plans, length).value;
      LastStep(init, plans, start, step, length, j, b, r);
    }
  }

  /** A value is struck by the plans when the prefix or the last plan strikes it. */
  lemma StruckLast(plans: seq<Plan>, v: int)
    requires |plans| > 0
    ensures Struck(plans, v) <==>
      Struck(plans[..|plans| - 1], v) || (plans[|plans| - 1].Prime? && plans[|plans| - 1].p == v)
  {
    var pre := plans[..|plans| - 1];
    if Struck(plans, v) {
      var i :| 0 <= i < |plans| && plans[i].Prime? && plans[i].p == v;
      if i < |pre| {
        assert pre[i] == plans[i];
      }
    }
    if Struck(pre, v) {
      var i :| 0 <= i < |pre| && pre[i].Prime? && pre[i].p == v;
      assert pre[i] == plans[i];
    }
  }

  /** A value is divided by the plans when the prefix or the last plan divides it. */
  lemma DividedLast(plans: seq<Plan>, v: int)
    requires |plans| > 0
    ensures DividedBy(plans, v) <==>
      DividedBy(plans[..|plans| - 1], v) || (plans[|plans| - 1].Prime? && plans[|plans| - 1].p > 0 && v % plans[|plans| - 1].p == 0)
  {
    var pre := plans[..|plans| - 1];
    if DividedBy(plans, v) {
      var i :| 0 <= i < |plans| && plans[i].Prime? && plans[i].p > 0 && v % plans[i].p == 0;
      if i < |pre| {
        assert pre[i] == plans[i];
      }
    }
    if DividedBy(pre, v) {
      var i :| 0 <= i < |pre| && pre[i].Prime? && pre[i].p > 0 && v % pre[i].p == 0;
      assert pre[i] == plans[i];
    }
  }

  /** The step of SieveAllMarks: what the last prime does to position j. */
  lemma LastStep(init: seq<bool>, plans: seq<Plan>, start: int, step: int, length: int, j: int, b: seq<bool>, r: seq<bool>)
    requires Positive(plans) && AllFit(plans, start, step, length) && Distinct(plans)
    requires 0 <= j < length <= |init| && |plans| > 0
    requires SieveAll(init, plans[..|plans| - 1], length) == Some(b)
    requires SieveAll(init, plans, length) == Some(r)
    requires b[j] == (!Struck(plans[..|plans| - 1], Value(start, step, j)) &&
      (init[j] || DividedBy(plans[..|plans| - 1], Value(start, step, j))))
    ensures r[j] == (!Struck(plans, Value(start, step, j)) && (init[j] || DividedBy(plans, Value(start, step, j))))
  {
    var v := Value(start, step, j);
    var n := |plans| - 1;
    var q := plans[n];
    StruckLast(plans, v);
    DividedLast(plans, v);
    assert Fits(q, start, step, length);
    if q.Skip? || q.offset.Never? {
      assert r == b;
      assert q.Prime? ==> v % q.p != 0 && v != q.p;
    } else {
      MarkStep(init, plans, start, step, length, j, b, r);
    }
  }

  /** LastStep for a last prime that marks. */
  lemma MarkStep(init: seq<bool>, plans: seq<Plan>, start: int, step: int, length: int, j: int, b: seq<bool>, r: seq<bool>)
    requires Positive(plans) && AllFit(plans, start, step, length) && Distinct(plans)
    requires 0 <= j < length <= |init| && |plans| > 0
    requires plans[|plans| - 1].Prime? && plans[|plans| - 1].offset.From?
    requires SieveAll(init, plans[..|plans| - 1], length) == Some(b)
    requires SieveAll(init, plans, length) == Some(r)
    requires b[j] == (!Struck(plans[..|plans| - 1], Value(start, step, j)) &&
      (init[j] || DividedBy(plans[..|plans| - 1], Value(start, step, j))))
    requires Struck(plans, Value(start, step, j)) <==>
      Struck(plans[..|plans| - 1], Value(start, step, j)) || plans[|plans| - 1].p == Value(start, step, j)
    requires DividedBy(plans, Value(start, step, j)) <==>
      DividedBy(plans[..|plans| - 1], Value(start, step, j)) || Value(start, step, j) % plans[|plans| - 1].p == 0
    ensures r[j] == (!Struck(plans, Value(start, step, j)) && (init[j] || DividedBy(plans, Value(start, step, j))))
  {
    var v := Value(start, step, j);
    var n := |plans| - 1;
    var pre := plans[..n];
    var q := plans[n];
    var p := q.p;
    assert Fits(q, start, step, length);
    assert r == Cleared(Marked(b, q.offset.first, p, length), q.clear);
    if j != q.clear {
      assert r[j] == (b[j] || InClass(q.offset.first, p, j));
      assert v != p;
      if Struck(pre, v) && v % p == 0 {
        var i :| 0 <= i < n && pre[i].Prime? && pre[i].p == v;
        assert pre[i] == plans[i];
        assert Fits(plans[i], start, step, length);
        PrimeDivisors(v, p);
      }
    }
  }
}
