/**
 * scan/ModPowCalculatorFactory.java: precomputes the powers of the base that
 * fit a long, so that base^exp is handed to a calculator as
 * (base^k)^(exp / k) * base^(exp mod k) with every factor within a long.
 */
module ModPowCalculatorFactory {
  import opened Arith
  import opened JavaLang
  import Common
  import MPC = ModPowCalculator

  /** The factory's fields: the base, the powers [1, base, ..., base^k] and k. */
  datatype Factory = Factory(base: int, basePowers: seq<int>, lastPower: int)

  /** basePowers[i] is base^i for every stored i. */
  predicate PowersOf(ps: seq<int>, base: int)
  {
    forall i :: 0 <= i < |ps| ==> ps[i] == Power(base, i)
  }

  /**
   * What the constructor builds: all the powers of base up to Long.MAX_VALUE,
   * the next one above it, and lastPower the index of the last.
   */
  predicate Valid(f: Factory)
  {
    && f.base >= 2
    && |f.basePowers| >= 1
    && PowersOf(f.basePowers, f.base)
    && f.basePowers[|f.basePowers| - 1] <= Common.MAX_LONG < f.basePowers[|f.basePowers| - 1] * f.base
    && f.lastPower == |f.basePowers| - 1
  }

  /** The constructor: multiplies basePow by base while it stays within a long, collecting each value. */
  method New(base: int) returns (f: Factory)
    requires base >= 2
    ensures Valid(f) && f.base == base
  {
    var buf: seq<int> := [];
    var basePow := 1;
    while basePow <= Common.MAX_LONG
      invariant basePow == Power(base, |buf|) && basePow >= 1
      invariant PowersOf(buf, base)
      invariant |buf| == 0 ==> basePow == 1
      invariant |buf| > 0 ==> buf[|buf| - 1] <= Common.MAX_LONG && basePow == buf[|buf| - 1] * base
      decreases Common.MAX_LONG + 1 - basePow
    {
      buf := buf + [basePow];
      MulAtLeast(basePow, base - 1);
      assert basePow * base == basePow * (base - 1) + basePow;
      basePow := basePow * base;
    }
    f := Factory(base, buf, |buf| - 1);
  }

  /**
   * createCalculator(exp): with at least two stored powers, exp = q*k + r
   * gives the calculator (base^k, q, base^r); otherwise (base, exp, 1).
   * Either way the calculator computes base^exp.
   */
  function CreateCalculator(f: Factory, exp: nat): (c: MPC.Calculator)
    requires Valid(f)
    ensures MPC.Built(c)
    ensures Power(c.baseBig, c.exp) * c.multiplierBig == Power(f.base, exp)
    ensures |f.basePowers| >= 2 ==> 0 <= c.baseBig <= Common.MAX_LONG && 0 < c.multiplierBig < c.baseBig
  {
    if |f.basePowers| < 2 then
      MPC.New(f.base, exp, 1)
    else
      var k := f.lastPower;
      var q := exp / k;
      var r := exp % k;
      assert exp == k * q + r;
      PowerMul(f.base, k, q);
      PowerAdd(f.base, k * q, r);
      PowerGrows(f.base, r, k);
      PowerPositive(f.base, r);
      MPC.New(f.basePowers[k], q, f.basePowers[r])
  }
}
