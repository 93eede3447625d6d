/**
 * scan/ModPowCalculator.java: base^exp * multiplier modulo a varying
 * modulus. A modulus that fits a long and has a ModUtils multiplier takes the
 * long square-and-multiply path; any other modulus goes through BigInteger.
 */
module ModPowCalculator {
  import opened Wrappers
  import opened Arith
  import opened JavaLang
  import Common
  import ModUtils

  /**
   * The calculator's fields: the base as a long (0 when it does not fit
   * one), the base itself, the exponent and the multiplier.
   */
  datatype Calculator = Calculator(baseLong: int, baseBig: int, exp: nat, multiplierLong: int, multiplierBig: int)

  /** What the constructor sets up: baseLong mirrors a base that fits a long, and the multiplier fits one. */
  predicate Built(c: Calculator)
  {
    && c.baseLong == (if c.baseBig <= Common.MAX_LONG then c.baseBig else 0)
    && LONG_MIN <= c.baseLong <= LONG_MAX
    && c.multiplierLong == c.multiplierBig
    && LONG_MIN <= c.multiplierLong <= LONG_MAX
  }

  /** new ModPowCalculator(base, exp, multiplier); longValueExact demands a base of at least Long.MIN_VALUE and a multiplier that fits a long. */
  function New(base: int, exp: nat, multiplier: int): (c: Calculator)
    requires LONG_MIN <= base && LONG_MIN <= multiplier <= LONG_MAX
    ensures Built(c) && c.baseBig == base && c.exp == exp && c.multiplierBig == multiplier
  {
    Calculator(if base <= Common.MAX_LONG then base else 0, base, exp, multiplier, multiplier)
  }

  /** calculate(mod): (base^exp * multiplier) mod mod, on the long path when it exists. */
  method Calculate(c: Calculator, mod: int) returns (r: int)
    requires Built(c) && mod > 0
    ensures 0 <= r < mod
    ensures r == (Power(c.baseBig, c.exp) * c.multiplierBig) % mod
  {
    if c.exp == 0 {
      return Common.ModBig(c.multiplierBig, mod);
    }
    if mod <= Common.MAX_LONG {
      var multiplier := ModUtils.ModMultiplier(mod);
      if multiplier.Some? {
        var f := multiplier.value;
        var baseMod := if c.baseLong != 0 then Common.Mod(c.baseLong, mod) else Common.ModBig(c.baseBig, mod);
        assert baseMod == c.baseBig % mod;
        r := Pow(baseMod, c.exp, f, mod);
        PowerMod(c.baseBig, c.exp, mod);
        if c.multiplierLong != 1 {
          ModMul(Power(c.baseBig, c.exp), c.multiplierBig, mod);
          r := ModUtils.Apply(f, mod, r, Common.Mod(c.multiplierLong, mod));
        }
        return;
      }
    }
    if c.multiplierLong == 1 {
      r := Power(c.baseBig, c.exp) % mod;
    } else {
      ModMulLeft(Power(c.baseBig, c.exp), c.multiplierBig, mod);
      r := Common.ModBig((Power(c.baseBig, c.exp) % mod) * c.multiplierBig, mod);
    }
  }

  /**
   * pow(b, n, modMultiplier): mult(1, 1) for n == 0, otherwise
   * square-and-multiply that first squares up to the lowest set bit of n.
   */
  method Pow(b: int, n: nat, f: ModUtils.Multiplier, m: int) returns (r: int)
    requires m > 0 && ModUtils.ModMultiplier(m) == Some(f) && 0 <= b < m
    ensures 0 <= r < m
    ensures r == Power(b, n) % m
  {
    if n == 0 {
      return ModUtils.Apply(f, m, 1, 1);
    }
    var len := BitLength(n);
    var p := 0;
    var t := b;
    assert ModUtils.Shift(n, 0) == n;
    while !ModUtils.TestBit(n, p)
      invariant ModUtils.Shift(n, p) >= 1 && 0 <= t < m
      invariant Power(t, ModUtils.Shift(n, p)) % m == Power(b, n) % m
      decreases ModUtils.Shift(n, p)
    {
      ModUtils.PowHalf(t, ModUtils.Shift(n, p), m);
      ModUtils.ShiftNext(n, p);
      t := ModUtils.Apply(f, m, t, t);
      p := p + 1;
    }
    ModUtils.ShiftBelowBits(n, p);
    ModUtils.PowOdd(t, ModUtils.Shift(n, p));
    ModUtils.ShiftNext(n, p);
    r := Multiply(f, m, n, p + 1, t);
  }

  /** The multiply phase of pow: bits i = p+1 .. bitLength-1 of n, squaring t and multiplying res on each set bit. */
  method Multiply(f: ModUtils.Multiplier, m: int, n: nat, start: nat, t0: int) returns (res: int)
    requires m > 0 && ModUtils.ModMultiplier(m) == Some(f)
    requires start <= BitLength(n) && 0 <= t0 < m
    ensures 0 <= res < m
    ensures res == ModUtils.Pending(t0, t0, ModUtils.Shift(n, start), m)
  {
    ghost var target := ModUtils.Pending(t0, t0, ModUtils.Shift(n, start), m);
    var t := t0;
    res := t0;
    var len := BitLength(n);
    for i := start to len
      invariant 0 <= t < m && 0 <= res < m
      invariant ModUtils.Pending(res, t, ModUtils.Shift(n, i), m) == target
    {
      ModUtils.PowStep(res, t, ModUtils.Shift(n, i), m);
      ModUtils.ShiftNext(n, i);
      t := ModUtils.Apply(f, m, t, t);
      if ModUtils.TestBit(n, i) {
        res := ModUtils.Apply(f, m, res, t);
      }
    }
    ModUtils.ShiftPastBits(n, len);
    ModUtils.PendingDone(res, t, m);
  }
}
