/**
 * common/LongMod.java: a "multiply and step" accumulator modulo a fixed long
 * modulus. step() multiplies the current value by the step multiplier and
 * returns it; getAux() returns the current value times the auxiliary
 * multiplier without moving. Two implementations exist: one over the long
 * multiplier of ModUtils.modMultiplier, one over BigInteger arithmetic.
 */
module LongMod {
  import opened Wrappers
  import opened Arith
  import opened JavaLang
  import Common
  import ModUtils

  /**
   * What LongMod.create hands out. The source calls Modules.modMultiplier(long),
   * which only ModUtils defines; that is the one used here.
   */
  datatype Impl = Long(long: LongBased) | Big(big: BigIntegerBased)

  /** The multiplier in force at every step() so far multiplies to current. */
  lemma {:induction false} RepeatedProduct(h: seq<int>, s: int)
    requires forall i :: 0 <= i < |h| ==> h[i] == s
    ensures Common.Product(h) == Power(s, |h|)
    decreases |h|
  {
    if h != [] {
      RepeatedProduct(h[1..], s);
    }
  }

  /** Multiplying congruent values by the same x keeps them congruent. */
  lemma StepCongruent(current: int, h: seq<int>, x: int, m: int)
    requires m > 0 && current % m == Common.Product(h) % m
    ensures (current * x) % m == Common.Product(h + [x]) % m
  {
    Common.ProductSnoc(h, x);
    CongMul(current, Common.Product(h), x, x, m);
  }

  class LongBased {
    const mod: int
    const multiplier: ModUtils.Multiplier
    var step: int
    var aux: int
    var current: int
    /** The step multiplier in force at each call of step() so far. */
    ghost var history: seq<int>

    ghost predicate Valid()
      reads this
    {
      mod > 0 && ModUtils.ModMultiplier(mod) == Some(multiplier) &&
      (step == 1 || 0 <= step < mod) && (aux == 1 || 0 <= aux < mod) &&
      (current == 1 || 0 <= current < mod) &&
      (history == [] ==> current == 1) &&
      (history != [] ==> 0 <= current < mod) &&
      current % mod == Common.Product(history) % mod
    }

    constructor (mod: int, multiplier: ModUtils.Multiplier)
      requires mod > 0 && ModUtils.ModMultiplier(mod) == Some(multiplier)
      ensures Valid()
      ensures this.mod == mod && this.multiplier == multiplier
      ensures step == 1 && aux == 1 && current == 1 && history == []
    {
      this.mod := mod;
      this.multiplier := multiplier;
      step := 1;
      aux := 1;
      current := 1;
      history := [];
    }

    /** setStepMultiplier: the multiplier reduced into [0, mod); current is untouched. */
    method SetStepMultiplier(x: int)
      requires Valid()
      modifies this
      ensures Valid()
      ensures step == x % mod && 0 <= step < mod
      ensures aux == old(aux) && current == old(current) && history == old(history)
    {
      step := Common.Mod(x, mod);
    }

    /** setAuxMultiplier: the multiplier reduced into [0, mod); current is untouched. */
    method SetAuxMultiplier(x: int)
      requires Valid()
      modifies this
      ensures Valid()
      ensures aux == x % mod && 0 <= aux < mod
      ensures step == old(step) && current == old(current) && history == old(history)
    {
      aux := Common.Mod(x, mod);
    }

    /** step(): current := current * step mod m, which is then returned. */
    method Step() returns (r: int)
      requires Valid()
      modifies this
      ensures Valid()
      ensures r == current && current == (old(current) * old(step)) % mod
      ensures history == old(history) + [old(step)]
      ensures r == Common.Product(history) % mod
      ensures step == old(step) && aux == old(aux)
    {
      StepCongruent(current, history, step, mod);
      current := ModUtils.Apply(multiplier, mod, current, step);
      history := history + [step];
      ModIdempotent(Common.Product(history), mod);
      ModSmall(current, mod);
      r := current;
    }

    /** getAux(): current * aux mod m, leaving the state alone. */
    method GetAux() returns (r: int)
      requires Valid()
      ensures 0 <= r < mod && r == (current * aux) % mod
      ensures r == (Common.Product(history) * aux) % mod
    {
      r := ModUtils.Apply(multiplier, mod, current, aux);
      CongMul(current, Common.Product(history), aux, aux, mod);
    }

    method GetMod() returns (r: int)
      ensures r == mod
    {
      r := mod;
    }
  }

  class BigIntegerBased {
    const mod: int
    var step: int
    var aux: int
    var current: int
    /** The step multiplier in force at each call of step() so far. */
    ghost var history: seq<int>

    ghost predicate Valid()
      reads this
    {
      mod > 0 &&
      (step == 1 || 0 <= step < mod) && (aux == 1 || 0 <= aux < mod) &&
      (current == 1 || 0 <= current < mod) &&
      (history == [] ==> current == 1) &&
      (history != [] ==> 0 <= current < mod) &&
      current % mod == Common.Product(history) % mod
    }

    constructor (mod: int)
      requires mod > 0
      ensures Valid()
      ensures this.mod == mod
      ensures step == 1 && aux == 1 && current == 1 && history == []
    {
      this.mod := mod;
      step := 1;
      aux := 1;
      current := 1;
      history := [];
    }

    /** setStepMultiplier: BigInteger.valueOf(Common.mod(multiplier, mod)). */
    method SetStepMultiplier(x: int)
      requires Valid()
      modifies this
      ensures Valid()
      ensures step == x % mod && 0 <= step < mod
      ensures aux == old(aux) && current == old(current) && history == old(history)
    {
      step := Common.Mod(x, mod);
    }

    /** setAuxMultiplier: BigInteger.valueOf(Common.mod(multiplier, mod)). */
    method SetAuxMultiplier(x: int)
      requires Valid()
      modifies this
      ensures Valid()
      ensures aux == x % mod && 0 <= aux < mod
      ensures step == old(step) && current == old(current) && history == old(history)
    {
      aux := Common.Mod(x, mod);
    }

    /** step(): current := current.multiply(step).mod(mod), then returned as a long. */
    method Step() returns (r: int)
      requires Valid()
      modifies this
      ensures Valid()
      ensures r == current && current == (old(current) * old(step)) % mod
      ensures history == old(history) + [old(step)]
      ensures r == Common.Product(history) % mod
      ensures step == old(step) && aux == old(aux)
    {
      StepCongruent(current, history, step, mod);
      current := (current * step) % mod;
      history := history + [step];
      ModIdempotent(Common.Product(history), mod);
      r := current;
    }

    /** getAux(): current.multiply(aux).mod(mod), leaving the state alone. */
    method GetAux() returns (r: int)
      requires Valid()
      ensures 0 <= r < mod && r == (current * aux) % mod
      ensures r == (Common.Product(history) * aux) % mod
    {
      r := (current * aux) % mod;
      CongMul(current, Common.Product(history), aux, aux, mod);
    }

    method GetMod() returns (r: int)
      ensures r == mod
    {
      r := mod;
    }
  }

  /**
   * create(mod): the long-based accumulator when a long multiplier exists for
   * mod, the BigInteger-based one otherwise; both start with current, step
   * and aux at 1.
   */
  method Create(mod: int) returns (r: Impl)
    requires mod > 0
    ensures r.Long? <==> ModUtils.ModMultiplier(mod).Some?
    ensures r.Long? ==> fresh(r.long) && r.long.Valid() && r.long.mod == mod &&
                        r.long.current == 1 && r.long.step == 1 && r.long.aux == 1 && r.long.history == []
    ensures r.Big? ==> fresh(r.big) && r.big.Valid() && r.big.mod == mod &&
                       r.big.current == 1 && r.big.step == 1 && r.big.aux == 1 && r.big.history == []
    ensures fresh(Obj(r)) && Ready(r) && ModOf(r) == mod
    ensures CurrentOf(r) == 1 && StepOf(r) == 1 && AuxOf(r) == 1
  {
    var multiplier := ModUtils.ModMultiplier(mod);
    if multiplier.Some? {
      var l := new LongBased(mod, multiplier.value);
      r := Long(l);
    } else {
      var b := new BigIntegerBased(mod);
      r := Big(b);
    }
  }

  // ------------------------------------------------------------------
  // The LongMod interface: calls dispatched to whichever implementation
  // create handed out.
  // ------------------------------------------------------------------

  /** The object behind an accumulator. */
  function Obj(x: Impl): object
  {
    match x
    case Long(l) => l
    case Big(b) => b
  }

  ghost predicate Ready(x: Impl)
    reads Obj(x)
  {
    match x
    case Long(l) => l.Valid()
    case Big(b) => b.Valid()
  }

  function ModOf(x: Impl): int
  {
    match x
    case Long(l) => l.mod
    case Big(b) => b.mod
  }

  ghost function CurrentOf(x: Impl): int
    reads Obj(x)
  {
    match x
    case Long(l) => l.current
    case Big(b) => b.current
  }

  ghost function StepOf(x: Impl): int
    reads Obj(x)
  {
    match x
    case Long(l) => l.step
    case Big(b) => b.step
  }

  ghost function AuxOf(x: Impl): int
    reads Obj(x)
  {
    match x
    case Long(l) => l.aux
    case Big(b) => b.aux
  }

  /** getMod() through the interface. */
  method GetMod(x: Impl) returns (r: int)
    ensures r == ModOf(x)
  {
    match x
    case Long(l) => r := l.GetMod();
    case Big(b) => r := b.GetMod();
  }

  /** setStepMultiplier through the interface. */
  method SetStep(x: Impl, v: int)
    requires Ready(x)
    modifies Obj(x)
    ensures Ready(x) && StepOf(x) == v % ModOf(x)
    ensures CurrentOf(x) == old(CurrentOf(x)) && AuxOf(x) == old(AuxOf(x))
  {
    match x
    case Long(l) => l.SetStepMultiplier(v);
    case Big(b) => b.SetStepMultiplier(v);
  }

  /** setAuxMultiplier through the interface. */
  method SetAux(x: Impl, v: int)
    requires Ready(x)
    modifies Obj(x)
    ensures Ready(x) && AuxOf(x) == v % ModOf(x)
    ensures CurrentOf(x) == old(CurrentOf(x)) && StepOf(x) == old(StepOf(x))
  {
    match x
    case Long(l) => l.SetAuxMultiplier(v);
    case Big(b) => b.SetAuxMultiplier(v);
  }

  /** step() through the interface. */
  method Step(x: Impl) returns (r: int)
    requires Ready(x)
    modifies Obj(x)
    ensures Ready(x) && r == CurrentOf(x) && 0 <= r < ModOf(x)
    ensures r == (old(CurrentOf(x)) * old(StepOf(x))) % ModOf(x)
    ensures StepOf(x) == old(StepOf(x)) && AuxOf(x) == old(AuxOf(x))
  {
    match x
    case Long(l) => r := l.Step();
    case Big(b) => r := b.Step();
  }

  /** getAux() through the interface. */
  method GetAux(x: Impl) returns (r: int)
    requires Ready(x)
    ensures 0 <= r < ModOf(x) && r == (CurrentOf(x) * AuxOf(x)) % ModOf(x)
  {
    match x
    case Long(l) => r := l.GetAux();
    case Big(b) => r := b.GetAux();
  }

  /** The two implementations hold the same values. */
  ghost predicate Agree(l: LongBased, b: BigIntegerBased)
    reads l, b
  {
    l.mod == b.mod && l.step == b.step && l.aux == b.aux && l.current == b.current
  }

  /**
   * Both implementations answer every call alike: from agreeing states, the
   * same setter, step() and getAux() calls return the same values and leave
   * the states agreeing.
   */
  method StepBoth(l: LongBased, b: BigIntegerBased, x: int, y: int) returns (s1: int, s2: int, a1: int, a2: int)
    requires l.Valid() && b.Valid() && Agree(l, b)
    modifies l, b
    ensures l.Valid() && b.Valid() && Agree(l, b)
    ensures s1 == s2 && a1 == a2
  {
    l.SetStepMultiplier(x);
    b.SetStepMultiplier(x);
    s1 := l.Step();
    s2 := b.Step();
    l.SetAuxMultiplier(y);
    b.SetAuxMultiplier(y);
    a1 := l.GetAux();
    a2 := b.GetAux();
  }

  /** k calls of step() on a long-based accumulator that has not stepped yet. */
  method StepLong(l: LongBased, k: nat) returns (r: int)
    requires l.Valid() && l.history == [] && 0 <= l.step < l.mod
    modifies l
    ensures l.Valid()
    ensures r == if k == 0 then 1 else Power(old(l.step), k) % l.mod
  {
    r := 1;
    for i := 0 to k
      invariant l.Valid() && l.step == old(l.step) && |l.history| == i
      invariant forall j :: 0 <= j < i ==> l.history[j] == l.step
      invariant r == l.current
    {
      r := l.Step();
    }
    RepeatedProduct(l.history, l.step);
    if k > 0 { ModSmall(r, l.mod); }
  }

  /** k calls of step() on a BigInteger-based accumulator that has not stepped yet. */
  method StepBig(b: BigIntegerBased, k: nat) returns (r: int)
    requires b.Valid() && b.history == [] && 0 <= b.step < b.mod
    modifies b
    ensures b.Valid()
    ensures r == if k == 0 then 1 else Power(old(b.step), k) % b.mod
  {
    r := 1;
    for i := 0 to k
      invariant b.Valid() && b.step == old(b.step) && |b.history| == i
      invariant forall j :: 0 <= j < i ==> b.history[j] == b.step
      invariant r == b.current
    {
      r := b.Step();
    }
    RepeatedProduct(b.history, b.step);
    if k > 0 { ModSmall(r, b.mod); }
  }

  /**
   * After k step() calls on a fresh accumulator with step multiplier s, the
   * current value is s^k mod m, whichever implementation create picked.
   */
  method StepsFromFresh(mod: int, s: int, k: nat) returns (r: int)
    requires mod > 0
    ensures r == if k == 0 then 1 else Power(s % mod, k) % mod
  {
    var impl := Create(mod);
    match impl
    case Long(l) =>
      l.SetStepMultiplier(s);
      r := StepLong(l, k);
    case Big(b) =>
      b.SetStepMultiplier(s);
      r := StepBig(b, k);
  }
}
