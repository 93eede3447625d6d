/**
 * The number theory behind the generalized two-congruence merge that
 * common/ModUtils.java and common/Modules.java both implement: residue
 * classes, the prime-by-prime description of what the fixed-point loop of
 * rebalanceDivisors computes, and the facts that make the merged class
 * exactly the intersection of the two given ones.
 */
module Crt {
  import opened Arith
  import opened NumTheory

  /** x and y leave the same residue modulo m. */
  predicate Congruent(x: int, y: int, m: int)
    requires m > 0
  {
    x % m == y % m
  }

  /** A congruence modulo m holds modulo every divisor of m. */
  lemma CongDivisor(u: int, v: int, m: int, d: int)
    requires m > 0 && d > 0 && m % d == 0 && u % m == v % m
    ensures u % d == v % d
  {
    CongIffDivides(u, v, m);
    DividesTrans(d, m, u - v);
    CongIffDivides(u, v, d);
  }

  /** A class written as B mod A with 0 <= B < A has only one such writing. */
  lemma ClassUnique(A1: int, B1: int, A2: int, B2: int)
    requires A1 > 0 && A2 > 0 && 0 <= B1 < A1 && 0 <= B2 < A2
    requires forall z :: Congruent(z, B1, A1) <==> Congruent(z, B2, A2)
    ensures A1 == A2 && B1 == B2
  {
    ModAddMultiple(B1, A1, 1);
    ModAddMultiple(B2, A2, 1);
    assert Congruent(B1, B1, A1) && Congruent(B1 + A1, B1, A1);
    assert Congruent(B2, B2, A2) && Congruent(B2 + A2, B2, A2);
    CongIffDivides(B1 + A1, B1, A2);
    CongIffDivides(B2 + A2, B2, A1);
    assert (B1 + A1) - B1 == A1 && (B2 + A2) - B2 == A2;
    DivisorAtMost(A2, A1);
    DivisorAtMost(A1, A2);
    ModSmall(B1, A1);
    ModSmall(B2, A1);
  }

  // ------------------------------------------------------------------
  // rebalanceDivisors, prime by prime
  // ------------------------------------------------------------------

  /** The primes that A holds to a higher power than B while B holds them too. */
  predicate Raised(p: int, A: int, B: int)
    requires IsPrime(p) && A > 0 && B > 0
  {
    Val(p, A) > Val(p, B) > 0
  }

  /**
   * a and b split lcm(A, B) prime by prime: a takes each prime whose power in
   * A is strictly larger than in B, with A's power; b takes all other primes,
   * with B's power.
   */
  ghost predicate Split(A: int, B: int, a: int, b: int)
    requires A > 0 && B > 0
  {
    a > 0 && b > 0 &&
    forall p :: IsPrime(p) ==>
      Val(p, a) == (if Val(p, A) > Val(p, B) then Val(p, A) else 0) &&
      Val(p, b) == (if Val(p, A) > Val(p, B) then 0 else Val(p, B))
  }

  /** What the loop of rebalanceDivisors keeps: a divisor of A made of the raised primes only. */
  ghost predicate Collects(A: int, B: int, n: int)
    requires A > 0 && B > 0
  {
    n > 0 && A % n == 0 &&
    forall p :: IsPrime(p) ==> Val(p, n) <= Val(p, A) && (Val(p, n) > 0 <==> Raised(p, A, B))
  }

  lemma StartVal(A: int, B: int, g: int, p: int)
    requires A > 0 && B > 0 && g == Gcd(A, B) && IsPrime(p)
    ensures g > 0 && Gcd(A, g * g) % g == 0 && Gcd(A, g * g) / g > 0
    ensures Val(p, Gcd(A, g * g) / g) <= Val(p, A)
    ensures Val(p, Gcd(A, g * g) / g) > 0 <==> Raised(p, A, B)
  {
    GcdDivides(A, B);
    ValGcd(p, A, B);
    ValMul(p, g, g);
    ValGcd(p, A, g * g);
    ModMultiple(g, g);
    CommonDivisorDividesGcd(g, A, g * g);
    ValDiv(p, Gcd(A, g * g), g);
  }

  /** The first candidate of the loop, gcd(A, g^2) / g, already collects exactly the raised primes. */
  lemma CollectsStart(A: int, B: int, g: int)
    requires A > 0 && B > 0 && g == Gcd(A, B)
    ensures g > 0 && Gcd(A, g * g) % g == 0
    ensures Collects(A, B, Gcd(A, g * g) / g)
  {
    StartVal(A, B, g, 2);
    var n := Gcd(A, g * g) / g;
    forall p | IsPrime(p)
      ensures Val(p, n) <= Val(p, A) && (Val(p, n) > 0 <==> Raised(p, A, B))
    {
      StartVal(A, B, g, p);
    }
    DividesByVal(n, A);
  }

  lemma StepVal(A: int, x: int, p: int)
    requires A > 0 && x > 0 && IsPrime(p)
    ensures x * x > 0 && Gcd(A, x * x) > 0
    ensures Val(p, Gcd(A, x * x)) == if Val(p, A) <= 2 * Val(p, x) then Val(p, A) else 2 * Val(p, x)
  {
    ValMul(p, x, x);
    ValGcd(p, A, x * x);
  }

  /** One round next := gcd(A, next^2) keeps the invariant and only grows next. */
  lemma CollectsStep(A: int, B: int, n: int)
    requires A > 0 && B > 0 && Collects(A, B, n)
    ensures n * n > 0 && Collects(A, B, Gcd(A, n * n)) && Gcd(A, n * n) % n == 0
  {
    StepVal(A, n, 2);
    var n' := Gcd(A, n * n);
    GcdDivides(A, n * n);
    forall p | IsPrime(p)
      ensures Val(p, n') <= Val(p, A) && (Val(p, n') > 0 <==> Raised(p, A, B))
      ensures Val(p, n) <= Val(p, n')
    {
      StepVal(A, n, p);
    }
    DividesByVal(n, n');
  }

  /** At the fixed point the raised primes appear with their full power in A. */
  lemma CollectsFixed(A: int, B: int, n: int)
    requires A > 0 && B > 0 && Collects(A, B, n)
    requires n == 1 || n == Gcd(A, n * n)
    ensures forall p :: IsPrime(p) ==> Val(p, n) == if Raised(p, A, B) then Val(p, A) else 0
  {
    forall p | IsPrime(p)
      ensures Val(p, n) == if Raised(p, A, B) then Val(p, A) else 0
    {
      if n == 1 {
        ValOne(p);
      } else {
        StepVal(A, n, p);
      }
    }
  }

  lemma ResultVal(A: int, B: int, g: int, n: int, p: int)
    requires A > 0 && B > 0 && g == Gcd(A, B) && n > 0 && IsPrime(p)
    requires Val(p, n) == if Raised(p, A, B) then Val(p, A) else 0
    requires Gcd(g, n) > 0 && g % Gcd(g, n) == 0 && g / Gcd(g, n) > 0
    requires A % (g / Gcd(g, n)) == 0 && B % Gcd(g, n) == 0
    ensures A / (g / Gcd(g, n)) > 0 && B / Gcd(g, n) > 0
    ensures Val(p, A / (g / Gcd(g, n))) == (if Val(p, A) > Val(p, B) then Val(p, A) else 0)
    ensures Val(p, B / Gcd(g, n)) == (if Val(p, A) > Val(p, B) then 0 else Val(p, B))
  {
    var cutB := Gcd(g, n);
    var cutA := g / cutB;
    ValGcd(p, A, B);
    ValGcd(p, g, n);
    ValDiv(p, g, cutB);
    ValDiv(p, A, cutA);
    ValDiv(p, B, cutB);
  }

  /** Bs = gcd(g, next) and As = g / Bs divide B and A. */
  lemma CutsDivide(A: int, B: int, g: int, n: int)
    requires A > 0 && B > 0 && g == Gcd(A, B) && n > 0
    ensures Gcd(g, n) > 0 && g % Gcd(g, n) == 0 && g / Gcd(g, n) > 0
    ensures A % (g / Gcd(g, n)) == 0 && B % Gcd(g, n) == 0
  {
    GcdDivides(A, B);
    GcdDivides(g, n);
    var cutB := Gcd(g, n);
    DivOfMultiple(g, cutB);
    var cutA := g / cutB;
    assert cutA > 0 by {
      FactorSign(cutB, cutA);
    }
    ModMultiple(cutA, cutB);
    DividesTrans(cutA, g, A);
    DividesTrans(cutB, g, B);
  }

  /**
   * The tail of rebalanceDivisors: with Bs = gcd(g, next) and As = g / Bs,
   * the pair (A / As, B / Bs) splits lcm(A, B).
   */
  lemma RebalanceResult(A: int, B: int, g: int, n: int)
    requires A > 0 && B > 0 && g == Gcd(A, B) && n > 0
    requires forall p :: IsPrime(p) ==> Val(p, n) == if Raised(p, A, B) then Val(p, A) else 0
    ensures Gcd(g, n) > 0 && g % Gcd(g, n) == 0 && g / Gcd(g, n) > 0
    ensures A % (g / Gcd(g, n)) == 0 && B % Gcd(g, n) == 0
    ensures Split(A, B, A / (g / Gcd(g, n)), B / Gcd(g, n))
  {
    CutsDivide(A, B, g, n);
    var cutB := Gcd(g, n);
    var cutA := g / cutB;
    ResultVal(A, B, g, n, 2);
    forall p | IsPrime(p)
      ensures Val(p, A / cutA) == (if Val(p, A) > Val(p, B) then Val(p, A) else 0)
      ensures Val(p, B / cutB) == (if Val(p, A) > Val(p, B) then 0 else Val(p, B))
    {
      ResultVal(A, B, g, n, p);
    }
  }

  /** Coprime A and B split as themselves, which is what rebalanceDivisors returns for gcd 1. */
  lemma SplitCoprime(A: int, B: int)
    requires A > 0 && B > 0 && Gcd(A, B) == 1
    ensures Split(A, B, A, B)
  {
    forall p | IsPrime(p)
      ensures Val(p, A) == 0 || Val(p, B) == 0
    {
      ValGcd(p, A, B);
      ValOne(p);
    }
  }

  lemma SplitVal(A: int, B: int, a: int, b: int, p: int)
    requires A > 0 && B > 0 && Split(A, B, a, b) && IsPrime(p)
    ensures A * B > 0 && a * b * Gcd(A, B) > 0
    ensures Val(p, a) <= Val(p, A) && Val(p, b) <= Val(p, B)
    ensures Val(p, a) == 0 || Val(p, b) == 0
    ensures Val(p, a * b * Gcd(A, B)) == Val(p, A * B)
  {
    ValGcd(p, A, B);
    ValMul(p, a, b);
    ValMul(p, a * b, Gcd(A, B));
    ValMul(p, A, B);
  }

  /**
   * The four properties rebalanceDivisors promises: a | A, b | B,
   * gcd(a, b) = 1 and a * b = lcm(A, B).
   */
  lemma SplitLcm(A: int, B: int, a: int, b: int)
    requires A > 0 && B > 0 && Split(A, B, a, b)
    ensures A % a == 0 && B % b == 0 && Gcd(a, b) == 1
    ensures a * b * Gcd(A, B) == A * B
  {
    SplitVal(A, B, a, b, 2);
    forall p | IsPrime(p)
      ensures Val(p, a) <= Val(p, A) && Val(p, b) <= Val(p, B)
      ensures Val(p, a) == 0 || Val(p, b) == 0
      ensures Val(p, a * b * Gcd(A, B)) == Val(p, A * B)
    {
      SplitVal(A, B, a, b, p);
    }
    DividesByVal(a, A);
    DividesByVal(b, B);
    CoprimeByVal(a, b);
    EqualByVal(a * b * Gcd(A, B), A * B);
  }

  lemma CoverVal(A0: int, A1: int, a0: int, a1: int, p: int)
    requires A0 > 0 && A1 > 0 && Split(A0, A1, a0, a1) && IsPrime(p)
    ensures Gcd(a1, Gcd(A0, A1)) > 0 && a0 * Gcd(a1, Gcd(A0, A1)) > 0
    ensures Val(p, A0) <= Val(p, a0 * Gcd(a1, Gcd(A0, A1)))
    ensures Gcd(a0, Gcd(A0, A1)) > 0 && a1 * Gcd(a0, Gcd(A0, A1)) > 0
    ensures Val(p, A1) <= Val(p, a1 * Gcd(a0, Gcd(A0, A1)))
  {
    var g := Gcd(A0, A1);
    ValGcd(p, A0, A1);
    ValGcd(p, a1, g);
    ValGcd(p, a0, g);
    ValMul(p, a0, Gcd(a1, g));
    ValMul(p, a1, Gcd(a0, g));
  }

  /**
   * Whatever a0 leaves out of A0 is held by both a1 and gcd(A0, A1), and
   * symmetrically for A1.
   */
  lemma SplitCovers(A0: int, A1: int, a0: int, a1: int)
    requires A0 > 0 && A1 > 0 && Split(A0, A1, a0, a1)
    ensures Gcd(a1, Gcd(A0, A1)) > 0 && (a0 * Gcd(a1, Gcd(A0, A1))) % A0 == 0
    ensures Gcd(a0, Gcd(A0, A1)) > 0 && (a1 * Gcd(a0, Gcd(A0, A1))) % A1 == 0
  {
    CoverVal(A0, A1, a0, a1, 2);
    forall p | IsPrime(p)
      ensures Val(p, A0) <= Val(p, a0 * Gcd(a1, Gcd(A0, A1)))
      ensures Val(p, A1) <= Val(p, a1 * Gcd(a0, Gcd(A0, A1)))
    {
      CoverVal(A0, A1, a0, a1, p);
    }
    DividesByVal(A0, a0 * Gcd(a1, Gcd(A0, A1)));
    DividesByVal(A1, a1 * Gcd(a0, Gcd(A0, A1)));
  }

  // ------------------------------------------------------------------
  // divideLinearSum: A*x + B = P*(a*y + b)
  // ------------------------------------------------------------------

  /** P divides A*x + B. */
  predicate Hits(A: int, B: int, P: int, x: int)
    requires P > 0
  {
    (A * x + B) % P == 0
  }

  /** c is the least non-negative x with P | A*x + B. */
  predicate FirstHit(A: int, B: int, P: int, c: int)
    requires P > 0
  {
    0 <= c && Hits(A, B, P, c) && forall x :: 0 <= x < c ==> !Hits(A, B, P, x)
  }

  /**
   * The members X of the class B mod A that P divides are exactly the
   * members of b*P mod a*P, that is A*x + B = P*(a*y + b).
   */
  ghost predicate Lifted(A: int, B: int, P: int, a: int, b: int)
    requires A > 0 && P > 0
  {
    a > 0 && a * P > 0 &&
    forall X :: Congruent(X, b * P, a * P) <==> Congruent(X, B, A) && X % P == 0
  }

  /** When P divides A but not B, P never divides A*x + B. */
  lemma NoHit(A: int, B: int, P: int)
    requires P > 0 && A % P == 0 && B % P != 0
    ensures forall x :: !Hits(A, B, P, x)
  {
    forall x
      ensures !Hits(A, B, P, x)
    {
      DividesMul(P, A, x);
      CongAdd(A * x, 0, B, B, P);
    }
  }

  /** An invertible factor cancels from a congruence. */
  lemma CancelInvertible(A: int, P: int, inv: int, x: int, c: int)
    requires P > 0 && ((A % P) * inv) % P == 1 % P && (A * x) % P == (A * c) % P
    ensures x % P == c % P
  {
    CongMul(A * x, A * c, inv, inv, P);
    ModMulLeft(A, inv, P);
    assert (A * x) * inv == x * (A * inv) && (A * c) * inv == c * (A * inv);
    CongMul(x, x, A * inv, 1, P);
    CongMul(c, c, A * inv, 1, P);
  }

  /** With A invertible modulo P there is at most one hit in [0, P). */
  lemma HitUnique(A: int, B: int, P: int, inv: int, x: int, c: int)
    requires P > 0 && ((A % P) * inv) % P == 1 % P
    requires 0 <= x < P && 0 <= c < P && Hits(A, B, P, x) && Hits(A, B, P, c)
    ensures x == c
  {
    CongSub(A * x + B, A * c + B, B, B, P);
    assert (A * x + B) - B == A * x && (A * c + B) - B == A * c;
    CancelInvertible(A, P, inv, x, c);
    ModSmall(x, P);
    ModSmall(c, P);
  }

  /**
   * The offset divideLinearSum picks: with pb = -B mod P and inv the inverse
   * of A modulo P, C = pb * inv mod P makes P divide A*C + B.
   */
  lemma RootOfLinear(A: int, B: int, P: int, inv: int)
    requires P > 0 && ((A % P) * inv) % P == 1 % P
    ensures var pb := if B % P == 0 then 0 else P - B % P;
            Hits(A, B, P, (pb * inv) % P)
  {
    var pb := if B % P == 0 then 0 else P - B % P;
    var c := (pb * inv) % P;
    InverseScales(A, P, inv, pb);
    NegatedResidue(B, P);
    CongAdd(A * c, pb, B, B, P);
  }

  /** Multiplying by an inverse of A modulo P and then by A gives back y modulo P. */
  lemma InverseScales(A: int, P: int, inv: int, y: int)
    requires P > 0 && ((A % P) * inv) % P == 1 % P
    ensures (A * ((y * inv) % P)) % P == y % P
  {
    var a, c := A % P, (y * inv) % P;
    ModMulLeft(A, c, P);
    ModIdempotent(y * inv, P);
    CongMul(a, a, c, y * inv, P);
    assert a * (y * inv) == y * (a * inv);
    CongMul(y, y, a * inv, 1, P);
  }

  /** The residue P - B mod P (0 when P divides B) cancels B modulo P. */
  lemma NegatedResidue(B: int, P: int)
    requires P > 0
    ensures (if B % P == 0 then 0 else P - B % P) + B == P * (if B % P == 0 then B / P else 1 + B / P)
    ensures ((if B % P == 0 then 0 else P - B % P) + B) % P == 0
  {
    if B % P != 0 {
      ModMultiple(P, 1 + B / P);
    } else {
      ModMultiple(P, B / P);
    }
  }

  /** With A and P coprime, Y = A*C + B hit by P gives the lifted class Y mod A*P. */
  lemma LiftClass(A: int, B: int, P: int, Y: int)
    requires A > 0 && P > 0 && Gcd(A, P) == 1 && Y % P == 0 && Y % A == B % A
    ensures Lifted(A, B, P, A, Y / P)
  {
    DivOfMultiple(Y, P);
    MulAtLeast(A, P);
    assert (Y / P) * P == Y;
    ModMultiple(A, P);
    ModMultiple(P, A);
    forall X
      ensures Congruent(X, (Y / P) * P, A * P) <==> Congruent(X, B, A) && X % P == 0
    {
      if Congruent(X, Y, A * P) {
        CongDivisor(X, Y, A * P, A);
        CongDivisor(X, Y, A * P, P);
      }
      if Congruent(X, B, A) && X % P == 0 {
        CrtUnique(A, P, X, Y);
      }
    }
  }

  /** With P | A and P | B the class B mod A is already divisible by P: (A/P, B/P). */
  lemma LiftDivisible(A: int, B: int, P: int)
    requires A > 0 && B >= 0 && P > 0 && A % P == 0 && B % P == 0
    ensures Lifted(A, B, P, A / P, B / P) && B / P >= 0
  {
    DivOfMultiple(A, P);
    DivOfMultiple(B, P);
    DivisorAtMost(P, A);
    assert A / P > 0 by {
      assert A / P >= 0;
      assert A == P * (A / P);
    }
    assert (A / P) * P == A && (B / P) * P == B;
    forall X
      ensures Congruent(X, B, A) ==> X % P == 0
    {
      if Congruent(X, B, A) {
        CongDivisor(X, B, A, P);
      }
    }
  }

  // ------------------------------------------------------------------
  // The merged class
  // ------------------------------------------------------------------

  /**
   * (A, B) describes exactly the common members of the classes B0 mod A0 and
   * B1 mod A1, and A is their least common multiple.
   */
  ghost predicate Merged(A0: int, B0: int, A1: int, B1: int, A: int, B: int)
    requires A0 > 0 && A1 > 0
  {
    A > 0 && A * Gcd(A0, A1) == A0 * A1 &&
    forall v :: Congruent(v, B, A) <==> Congruent(v, B0, A0) && Congruent(v, B1, A1)
  }

  /** Classes whose offsets differ modulo gcd(A0, A1) have no common member. */
  lemma NoCommonMember(A0: int, B0: int, A1: int, B1: int)
    requires A0 > 0 && A1 > 0 && B0 % Gcd(A0, A1) != B1 % Gcd(A0, A1)
    ensures forall v :: !(Congruent(v, B0, A0) && Congruent(v, B1, A1))
  {
    var g := Gcd(A0, A1);
    GcdDivides(A0, A1);
    forall v
      ensures !(Congruent(v, B0, A0) && Congruent(v, B1, A1))
    {
      if Congruent(v, B0, A0) && Congruent(v, B1, A1) {
        CongDivisor(v, B0, A0, g);
        CongDivisor(v, B1, A1, g);
        assert false;
      }
    }
  }

  /**
   * One half of the merge: a member of B0 mod a0 that is also a member of the
   * other class is a member of B0 mod A0.
   */
  lemma LiftToModulus(A: int, a: int, other: int, g: int, v: int, mine: int, theirs: int)
    requires A > 0 && a > 0 && other > 0 && g > 0 && Gcd(a, other) == 1
    requires (a * Gcd(other, g)) % A == 0
    requires (v - mine) % a == 0 && (v - theirs) % other == 0 && (theirs - mine) % g == 0
    ensures (v - mine) % A == 0
  {
    var h := Gcd(other, g);
    GcdDivides(other, g);
    DividesTrans(h, other, v - theirs);
    DividesTrans(h, g, theirs - mine);
    DividesLinear(h, v - theirs, theirs - mine, 1, 1);
    assert 1 * (v - theirs) + 1 * (theirs - mine) == v - mine;
    CoprimeToDivisor(a, other, h);
    CoprimeProductDivides(a, h, v - mine);
    MulNonneg(a, h);
    assert a * h > 0 by {
      MulAtLeast(a, h);
    }
    DividesTrans(A, a * h, v - mine);
  }

  /** The members of both classes are members of B modulo a0*a1. */
  lemma MergeInto(A0: int, B0: int, A1: int, B1: int, a0: int, a1: int, B: int, v: int)
    requires a0 > 0 && a1 > 0 && A0 % a0 == 0 && A1 % a1 == 0 && Gcd(a0, a1) == 1
    requires A0 > 0 && A1 > 0 && B % a0 == B0 % a0 && B % a1 == B1 % a1
    requires v % A0 == B0 % A0 && v % A1 == B1 % A1
    ensures a0 * a1 > 0 && v % (a0 * a1) == B % (a0 * a1)
  {
    MulAtLeast(a0, a1);
    CongDivisor(v, B0, A0, a0);
    CongDivisor(v, B1, A1, a1);
    CrtUnique(a0, a1, v, B);
  }

  /** The members of B modulo a0*a1 lie in both classes. */
  lemma MergeOutOf(A0: int, B0: int, A1: int, B1: int, a0: int, a1: int, g: int, B: int, v: int)
    requires a0 > 0 && a1 > 0 && A0 > 0 && A1 > 0 && g > 0 && Gcd(a0, a1) == 1
    requires (a0 * Gcd(a1, g)) % A0 == 0 && (a1 * Gcd(a0, g)) % A1 == 0
    requires B0 % g == B1 % g && B % a0 == B0 % a0 && B % a1 == B1 % a1
    requires a0 * a1 > 0 && v % (a0 * a1) == B % (a0 * a1)
    ensures v % A0 == B0 % A0 && v % A1 == B1 % A1
  {
    ModMultiple(a0, a1);
    ModMultiple(a1, a0);
    CongDivisor(v, B, a0 * a1, a0);
    CongDivisor(v, B, a0 * a1, a1);
    CongIffDivides(v, B0, a0);
    CongIffDivides(v, B1, a1);
    CongIffDivides(B1, B0, g);
    CongIffDivides(B0, B1, g);
    LiftToModulus(A0, a0, a1, g, v, B0, B1);
    GcdSymmetric(a0, a1);
    LiftToModulus(A1, a1, a0, g, v, B1, B0);
    CongIffDivides(v, B0, A0);
    CongIffDivides(v, B1, A1);
  }

  /**
   * The generalized merge: once a0 and a1 split lcm(A0, A1) and B matches B0
   * modulo a0 and B1 modulo a1, B mod a0*a1 is the intersection of the two
   * classes.
   */
  lemma MergeClasses(A0: int, B0: int, A1: int, B1: int, a0: int, a1: int, B: int)
    requires A0 > 0 && A1 > 0 && Split(A0, A1, a0, a1)
    requires B0 % Gcd(A0, A1) == B1 % Gcd(A0, A1)
    requires B % a0 == B0 % a0 && B % a1 == B1 % a1
    ensures Merged(A0, B0, A1, B1, a0 * a1, B)
  {
    var g := Gcd(A0, A1);
    SplitLcm(A0, A1, a0, a1);
    SplitCovers(A0, A1, a0, a1);
    MulAtLeast(a0, a1);
    forall v
      ensures Congruent(v, B, a0 * a1) <==> Congruent(v, B0, A0) && Congruent(v, B1, A1)
    {
      if Congruent(v, B0, A0) && Congruent(v, B1, A1) {
        MergeInto(A0, B0, A1, B1, a0, a1, B, v);
      }
      if Congruent(v, B, a0 * a1) {
        MergeOutOf(A0, B0, A1, B1, a0, a1, g, B, v);
      }
    }
  }

  /** When either modulus is 1 the other class is the intersection. */
  lemma MergeWithOne(A: int, B: int, C: int)
    requires A > 0
    ensures Gcd(1, A) == 1 && Gcd(A, 1) == 1 && B % 1 == C % 1
    ensures Merged(1, C, A, B, A, B) && Merged(A, B, 1, C, A, B)
  {
    ModMultiple(1, B);
    assert Gcd(1, A) == 1 by {
      GcdSymmetric(1, A);
      GcdDivides(A, 1);
      DivisorAtMost(Gcd(A, 1), 1);
    }
    GcdSymmetric(1, A);
    forall v
      ensures Congruent(v, C, 1)
    {
      ModMultiple(1, v);
      ModMultiple(1, C);
    }
  }

  /** x*a0 + b0 stays below a0*a1 for digits x < a1 and b0 < a0. */
  lemma DigitBound(a0: int, a1: int, x: int, b0: int)
    requires 0 <= x < a1 && 0 <= b0 < a0
    ensures 0 <= x * a0 + b0 < a0 * a1
  {
    MulNonneg(x, a0);
    MulNonneg(a1 - 1 - x, a0);
    assert (a1 - 1 - x) * a0 == a0 * a1 - a0 - x * a0;
  }

  /**
   * Garner's step for two moduli: with inv the inverse of a0 modulo a1,
   * x = ((b1 - b0) * inv) mod a1 makes x*a0 + b0 congruent to b1 modulo a1.
   */
  lemma GarnerPair(a0: int, a1: int, b0: int, b1: int, inv: int)
    requires a1 > 0 && (a0 * inv) % a1 == 1 % a1
    ensures ((((b1 - b0) * inv) % a1) * a0 + b0) % a1 == b1 % a1
  {
    var d := b1 - b0;
    var x := (d * inv) % a1;
    ModIdempotent(d * inv, a1);
    CongMul(x, d * inv, a0, a0, a1);
    assert (d * inv) * a0 == d * (a0 * inv);
    CongMul(d, d, a0 * inv, 1, a1);
    CongAdd(x * a0, d, b0, b0, a1);
  }

  /**
   * Garner's two-modulus step completes the merge: from the split (a0, a1),
   * offsets b0 and b1 that agree with B0 and B1 and the inverse of a0 modulo
   * a1, x*a0 + b0 with x = (b1 - b0)*inv mod a1 is the merged offset.
   */
  lemma GarnerMerged(A0: int, B0: int, A1: int, B1: int, a0: int, a1: int, b0: int, b1: int, inv: int)
    requires A0 > 0 && A1 > 0 && Split(A0, A1, a0, a1)
    requires B0 % Gcd(A0, A1) == B1 % Gcd(A0, A1)
    requires b0 >= 0 && b0 % a0 == B0 % a0 && b1 % a1 == B1 % a1
    requires (a0 * inv) % a1 == 1 % a1
    ensures var x := ((b1 - b0) * inv) % a1;
            x * a0 + b0 >= 0 && Merged(A0, B0, A1, B1, a0 * a1, x * a0 + b0)
    ensures var x := ((b1 - b0) * inv) % a1;
            b0 < a0 ==> x * a0 + b0 < a0 * a1
  {
    var x := ((b1 - b0) * inv) % a1;
    var B := x * a0 + b0;
    GarnerPair(a0, a1, b0, b1, inv);
    ModAddMultiple(b0, a0, x);
    assert B == b0 + a0 * x;
    MergeClasses(A0, B0, A1, B1, a0, a1, B);
    MulNonneg(x, a0);
    if b0 < a0 {
      DigitBound(a0, a1, x, b0);
    }
  }

  /** x * g == y * g cancels for positive g. */
  lemma CancelFactor(g: int, x: int, y: int)
    requires g > 0 && x * g == y * g
    ensures x == y
  {
    if x < y {
      MulAtLeast(g, y - x);
    } else if x > y {
      MulAtLeast(g, x - y);
    }
  }
}
