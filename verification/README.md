# pownmodn, modelled in Dafny

`pownmodn` searches for every x ≤ N with base^x ≡ target (mod x). It builds a table of "good primes". For each good prime p it computes the restriction {A, B}: base^x ≡ target (mod p) holds exactly when x ≡ B (mod A). A backtracking search then multiplies primes into a prefix C, merging the restrictions as it goes. At each node it scans the progression C·(A·y + B) with a sieve and checks every surviving candidate exactly.

This project models that core in Dafny and proves what it computes:

- **Modular kernel** (`ModUtils`, `Modules`, `Common`, `LongMod`). Exponentiation, modular multipliers chosen by modulus size, extended-gcd inverses, the linear-sum division, two-congruence merges, `rebalanceDivisors`, the multi-modulus CRT restore, and the step/aux accumulator.
- **Restriction engine** (`Restrictions`, `GoodPrimes`). The baby-step/giant-step period search, the prime-power split of p − 1, the restriction merge, and the round-robin merge of shard results with gcd memoisation.
- **Prime table and divisors** (`Primes`, `Factorization`). The sieve, `floorIdx`, trial factorization, and divisor enumeration that treats composite cofactors atomically.
- **Factorization cache parser** (`FactorizationDB`). The line pattern and the factor-list checks.
- **Sieves and candidate checks** (`QuadraticResidueSieve`, `ScanSieve`, both `Scanner`s, `ModPowCalculator`, `ModPowCalculatorFactory`).
- **Search driver** (`Solver`). `solve`, `pognali`, `tryFactorization`, `stackToString`, `baseModPow`.
- **`GcdDetector`**. The batch of running products mod N.

Integers are unbounded. Java's `long` range appears wherever the code's behaviour depends on it: the dispatch bounds, `Long.MAX_VALUE` and the wrap-around in `modMultiplier42bit`. Java's truncating `%` is `JavaLang.JavaRem`. State that an object owns is a `class` field, changed by methods with `modifies` clauses. The sieves that cross out bits of an array they are handed (`Marking.MarkMultiples`, `Scanner.SievePrime`, `Scanner.SievePrimes`, `ScanSieve.SievePrime`) are module-level methods that modify that array. The loops of the source are `while` loops with invariants, and each is proved against a specification function.

The repository's files are not consistent with each other, and each file is modelled as written:

- `ModUtils` and `Modules` are two versions of the kernel. Both are modelled.
- There are two `Scanner.java` files. The older one is module `OldScanner`.
- `LongMod.create` calls a `modMultiplier(long)` that exists only in `ModUtils`, so the model uses that one.
- `Restrictions.merge` calls the three-argument `divideLinearSum` and the four-argument `merge` of `ModUtils`.
- `ModPowCalculator.java:30` calls `Modules.modMultiplier`, which `Modules` does not declare. The model uses `ModUtils.modMultiplier`, the only one-argument `modMultiplier`.
- `GoodPrimes.java:140` calls `Modules.restoreByCRT`, which exists only in `ModUtils`. The model uses that one.
- `Solver.java:133-135` calls `Restrictions.merge` with nine arguments (the last one `this::baseModPow`), but only the eight-argument overloads exist (`Restrictions.java:89`, `95`). The model calls the eight-argument merge; the exact check computes base^e mod N the same way either way.
- `scan/Scanner.java:268` calls `calculate` with a `long`, while `ModPowCalculator.calculate` takes and returns a `BigInteger`, and compares the result with `==`. The model reads this as comparing the value `calculate` computes for m with target mod m.
- `Common.multiply` does not return the product when equal partial products collide (see Findings). The model follows the code.

Primality (`isProbablePrime`, Commons-Math `isPrime`) is the exact predicate `NumTheory.IsPrime`. The scanner, the factorizer and the factorization cache that `Solver` calls are parameters of its model (oracles). Each oracle's contract is what the caller relies on.

## Model

| member | source | states |
|---|---|---|
| Common.MaxLongSqrtIsSqrt | src/main/java/common/Common.java:13-15 | MAX_LONG_SQRT is the integer square root of Long.MAX_VALUE |
| Common.Mod | src/main/java/common/Common.java:23-27 | the result is the unique r in [0, m) congruent to n |
| Common.ModBig | src/main/java/common/Common.java:29-32 | the BigInteger variant lies in [0, m) and agrees with the long variant |
| Common.Max | src/main/java/common/Common.java:60-62 | None iff every argument is null; otherwise one of the arguments, and no non-null argument is larger |
| Common.Count | src/main/java/common/Common.java:35-39 | the count map is exactly the multiset of the arguments; the keys are distinct and are exactly the arguments |
| Common.Add | src/main/java/common/Common.java:41-48 | inserting into the ordered set keeps it ordered, adds exactly x, and grows it only when x was absent |
| Common.Multiply | src/main/java/common/Common.java:34-58 | the method equals the as-written grouping of equal values into powers followed by the smallest-first TreeSet collapse (see Findings) |
| Common.MultiplyMergesEqualProducts | src/main/java/common/Common.java:34-58 | for the arguments 2, 3, 6 the code as written returns 6, while the product is 36 |
| Common.MultiplyExact | src/main/java/common/Common.java:34-58 | the corrected grouping and collapse, done with a queue that keeps duplicates, returns the product of all arguments, for any order |
| Common.ProductPermutation | src/main/java/common/Common.java:34-58 | the product does not depend on the order of the arguments |
| Common.ProductGrouped | src/main/java/common/Common.java:35-48 | grouping equal arguments into powers keeps the product |
| ModUtils.Pow | src/main/java/common/ModUtils.java:9-40 | the result is b^n mod m, in [0, m); this gives 0 for m = 1 and 1 for n = 0 |
| ModUtils.PowBig | src/main/java/common/ModUtils.java:42-75 | the bit-scanning variant gives the same b^n mod m as the long version |
| ModUtils.PowBits | src/main/java/common/ModUtils.java:57-74 | the loop over bit positions pos.. keeps res·t^(n >> pos) mod m invariant and ends with b^n mod m |
| ModUtils.GcdExt | src/main/java/common/ModUtils.java:97-109 | the result is gcd(a, b), and xy holds Bézout coefficients for it |
| ModUtils.ModInverse | src/main/java/common/ModUtils.java:88-95 | defined iff gcd(a, n) = 1; then the result x is in [0, n) with a·x ≡ 1 (mod n), and it is the inverse |
| ModUtils.ModInverseBig | src/main/java/common/ModUtils.java:77-86 | the same as the long version: defined iff gcd(a, n) = 1, and then the inverse in [0, n) |
| ModUtils.ModMultiplier | src/main/java/common/ModUtils.java:111-163 | none iff m ≥ 2^52; the zero function iff m = 1; the direct product iff m ≤ MAX_LONG_SQRT; otherwise the reduction carries r64 = 2^64 mod m |
| ModUtils.R64 | src/main/java/common/ModUtils.java:125-128 | r64 is 2^64 mod m |
| ModUtils.Apply | src/main/java/common/ModUtils.java:165-191 | every multiplier that modMultiplier returns computes a·b mod m for 0 ≤ a, b < m |
| ModUtils.DivideLinearSum | src/main/java/common/ModUtils.java:196-223 | none iff P divides A but not B, iff no x makes P divide A·x + B; otherwise {a, b} enumerates, for y = 0, 1, …, the values (A·x + B)/P at the x that P divides, starting at the first such x, and with b < a when B < A |
| ModUtils.RebalanceDivisors | src/main/java/common/ModUtils.java:262-280 | a divides A, b divides B, gcd(a, b) = 1, and a·b·gcd(A, B) = A·B, so a·b = lcm(A, B) |
| ModUtils.Merge | src/main/java/common/ModUtils.java:226-255 | returns the other pair when a modulus is 1; none iff B0 and B1 differ modulo gcd(A0, A1), and then no value is in both classes; otherwise A·y + B enumerates exactly the common members of both classes, with 0 ≤ B < A when the inputs are reduced |
| ModUtils.RestoreByCRT | src/main/java/common/ModUtils.java:282-295 | for pairwise coprime moduli the result is congruent to r[k] modulo p[k] for every k; it is 0 for no moduli, and lies in [0, ∏p) when 0 ≤ r[0] < p[0] |
| ModUtils.Digit | src/main/java/common/ModUtils.java:287-290 | the inner loop yields the next mixed-radix digit, which puts the partial sum in the class of r[i] modulo p[i] |
| ModUtils.InverseByFermat | src/main/java/common/ModUtils.java:212-218 | for prime P not dividing A, (A mod P)^(P−2) is the inverse of A modulo P |
| Modules.PowSmall | src/main/java/common/Modules.java:32-44 | 1 for n = 0; otherwise b^n mod m, keeping res·t^n ≡ b^n0 (mod m) while n halves |
| Modules.PowSmallBig | src/main/java/common/Modules.java:46-58 | the same result with the exponent scanned bit by bit |
| Modules.Pow | src/main/java/common/Modules.java:21-30 | 1 when n = 0 and the modulus is small enough for powSmall (even for m = 1); otherwise b^n mod m; always congruent to b^n |
| Modules.PowBig | src/main/java/common/Modules.java:9-18 | the BigInteger version obeys the same rule as the long version |
| Modules.ModMultiplier32bit | src/main/java/common/Modules.java:60-74 | the function computes a·b mod m on [0, m), and it is the constant 0 iff m = 1 |
| Modules.PlainProduct | src/main/java/common/Modules.java:67-73 | for m ≤ MAX_LONG_SQRT the plain product, reduced, is a·b mod m |
| Modules.ModMultiplier42bit | src/main/java/common/Modules.java:76-97 | the function computes a·b mod m on [0, m) for m up to the high-multiply bound, and it is the constant 0 iff m = 1 |
| Modules.R64 | src/main/java/common/Modules.java:83 | the constant computed from Long.MAX_VALUE mod m is 2^64 mod m |
| Modules.MultiplyHigh | src/main/java/common/Modules.java:89 | the high 64 bits of a·b: h·2^64 + (a·b mod 2^64) = a·b |
| Modules.WrapLong | src/main/java/common/Modules.java:90-91 | two's-complement wrap to the long range, congruent modulo 2^64 |
| Modules.HighLowSum | src/main/java/common/Modules.java:89-95 | high·r64 + wrapped low part stays in the long range and is congruent to a·b modulo m |
| Modules.Apply | src/main/java/common/Modules.java:60-97 | every multiplier the two factories return computes a·b mod m |
| Modules.DivideLinearSum | src/main/java/common/Modules.java:101-130 | none iff g = gcd(A, P) does not divide B, iff no x makes P divide A·x + B; otherwise the returned modulus times g is A, and {a, b} enumerates the quotients (A·x + B)/P from the first hit on |
| Modules.RebalanceDivisors | src/main/java/common/Modules.java:169-189 | a divides A, b divides B, gcd(a, b) = 1, and a·b = lcm(A, B) |
| Modules.Merge | src/main/java/common/Modules.java:133-162 | returns the other pair when a modulus is 1; none iff B0 and B1 differ modulo the gcd, and then no common member exists; otherwise exactly the common members of both classes |
| LongMod.LongBased.constructor | src/main/java/common/LongMod.java:26-33 | current, step and aux start at 1 |
| LongMod.LongBased.SetStepMultiplier | src/main/java/common/LongMod.java:36-38 | step becomes the argument reduced into [0, mod); current and aux are unchanged |
| LongMod.LongBased.SetAuxMultiplier | src/main/java/common/LongMod.java:41-43 | aux becomes the argument reduced into [0, mod); current and step are unchanged |
| LongMod.LongBased.Step | src/main/java/common/LongMod.java:46-49 | current becomes current·step mod m and is returned; it equals the product of every step applied so far, mod m |
| LongMod.LongBased.GetAux | src/main/java/common/LongMod.java:52-54 | returns current·aux mod m and changes nothing |
| LongMod.LongBased.GetMod | src/main/java/common/LongMod.java:57-59 | returns the modulus |
| LongMod.BigIntegerBased.constructor | src/main/java/common/LongMod.java:65-73 | current, step and aux start at 1 |
| LongMod.BigIntegerBased.SetStepMultiplier | src/main/java/common/LongMod.java:76-78 | step becomes the argument reduced into [0, mod); current and aux are unchanged |
| LongMod.BigIntegerBased.SetAuxMultiplier | src/main/java/common/LongMod.java:81-83 | aux becomes the argument reduced into [0, mod); current and step are unchanged |
| LongMod.BigIntegerBased.Step | src/main/java/common/LongMod.java:86-89 | current becomes current·step mod m and is returned; it equals the product of the steps so far, mod m |
| LongMod.BigIntegerBased.GetAux | src/main/java/common/LongMod.java:92-94 | returns current·aux mod m and changes nothing |
| LongMod.BigIntegerBased.GetMod | src/main/java/common/LongMod.java:97-99 | returns the modulus |
| LongMod.Create | src/main/java/common/LongMod.java:13-21 | the long-based implementation iff a mod-multiplier exists for the modulus, otherwise the BigInteger one; a fresh object with current = step = aux = 1 |
| LongMod.Step | src/main/java/common/LongMod.java:46-49 | through the interface, a step returns (current·step) mod m in [0, m) and leaves step and aux unchanged |
| LongMod.StepBoth | src/main/java/common/LongMod.java:23-100 | the two implementations, in the same state, return identical step and aux results and stay in the same state |
| LongMod.StepsFromFresh | src/main/java/common/LongMod.java:13-49 | k steps from a fresh accumulator with step s return s^k mod m (1 for k = 0) |
| Primes.Sieve | src/main/java/primes/Primes.java:20-29 | after the nested crossing-out loops, bit k is set iff k is prime, for every k ≤ limit |
| Primes.CrossOut | src/main/java/primes/Primes.java:25-27 | exactly the multiples k ≥ p² of p are cleared |
| Primes.Collect | src/main/java/primes/Primes.java:36-41 | the array holds exactly the set bits, in increasing order |
| Primes.Primes.constructor | src/main/java/primes/Primes.java:13-42 | the table is exactly the increasing list of primes ≤ limit, and empty when limit < 2 |
| Primes.Primes.Get | src/main/java/primes/Primes.java:44-46 | the i-th entry is a prime ≤ limit and greater than every earlier entry |
| Primes.Primes.Size | src/main/java/primes/Primes.java:48-50 | every prime ≤ limit is among the first size() entries |
| Primes.Primes.FloorIdx | src/main/java/primes/Primes.java:52-55 | −1 for n < 2; otherwise the index i with get(i) ≤ n < get(i + 1), or the last index when n is at least the last prime |
| Primes.BinarySearch | src/main/java/primes/Primes.java:53 | a non-negative result indexes the key; a negative one is −(insertion point) − 1 |
| Primes.Primes.Factorize | src/main/java/primes/Primes.java:57-80 | for n ≥ 1 returns non-decreasing primes whose product is n; empty for n ≤ 1, where the loop does not run |
| Primes.DivideOutPrime | src/main/java/primes/Primes.java:69-72 | divides p out completely, appending p to the factor list, and keeps product·rest = n |
| Primes.ISqrt | src/main/java/primes/Primes.java:22 | the integer square root |
| Primes.CountSetBits | src/main/java/primes/Primes.java:31-34 | the count equals the number of set bits of the sieve (the primes it found) |
| Restrictions.Restriction | src/main/java/primes/Restrictions.java:13-87 | the reference definition: for prime p, the cycle length of base^i mod p and the position of target in the cycle, or none |
| Restrictions.RestrictionMeaning | src/main/java/primes/Restrictions.java:13-87 | for prime p and x ≥ 1: base^x ≡ target (mod p) iff a restriction {A, B} exists and x ≡ B (mod A) |
| Restrictions.CalculateRestriction | src/main/java/primes/Restrictions.java:13-15 | any result has 0 ≤ B < A, and for prime p the result equals the reference restriction |
| Restrictions.CalculateRestrictionCycle | src/main/java/primes/Restrictions.java:17-19 | {1, 0} or none when base mod p is 0 or 1 (as target mod p equals it or not); the reference restriction whenever the cycle fits in cycleSize |
| Restrictions.CalculateRestrictionWith | src/main/java/primes/Restrictions.java:21-87 | the same, for a LongMod accumulator over p |
| Restrictions.BabySteps | src/main/java/primes/Restrictions.java:36-44 | the map sends base^j to j for every stored step; it stops early exactly when 1 recurs |
| Restrictions.CycledRestriction | src/main/java/primes/Restrictions.java:46-53 | when 1 appears among the baby steps, the number of steps is the order, and the result is {order, pos mod order}, or none when target was not seen |
| Restrictions.GiantStep | src/main/java/primes/Restrictions.java:61-74 | one giant step advances current by base^n and computes the next candidate position |
| Restrictions.GiantLoop | src/main/java/primes/Restrictions.java:55-78 | when the order is at most cycleSize the loop finds it, together with the target's position |
| Restrictions.GiantSteps | src/main/java/primes/Restrictions.java:55-86 | any result has 0 ≤ B < A; when the order fits in cycleSize it equals the reference restriction |
| Restrictions.MergeClasses | src/main/java/primes/Restrictions.java:100-109 | for every z: z ≡ B' (mod A') iff p·z ≡ B (mod A) and C·z ≡ b (mod a) |
| Restrictions.Merge | src/main/java/primes/Restrictions.java:95-126 | none when p divides A but not B; a result {A', B'} describes exactly the z with p·z ≡ B (mod A) and C·z ≡ b (mod a), and has passed the exact check on base^((A'+B')·C·p) modulo C·p; for reduced inputs (B < A, b < a) a result is the one reduced class that describes those z and passes the check, and the result is none exactly when no reduced class does both |
| Restrictions.ExactCheck | src/main/java/primes/Restrictions.java:110-119 | both branches (the long pow for N up to Long.MAX_VALUE, modPow above) decide exactly whether base^((A+B)·N) ≡ target (mod N) |
| Restrictions.RefinesUnique | src/main/java/primes/Restrictions.java:100-109 | two reduced classes that both describe the z with p·z ≡ B (mod A) and C·z ≡ b (mod a) are the same class |
| GoodPrimes.FindOrder | src/main/java/primes/GoodPrimes.java:143-167 | 1 for a < 2; otherwise the multiplicative order of a modulo p |
| GoodPrimes.SolveBlock | src/main/java/primes/GoodPrimes.java:129-137 | for one prime-power block q of p − 1, none means no restriction exists; otherwise x solves (a^((p−1)/q))^x ≡ b^((p−1)/q) (mod p) |
| GoodPrimes.SolveBlocks | src/main/java/primes/GoodPrimes.java:118-138 | either some block has no solution, and then no restriction exists, or every prime-power block of p − 1 is solved |
| GoodPrimes.RunPower | src/main/java/primes/GoodPrimes.java:122-127 | the run of equal prime factors starting at start gives the block q = f^e |
| GoodPrimes.Recombine | src/main/java/primes/GoodPrimes.java:140 | the CRT value of the block solutions is an exponent x with a^x ≡ b (mod p) |
| GoodPrimes.SolveAndCombine | src/main/java/primes/GoodPrimes.java:114-140 | given ord(a), the split computes exactly the reference restriction |
| GoodPrimes.CalculateRestriction | src/main/java/primes/GoodPrimes.java:103-141 | equals the reference restriction computed by baby-step/giant-step, for every prime p |
| GoodPrimes.GenerateShard | src/main/java/primes/GoodPrimes.java:82-101 | the shard visits indices shift, shift+step, … up to the first prime above limit, and records p exactly when a restriction exists |
| GoodPrimes.ShardStep | src/main/java/primes/GoodPrimes.java:88-98 | the row recorded for one prime is {p, A, B, gcd(A, B)} iff p has a restriction |
| GoodPrimes.IsGcdGood | src/main/java/primes/GoodPrimes.java:234-277 | for a gcd up to the table's limit, true exactly when GcdGood holds: each prime factor of the gcd, smallest first and as often as it divides it, has a recorded restriction, and Restrictions.merge folds all of them from {1, 0} over C = 1; true for gcd 1; a true result means every prime factor has a recorded restriction and the merged restriction passes the exact check modulo the gcd |
| GoodPrimes.DivideOut | src/main/java/primes/GoodPrimes.java:244-261 | dividing the smallest prime factor out of the remaining gcd as often as it divides it: when every merge succeeds, the fold over the remaining factors is unchanged; when a merge fails or the prime has no restriction, the fold over the remaining factors fails |
| GoodPrimes.TrialPrime | src/main/java/primes/GoodPrimes.java:244-262 | one table prime of isGcdGood's loop: when it goes on, the merge state, the coverage of the gcd's factors and the fold still deciding goodness carry over and the prime no longer divides the remainder; when it answers false, the gcd is above 1 and not good |
| GoodPrimes.Finish | src/main/java/primes/GoodPrimes.java:265-276 | when what remains of the gcd is 1 or a prime, the verdict is exactly the fold over what remains; it is true for 1, and a true verdict carries the promise of isGcdGood |
| GoodPrimes.GcdGoodFrame | src/main/java/primes/GoodPrimes.java:245-249 | the verdict on g reads the maps as and bs at primes up to g only: maps that agree there give the same verdict |
| GoodPrimes.MaxGcd | src/main/java/primes/GoodPrimes.java:177-181 | the largest gcdAB over all shard results, or 0 when there is none |
| GoodPrimes.Decide | src/main/java/primes/GoodPrimes.java:192-214 | for a gcd up to the table's limit, the verdict is true exactly when the gcd is 1 or GcdGood for the current maps, whether it came from goodGcd, badGcd or a fresh isGcdGood call, so memoising does not change the outcome; goodGcd and badGcd grow by exactly the decided gcd, and stay exact for the maps |
| GoodPrimes.Take | src/main/java/primes/GoodPrimes.java:191-227 | taking one shard's next row keeps the merge invariant and emits that row or nothing |
| GoodPrimes.Visit | src/main/java/primes/GoodPrimes.java:189-228 | visiting shard j in round i advances the cursors and keeps the merge invariant |
| GoodPrimes.Advance | src/main/java/primes/GoodPrimes.java:190-227 | shard j's cursor stays or moves past one row, the cursors then describe the shards still to visit one shard further, and the merge invariant holds one table index further |
| GoodPrimes.Round | src/main/java/primes/GoodPrimes.java:188-230 | one round-robin round over all shards visits the next table indices, one per shard, in order |
| GoodPrimes.MergeResults | src/main/java/primes/GoodPrimes.java:169-232 | the merged rows are correct restriction rows, strictly increasing in p, each with gcd 1 or a good gcd; a table prime p ≤ limit is kept exactly when it has a restriction {a, b} and gcd(a, b) is 1 or GcdGood for the restrictions of the kept rows; in particular every prime with gcd(a, b) = 1 is kept |
| GoodPrimes.Generate | src/main/java/primes/GoodPrimes.java:54-80 | the good-prime table has correct rows, increasing in p, each with gcd 1 or a good gcd; a table prime p ≤ limit is in it exactly when it has a restriction {a, b} with gcd(a, b) equal to 1 or GcdGood for the restrictions in the table |
| Factorization.Insert | src/main/java/factorization/Factorization.java:28-32 | inserting into a sorted list keeps it sorted and adds exactly one occurrence of the value |
| Factorization.Sort | src/main/java/factorization/Factorization.java:28-32 | the result is sorted and a permutation of the input, as the stream sort of the factors gives |
| Factorization.FromSingleFactor | src/main/java/factorization/Factorization.java:23-25 | one factor whose product is the given number; it is listed as a composite exactly when it is not known to be prime |
| Factorization.FromPrimeFactors | src/main/java/factorization/Factorization.java:27-29 | the factors are the given primes, sorted, with the same product, and no composites |
| Factorization.Multiply | src/main/java/factorization/Factorization.java:31-34 | the factors of the product are both factor lists merged and sorted, the composites are the union, and the product of the factors multiplies |
| Factorization.CompositeCounts | src/main/java/factorization/Factorization.java:40-42 | compositeCount is 0 for prime factors, 1 for a single factor not known to be prime, and for a product lies between the first count and the sum of both |
| Factorization.FromSortedFactors | src/main/java/factorization/Factorization.java:27-29 | rebuilding from the sorted factors of a factorization without composites gives it back |
| Factorization.FindRunEnd | src/main/java/factorization/Factorization.java:67-70 | the end of the run of equal primes starting at pos: every factor in between equals f[pos] and the next one differs |
| Factorization.ForEachDivisor | src/main/java/factorization/Factorization.java:62-76 | the recursion hands the consumer exactly the divisor sequence Emit(f, pos, cur), appended to what was emitted before |
| Factorization.ForEachDivisorOf | src/main/java/factorization/Factorization.java:36-38 | for sorted prime factors every divisor of the product is emitted, each exactly once, and nothing else |
| Factorization.GenerateDivisors | src/main/java/factorization/Factorization.java:48-52 | the divisors come out sorted; for sorted prime factors they are strictly increasing and are exactly the divisors of the product |
| Factorization.EmitLength | src/main/java/factorization/Factorization.java:62-76 | the number of emitted divisors is the product of (run length + 1) over the runs of equal primes |
| Factorization.Divisors | src/main/java/factorization/Factorization.java:62-76 | the divisor recursion on sorted primes lists every divisor of the product once |
| FactorizationDB.ParseFactorization | src/main/java/factorization/FactorizationDB.java:80-122 | the parser's result and its grown prime cache are those of the reference parse of the line body |
| FactorizationDB.ParseSound | src/main/java/factorization/FactorizationDB.java:80-122 | a successful parse has product n, every factor passed the primality test or is the single p-term, at most one p-term is present, and the cache of checked primes only holds primes |
| FactorizationDB.ScanPTerms | src/main/java/factorization/FactorizationDB.java:84-91 | a successful scan has at most one p-term, and none at all once a p-term was already seen |
| FactorizationDB.ScanProduct | src/main/java/factorization/FactorizationDB.java:84-121 | when the term scan succeeds the product of the factors is the product of the terms times the leftover |
| FactorizationDB.ParseToString | src/main/java/factorization/FactorizationDB.java:80-122 | parsing the text toString prints for a factorization of prime factors gives the factorization back (src/main/java/factorization/Factorization.java:79-91 is the printer) |
| Text.StripMeaning | src/main/java/factorization/FactorizationDB.java:81 | String::strip keeps a middle slice of each term, cutting off whitespace only, and leaves no whitespace at either end |
| FactorizationDB.MatchLine | src/main/java/factorization/FactorizationDB.java:64-67 | a matched line has the shape base^pow shift target = body with a decimal pow and a body of digits, spaces, stars and p |
| FactorizationDB.MatchLineOf | src/main/java/factorization/FactorizationDB.java:64-67 | every line of that shape is matched, with its own pow and body |
| FactorizationDB.ParseAndStore | src/main/java/factorization/FactorizationDB.java:69-71 | one parsed line is stored under its pow exactly as the reference store does |
| FactorizationDB.ReadLine | src/main/java/factorization/FactorizationDB.java:65-76 | one resource line changes the table and the prime cache as the reference loader does |
| FactorizationDB.Initialize | src/main/java/factorization/FactorizationDB.java:61-78 | the table built from the lines is the reference load of those lines |
| FactorizationDB.LoadSound | src/main/java/factorization/FactorizationDB.java:61-78 | every stored entry is a factorization of base^pow - target into accepted factors, read from one of the lines |
| FactorizationDB.LoadKeeps | src/main/java/factorization/FactorizationDB.java:72-74 | a further line never removes a stored pow |
| FactorizationDB.LoadPrinted | src/main/java/factorization/FactorizationDB.java:61-78 | a line printed for pow from a factorization stores exactly that factorization under pow and changes nothing else |
| FactorizationDB.StoreSound | src/main/java/factorization/FactorizationDB.java:69-71 | storing one line leaves every other pow as it was and stores only a correct factorization |
| FactorizationDB.GetLoaded | src/main/java/factorization/FactorizationDB.java:37-39 | whatever get returns for a pow is a correct factorization read from the resource lines |
| GcdDetector.Detector.constructor | src/main/java/factorization/GcdDetector.java:11-17 | an empty batch of the given capacity for N |
| GcdDetector.Detector.Scan | src/main/java/factorization/GcdDetector.java:28-33 | the gcd with N of the first prefix product of the batch that shares a factor with N |
| GcdDetector.Detector.Add | src/main/java/factorization/GcdDetector.java:19-38 | below capacity the value is stored and nothing is reported; at capacity nothing is reported exactly when the whole batch is coprime to N, and then the batch restarts; a report is the gcd of the first prefix sharing a factor |
| GcdDetector.ReportedDivides | src/main/java/factorization/GcdDetector.java:28-33 | a reported value is a divisor of N greater than 1 |
| GcdDetector.Detector.Finish | src/main/java/factorization/GcdDetector.java:40-50 | finish as written, case by case: a coprime batch gives null, a proper factor is returned, and a gcd of N falls through to add(0) |
| GcdDetector.ZeroCollapses | src/main/java/factorization/GcdDetector.java:49 | a batch ending in 0 has last prefix gcd N, so an add(0) that fills the buffer always goes on to scan the prefixes |
| GcdDetector.FinishMissesFactor | src/main/java/factorization/GcdDetector.java:40-50 | for N = 15 and the partial batch 3, 5 the full gcd is 15 while the first prefix already shares 3 |
| GcdDetector.Detector.FinishScanning | src/main/java/factorization/GcdDetector.java:40-50 | corrected finish: reports nothing exactly when the batch is empty or coprime to N, and otherwise the first shared factor |
| ModPowCalculator.New | src/main/java/scan/ModPowCalculator.java:16-22 | a calculator for baseBig^exp times the multiplier |
| ModPowCalculator.Calculate | src/main/java/scan/ModPowCalculator.java:24-46 | the result is baseBig^exp times the multiplier modulo mod, in [0, mod) |
| ModPowCalculator.Pow | src/main/java/scan/ModPowCalculator.java:48-70 | left-to-right binary exponentiation with the chosen modular multiplier gives b^n mod m |
| ModPowCalculator.Multiply | src/main/java/scan/ModPowCalculator.java:57-69 | the square-and-multiply loop over the remaining bits keeps the partial power |
| ModPowCalculatorFactory.New | src/main/java/scan/ModPowCalculatorFactory.java:13-26 | the table holds base^0, base^1, ... up to the last power not above the long range |
| ModPowCalculatorFactory.CreateCalculator | src/main/java/scan/ModPowCalculatorFactory.java:28-34 | the calculator's baseBig^exp times its multiplier equals base^exp, with a long-sized base and a multiplier below it |
| QuadraticResidueSieve.SquareFreePart | src/main/java/scan/QuadraticResidueSieve.java:22-26 | dividing out squares leaves the reference square-free part, within the int range |
| QuadraticResidueSieve.ReduceSquareFree | src/main/java/scan/QuadraticResidueSieve.java:22-26 | the reduced n has no square factor above 1 |
| QuadraticResidueSieve.ReduceFactor | src/main/java/scan/QuadraticResidueSieve.java:22-26 | n is its square-free part times a square |
| QuadraticResidueSieve.FirstPrime | src/main/java/scan/QuadraticResidueSieve.java:134-141 | a prime congruent to r modulo m, at least r and within the int range, or an overflow |
| QuadraticResidueSieve.FirstPrimeIsFirst | src/main/java/scan/QuadraticResidueSieve.java:134-141 | no smaller member of the class is prime, and an overflow means the class has no prime in the int range |
| QuadraticResidueSieve.FindPrime | src/main/java/scan/QuadraticResidueSieve.java:134-141 | the loop returns the first prime of the class |
| QuadraticResidueSieve.IsResidue | src/main/java/scan/QuadraticResidueSieve.java:143-150 | true exactly when some x below p has x^2 congruent to n modulo p |
| QuadraticResidueSieve.CoprimeMask | src/main/java/scan/QuadraticResidueSieve.java:29-32 | entry i says whether gcd(i, m) = 1 |
| QuadraticResidueSieve.FillResidues | src/main/java/scan/QuadraticResidueSieve.java:34-45 | entry i says whether n is a residue modulo the first prime of class i; useless exactly when every coprime class is a residue |
| QuadraticResidueSieve.UselessTable | src/main/java/scan/QuadraticResidueSieve.java:34-45 | the table is useless exactly when n is a residue for every coprime class |
| QuadraticResidueSieve.ShrinkIsFirstPeriod | src/main/java/scan/QuadraticResidueSieve.java:50-61 | the shrunk table is a prefix that is a period of the masked table, and no shorter divisor from 2 up is one |
| QuadraticResidueSieve.ShrinkLookup | src/main/java/scan/QuadraticResidueSieve.java:50-61 | looking up i modulo the shrunk length gives the full table's entry |
| QuadraticResidueSieve.Shrink | src/main/java/scan/QuadraticResidueSieve.java:50-61 | the loop leaves the first period of the table |
| QuadraticResidueSieve.Create | src/main/java/scan/QuadraticResidueSieve.java:21-64 | the sieve for n is the reference construction: an overflow, null when useless and asked to, or the shrunk table with or without buffers |
| QuadraticResidueSieve.CreatedValid | src/main/java/scan/QuadraticResidueSieve.java:21-64 | a created sieve has a nonempty table whose length divides 4n and has buffers exactly when asked for |
| QuadraticResidueSieve.CreatedNull | src/main/java/scan/QuadraticResidueSieve.java:46-48 | create returns null exactly when asked to and every coprime class is a residue |
| QuadraticResidueSieve.GenerateBits | src/main/java/scan/QuadraticResidueSieve.java:81-107 | bit j is set exactly when the class of a + j*b is not a residue, over a cycle repeated to the length |
| QuadraticResidueSieve.CycleBits | src/main/java/scan/QuadraticResidueSieve.java:85-90 | one cycle of the exclusion pattern |
| QuadraticResidueSieve.CyclePeriod | src/main/java/scan/QuadraticResidueSieve.java:83-85 | m / gcd(b, m) steps of b bring the class back |
| QuadraticResidueSieve.ExcludedPeriod | src/main/java/scan/QuadraticResidueSieve.java:81-107 | the exclusion of position j repeats with that period |
| QuadraticResidueSieve.ExcludedCongruent | src/main/java/scan/QuadraticResidueSieve.java:67-68 | reducing start and step modulo the table length does not change the exclusion pattern |
| QuadraticResidueSieve.InternCache.Intern | src/main/java/scan/QuadraticResidueSieve.java:177-190 | intern returns an equal array and files it under its first bytes |
| QuadraticResidueSieve.AllBitsSet | src/main/java/scan/QuadraticResidueSieve.java:161-164 | true exactly when every bit of the pattern is set |
| QuadraticResidueSieve.GenerateRow | src/main/java/scan/QuadraticResidueSieve.java:158-172 | the buffers for one start class: the pattern for each step class, null when it excludes everything |
| QuadraticResidueSieve.GenerateBuffers | src/main/java/scan/QuadraticResidueSieve.java:152-175 | the precalculated buffers for every start and step class, or an overflow of the buffer length |
| QuadraticResidueSieve.NullCycleExcludesAll | src/main/java/scan/QuadraticResidueSieve.java:66-79 | a null buffer means every position of the window is excluded |
| QuadraticResidueSieve.GenerateBitSet | src/main/java/scan/QuadraticResidueSieve.java:66-79 | bit j is set exactly when start + j*step is excluded; null only with buffers and when every position is excluded |
| QuadraticResidueSieve.DivisorOfModulus | src/main/java/scan/QuadraticResidueSieve.java:109-111 | isDivisor(p) holds only for divisors of the modulus 4n |
| QuadraticResidueSieve.ResidueForClass | src/main/java/scan/QuadraticResidueSieve.java:113-116 | isResidueFor(p) reads the class of p modulo 4n in the full table |
| QuadraticResidueSieve.NoNegativeSize | src/main/java/scan/QuadraticResidueSieve.java:28 | after the square-free reduction, 4n is never Integer.MIN_VALUE, so Math.abs(multiplyExact(4, n)) is the modulus 4·|n| and not negative |
| QuadraticResidueSieve.ResidueForSmallPrime | src/main/java/scan/QuadraticResidueSieve.java:113-116 | for a prime p below the modulus 4·|n| and not dividing it, isResidueFor(p) is true exactly when n is a quadratic residue modulo p |
| ScanSieve.SieveForValid | src/main/java/scan/ScanSieve.java:29-34 | each sieve created for the scanner is well formed and has buffers exactly when precalculation is on |
| ScanSieve.New | src/main/java/scan/ScanSieve.java:25-41 | without the option no QR sieves; with it both sieves are built for target and target*base, and any overflow is the constructor's failure |
| ScanSieve.GetInv | src/main/java/scan/ScanSieve.java:92-103 | a value in [0, p) that is the inverse of r modulo a prime p |
| ScanSieve.Residues | src/main/java/scan/ScanSieve.java:51-71 | start and step modulo p and the inverse of the step residue |
| ScanSieve.PrimeResidues | src/main/java/scan/ScanSieve.java:47-72 | the residues for every prime up to the bound (and at most length + 1 primes), stopping at the first one beyond |
| ScanSieve.SkipPositions | src/main/java/scan/ScanSieve.java:74-86 | each progression value up to the largest sieving prime maps to its position |
| ScanSieve.CreateBitSetGenerator | src/main/java/scan/ScanSieve.java:43-90 | the generator holds the residues of exactly the primes up to the square root of the largest value and the QR sieve for the parity of the power |
| ScanSieve.Bound | src/main/java/scan/ScanSieve.java:45 | the integer square root of the largest value, capped to the int range |
| ScanSieve.StartModP | src/main/java/scan/ScanSieve.java:143 | the start residue of a window is that of the window's first value |
| ScanSieve.SievePrime | src/main/java/scan/ScanSieve.java:138-174 | sieving one prime applies its marking plan to the bits, or reports that p divides every value |
| ScanSieve.InitialBits | src/main/java/scan/ScanSieve.java:127-136 | the starting bits are the QR sieve's window, or clear, or null |
| ScanSieve.Generate | src/main/java/scan/ScanSieve.java:127-177 | generate(from, length) gives the reference window bits, or null exactly when the reference does |
| ScanSieve.GenerateNull | src/main/java/scan/ScanSieve.java:146-150 | null exactly when the QR sieve excludes everything or a sieving prime divides both the window start and the step |
| ScanSieve.GenerateMarks | src/main/java/scan/ScanSieve.java:127-177 | bit j is set exactly when the value is not itself a sieving prime and is excluded by the QR sieve or divisible by a sieving prime |
| ScanSieve.PlannedPrimes | src/main/java/scan/ScanSieve.java:138-174 | the marking plans strike and divide exactly by the sieving primes that are not left to the QR sieve |
| Marking.PositionOf | src/main/java/scan/ScanSieve.java:164-167 | the position of v in the progression start + j*step, or -1 when v is not in it |
| Marking.OffsetMeaning | src/main/java/scan/ScanSieve.java:143-160 | the first offset and the step p mark exactly the positions whose value p divides; p dividing start and step means every value |
| Marking.MarkMultiples | src/main/java/scan/ScanSieve.java:164-167 | the loop sets the bits pStart, pStart + p, ... below length and nothing else |
| Marking.SieveAllNull | src/main/java/scan/Scanner.java:183-206 | the sieve yields null exactly when some prime's plan says it divides every value |
| Marking.SieveAllMarks | src/main/java/scan/Scanner.java:183-217 | after all primes, bit j is set exactly when the value is not a sieving prime and was set initially or has a sieving prime factor |
| Scanner.Inverses | src/main/java/scan/Scanner.java:69-72 | entry a of the table is the inverse of a modulo p |
| Scanner.PrimesUpTo | src/main/java/scan/Scanner.java:64-77 | the scanner's primes are exactly the primes of the table up to sieveBound, each with its inverse table |
| Scanner.New | src/main/java/scan/Scanner.java:48-101 | the fields are as given, the sieving primes are those up to sieveBound, and the QR sieves are built for target and target*base when asked for |
| Scanner.TasksNumber | src/main/java/scan/Scanner.java:105-113 | one task for a short length; otherwise a multiple of threadsNumber with tasks of at most maxLengthPerTask values and no spare round |
| Scanner.SplitCovers | src/main/java/scan/Scanner.java:114-145 | the lengths of the tasks add up to the whole length and each is length/tasks or one more |
| Scanner.PrimeBound | src/main/java/scan/Scanner.java:117 | the long product taskLength·sieveLengthFactor when sieveBound/taskLength exceeds the factor, sieveBound otherwise; never above sieveBound, and for a factor ≥ 0 it is sieveBound exactly when taskLength·(factor + 1) exceeds it |
| Scanner.SkipPositions | src/main/java/scan/Scanner.java:170-175 | each progression value up to the prime bound maps to its position |
| Scanner.SievePrime | src/main/java/scan/Scanner.java:183-217 | one prime's pass applies its marking plan to the bits, or reports that p divides every value |
| Scanner.SievePrimes | src/main/java/scan/Scanner.java:183-218 | the loop over the primes up to the bound applies each marking plan in turn, and stops with null at the first prime that divides every value |
| Scanner.InitialBits | src/main/java/scan/Scanner.java:179-182 | the starting bits are the QR sieve's window, or clear, or null |
| Scanner.GenerateBitSet | src/main/java/scan/Scanner.java:168-220 | the window bits are the reference bits, or null exactly when the reference is |
| Scanner.BitSetNull | src/main/java/scan/Scanner.java:179-206 | null exactly when the QR sieve excludes everything or a sieving prime not left to the QR sieve divides both start and step |
| Scanner.BitSetMarks | src/main/java/scan/Scanner.java:168-220 | bit j is set exactly when the value is not a sieving prime and is excluded by the QR sieve or divisible by a sieving prime |
| Scanner.ReportedMeaning | src/main/java/scan/Scanner.java:261-316 | a task reports M exactly when checking is on and M is the value of a clear position that passes the pre-check and makes M*C a solution |
| Scanner.PrimePassesPreCheck | src/main/java/scan/Scanner.java:268-271 | every M with M*C a solution passes the pre-check base^C mod M, so the pre-check loses no solution |
| Scanner.StartWithBig | src/main/java/scan/Scanner.java:256-260 | the number of leading values that fit in a long: those before it fit and the one at it does not |
| Scanner.Check | src/main/java/scan/Scanner.java:268-271 | the two-stage check accepts M exactly when base^C and target agree modulo M and M*C is a solution |
| Scanner.LongLoop | src/main/java/scan/Scanner.java:261-279 | the long loop reports the passing clear values before startWithBig and counts the clear positions |
| Scanner.BigLoop | src/main/java/scan/Scanner.java:282-316 | the BigInteger loop continues to the end of the window with the same report and count |
| Scanner.Advance | src/main/java/scan/Scanner.java:294-303 | stepping M with the cached step multiples gives the value at position i |
| Scanner.Run | src/main/java/scan/Scanner.java:246-325 | one task's results and count are the reference task outcome |
| Scanner.TaskSound | src/main/java/scan/Scanner.java:246-325 | every value one task reports passes both checks and lies in its window |
| Scanner.TaskCount | src/main/java/scan/Scanner.java:246-325 | a task counts at most as many candidates as its length |
| Scanner.SoundJoin | src/main/java/scan/Scanner.java:119-130 | adding the next task's sound results keeps the collected results sound for the longer window |
| Scanner.RunTask | src/main/java/scan/Scanner.java:139-145 | running task i appends exactly task i's results (the outcome of its window) and adds exactly its count |
| Scanner.RunTasks | src/main/java/scan/Scanner.java:134-150 | the outcome is the results of tasks 0 to n−1 joined in task order and their counts added |
| Scanner.NextTask | src/main/java/scan/Scanner.java:139-143 | one turn of the task loop extends the joined outcome by task i and moves the start to task i+1's |
| Scanner.TasksAt | src/main/java/scan/Scanner.java:139-144 | entry i of the task list is the outcome of the task that starts after the values of tasks 0 to i−1 and has task i's length |
| Scanner.TasksStep | src/main/java/scan/Scanner.java:121-130 | handing task i's outcome to the consumer after those of tasks 0 to i−1 gives the joined outcome of tasks 0 to i |
| Scanner.JoinedSnoc | src/main/java/scan/Scanner.java:121-130 | the consumer appends a task's results and adds its count |
| Scanner.JoinedMembers | src/main/java/scan/Scanner.java:121-130 | a value is among the collected results exactly when some task reported it |
| Scanner.TasksMembers | src/main/java/scan/Scanner.java:121-150 | a value is among the joined results of the first n tasks exactly when one of those tasks reports it |
| Scanner.TasksSound | src/main/java/scan/Scanner.java:134-150 | the joined results of the first n tasks are solutions from the values they cover, and their count is at most that many values |
| Scanner.TasksSoundStep | src/main/java/scan/Scanner.java:139-145 | one more task keeps the collected results sound and the count within the covered length |
| Scanner.Scan | src/main/java/scan/Scanner.java:103-166 | fails with a division by zero exactly when the length is below the number of tasks; otherwise the results are those of its tasks joined and the count is the sum of theirs, a value is reported exactly when one of the tasks reports it, every result M has M*C a solution with M in B + k*A for k below length, and the count is at most length |
| OldScanner.New | src/main/java/Scanner.java:37-68 | the fields are as given and the sieving primes are the primes up to sieveBound with their inverse tables |
| OldScanner.PrimeBound | src/main/java/Scanner.java:84 | the sieving bound is sieveBound when a task is long enough, and taskLength*sieveLengthFactor otherwise |
| OldScanner.GenerateBitSet | src/main/java/Scanner.java:131-175 | the window bits are those of the newer generator without a QR sieve |
| OldScanner.Check | src/main/java/Scanner.java:228-233 | the check accepts M exactly when base^C and target agree modulo M and M*C is a solution |
| OldScanner.CheckAll | src/main/java/Scanner.java:203-234 | the loop reports every passing clear value and counts the clear positions |
| OldScanner.Run | src/main/java/Scanner.java:197-242 | one task's results and count are the reference task outcome |
| OldScanner.TaskSound | src/main/java/Scanner.java:197-242 | every value one task reports passes both checks and lies in the window, and the count is at most the length |
| OldScanner.RunTask | src/main/java/Scanner.java:102-107 | running task i appends exactly task i's results and adds exactly its count |
| OldScanner.RunTasks | src/main/java/Scanner.java:97-113 | the outcome is the results of tasks 0 to n−1 joined in task order and their counts added |
| OldScanner.NextTask | src/main/java/Scanner.java:102-106 | one turn of the task loop extends the joined outcome by task i and moves the start to task i+1's |
| OldScanner.TasksAt | src/main/java/Scanner.java:102-106 | entry i of the task list is the outcome of task i's window |
| OldScanner.TasksStep | src/main/java/Scanner.java:88-95 | handing task i's outcome to the consumer after those of tasks 0 to i−1 gives the joined outcome of tasks 0 to i |
| OldScanner.TasksSound | src/main/java/Scanner.java:97-113 | the joined results of the first n tasks are solutions from the values they cover, and their count is at most that many values |
| OldScanner.TasksMembers | src/main/java/Scanner.java:88-113 | a value is among the joined results of the first n tasks exactly when one of those tasks reports it |
| OldScanner.TasksSoundStep | src/main/java/Scanner.java:102-107 | one more task keeps the collected results sound and the count within the covered length |
| OldScanner.Scan | src/main/java/Scanner.java:70-129 | fails with a division by zero exactly when the length is below the number of tasks; otherwise the results are those of its tasks joined and the count is the sum of theirs, a value is reported exactly when one of the tasks reports it, every result M has M*C a solution in the scanned range, and the count is at most length |
| Solver.ScannerReports | src/main/java/Solver.java:205-212 | every value a sound scan reports turns into a solution C*M |
| Solver.GeneratedRowsUsable | src/main/java/Solver.java:67 | every row of the good-prime table has a prime p, A at least 1 and B at least 0 |
| Solver.Found | src/main/java/Solver.java:185-193 | the recorded values are solutions, at most one per divisor |
| Solver.FoundMeaning | src/main/java/Solver.java:185-193 | x is recorded exactly when it is a solution of the form C*d for a divisor d handed to the consumer |
| Solver.FactoredFinds | src/main/java/Solver.java:157-195 | with a complete factorization of base^C - target, C*d is recorded exactly when d divides it and C*d is a solution |
| Solver.ScaledSolutions | src/main/java/Solver.java:206-212 | scaling what the scanner reports by C gives only solutions |
| Solver.PartsProduct | src/main/java/Solver.java:225-247 | the printed factors multiply to the product of the stack times the last factor |
| Solver.RenderedOne | src/main/java/Solver.java:229-231 | the text is "1" exactly when the stack is empty and the last factor is 1 |
| Solver.StackRoom | src/main/java/Solver.java:106-117 | pushing a good prime p no larger than sqrt(ceil/C) keeps C*p within the ceiling and the stack within its bit-length size |
| Solver.Solver.constructor | src/main/java/Solver.java:48-80 | the solver keeps its arguments and starts with no solutions and a prime stack of bitLength(solutionCeil) slots |
| Solver.Solver.NodeSolutions | src/main/java/Solver.java:93-104 | everything one node of the search records is a solution |
| Solver.Solver.Solve | src/main/java/Solver.java:82-91 | the prime scan comes first (up to solutionCeil when target = base, else up to base), then only solutions are added |
| Solver.Solver.Pognali | src/main/java/Solver.java:93-155 | a node above the ceiling records nothing; otherwise it records its own factorization or scan results first, and everything it records is a solution |
| Solver.Solver.BranchFirst | src/main/java/Solver.java:111-120 | the first-level branch over good primes only adds solutions and leaves the stack below pos unchanged |
| Solver.Solver.BranchMerged | src/main/java/Solver.java:121-154 | the deeper branch only adds solutions, restores the incompatible set and leaves the stack below pos unchanged |
| Solver.Solver.MergeStep | src/main/java/Solver.java:128-148 | for a reduced class {A, B} and row, the merge fails (and the caller marks the prime incompatible) exactly when no merged class exists; a failed merge adds no solution; in every case the step only adds solutions and keeps the stack below pos |
| Solver.Solver.Descend | src/main/java/Solver.java:142-143 | pushing the prime and recursing only adds solutions and keeps the stack below pos |
| Solver.Solver.Forget | src/main/java/Solver.java:150-153 | removing the primes marked at this level restores the incompatible set the level started with |
| Solver.Solver.TryFactorization | src/main/java/Solver.java:157-195 | records the solutions among C*d for the divisors d of the chosen factorization, and answers whether it had no composites |
| Solver.Solver.RecordDivisors | src/main/java/Solver.java:185-193 | records exactly the solutions among C*d, in divisor order |
| Solver.Solver.Scan | src/main/java/Solver.java:197-219 | nothing for a length of 0 or less; otherwise records C*M for each M the scanner reports, in order |
| Solver.Solver.StackToString | src/main/java/Solver.java:221-247 | the text lists the first pos primes of the stack and the last factor when it is not 1, joined by " * " |
| Solver.Solver.BaseModPow | src/main/java/Solver.java:249-255 | base^exp modulo mod, with the long path's 1 for exponent 0 and modulus 1 |
| Solver.Solver.PowBig | src/main/java/Solver.java:187 | base^N modulo N, the final solution test |

## Left out

- Threads. `scan/Scanner.java:147-163`, `Scanner.java:110-126` and the executor fan-out of `GoodPrimes.generate` run their tasks one after another in the model. With threads, the order of the results depends on scheduling. `Scanner.Scan` and `OldScanner.Scan` state the results in task order, so for a threaded run only which values are reported and the total count carry over, not their order.
- `TaskExecutor`, `GmpEcm*`, `Pollard*`, `Factorizer`, `Launch`, `Main`, logging and timing are not part of this model. The factorizer is a parameter of `Solver` (an oracle that returns a factorization of the number it is given).
- `FactorizationDB.logFactorizations` and `visualize` (reporting only), `FactorizationDB.size`, `Factorization.composites` and `QuadraticResidueSieve.shortDescription` (accessors and text for the log), `ScanSieve.logPrimeSieveStats`, and the getters and `shutdown` of `GoodPrimes` and `Solver`.
- Reading the factorization resource file (`FactorizationDB.java:45-59`). The model takes its lines as a parameter.
- Floating point. `Math.sqrt` of a double (`ScanSieve.java:45`, `Primes.java:22`, `Restrictions.java:32`) is the exact integer square root `Primes.ISqrt`. It agrees with the double computation as long as that one rounds correctly. The `log2Base` forecast for `launch.tryFactorize` (`Solver.java:57`, `168`) is folded into the `tryFactorize` oracle.
- Probabilistic primality (`isProbablePrime` with a certainty) is the exact predicate `IsPrime`, passed as a parameter where the code tests primality.
- The byte packing of the QR sieve buffers (`byte[]`, `BitSet.valueOf`) is a sequence of booleans, one per bit. `Common.repeatToLength` is not part of this model; it is taken to repeat its argument to the requested length.
- `RestoreByCRT`'s scratch array is a sequence.
- ModUtils.ModMultiplier: the multipliers for moduli from MAX_LONG_SQRT up to 2^52 (`ModUtils.java:124-157`, through the private `modMultiplier(mod, r64, H)`) are modelled by what they compute, a·b mod m, and `ModUtils.Apply` states that. The split of the 128-bit product into high and low halves and the folding of the high half with r64 and its shifted variants are not followed step by step. `Modules.HighLowSum` proves that folding for the 42-bit variant of `Modules.java`.
- Restrictions.CalculateRestrictionCycle: requires cycleSize ≥ 1, and so does Restrictions.CalculateRestrictionWith. For cycleSize ≤ 0 the giant-step loop of `Restrictions.java:55-86` does not end. Every caller passes at least 1: `Restrictions.CalculateRestriction` passes p − 1, and `GoodPrimes.SolveBlock` passes a factor q ≥ 1 of p − 1.
- Scanner.Inverses: `scan/Scanner.java:71` stores the long `Modules.pow(j, p-2, p)` into an `int` table. The value is below p ≤ sieveBound ≤ Integer.MAX_VALUE, so the narrowing never changes it, and the model keeps the value.
- `Common.MULTIPLY_HIGH_BOUND` is not part of this model. It is taken as 2^42, the bound that `modMultiplier42bit` needs.
- Java's `long` overflow outside the places named in the introduction: values are unbounded, and the preconditions say where the code relies on staying in range.
- Exception types and messages. An `ArithmeticException` from `intValueExact`/`longValueExact` or a division by zero is an `Err` value where the source reaches it on valid input (the division by zero of `Scanner.Scan`). Elsewhere a precondition says what the caller guarantees.
- Scanner.Run: requires a window start of at least 1, and Scanner.Scan and OldScanner.Scan require B ≥ 1. For a value 0 the candidate check would reduce modulo 0 and throw, and that exception is not modelled.
- Scanner.Scan: requires length / tasksNumber to fit in an int, which the cast at `scan/Scanner.java:114` assumes.
- QuadraticResidueSieve.GenerateBitSet: requires start and step ≥ 0, as every caller passes.
- QuadraticResidueSieve.ResidueForSmallPrime: proved only for primes p below the modulus 4·|n| (n square-free) that do not divide it. For larger primes the equivalence needs quadratic reciprocity, which is not proved here. For every prime `QuadraticResidueSieve.ResidueForClass` states what `isResidueFor` reads: the class of p modulo 4·|n|.
- GoodPrimes.IsGcdGood: the equality with GcdGood is stated for gcds up to the table's limit. Every gcd that mergeResults passes is one: it divides a ≤ p − 1 for a table prime p. Above the limit, trial division by the table can leave a composite remainder, which the code treats as one prime.
- GoodPrimes.Decide: requires the gcd to be at most the table's limit, for the same reason; mergeResults only decides gcds of table rows.
- Solver.Solver.BranchFirst: states that the branch only adds solutions (and keeps the stack and the incompatible set), not which nodes it visits. The same holds for Solver.Solver.BranchMerged and Solver.Solver.Descend. Solver.Solver.MergeStep also states exactly when the merge fails. `Solver.Solver.Pognali` states the node's own records exactly.
- Solver.Solver.Solve: `launch.registerScan` and `launch.registerFactorizationCall` (bookkeeping for reports) are not modelled. Neither are the `intValueExact`/`longValueExact` exceptions of `Solver.java:85`, `106`, `172`.

## Findings

| source | as written | input that shows it | evidently intended | confidence | as-written member | corrected member |
|---|---|---|---|---|---|---|
| src/main/java/common/Common.java:34-58 | the partial products are kept in a TreeSet ordered by bit length and value, so two equal partial products are stored once and one of them is lost | multiply(2, 3, 6): 2·3 = 6 collides with the argument 6, and the result is 6 | the product of all arguments, 36 | not executed | Common.Multiply, Common.MultiplyMergesEqualProducts | Common.MultiplyExact |
| src/main/java/factorization/GcdDetector.java:40-50 | when the gcd of the partial batch with N is N itself, finish() falls through to add(0); below capacity that returns null without scanning the prefixes | N = 15, capacity 4, add(3), add(5), finish() returns null | the factor 3 that the first prefix shares with N | not executed | GcdDetector.Detector.Finish, GcdDetector.FinishMissesFactor | GcdDetector.Detector.FinishScanning |
