/**
 * common/Common.java: residues of longs and big integers, the product of a
 * list of big integers, and the maximum of nullable longs.
 */
module Common {
  import opened Wrappers
  import opened Arith
  import opened JavaLang

  /** Common.MAX_LONG (Long.MAX_VALUE as a BigInteger). */
  const MAX_LONG: int := LONG_MAX
  /** Common.MAX_LONG_SQRT: the integer square root of Long.MAX_VALUE. */
  const MAX_LONG_SQRT: int := 3037000499
  /** Common.MAX_INT */
  const MAX_INT: int := INT_MAX

  lemma MaxLongSqrtIsSqrt()
    ensures MAX_LONG_SQRT * MAX_LONG_SQRT <= MAX_LONG < (MAX_LONG_SQRT + 1) * (MAX_LONG_SQRT + 1)
  {
  }

  /** mod(long n, long mod): the residue of n in [0, mod), computed from Java's truncating `%`. */
  function Mod(n: int, m: int): (r: int)
    requires m > 0
    ensures 0 <= r < m
    ensures r == n % m
  {
    JavaRemCongruent(n, m);
    var t := JavaRem(n, m);
    if t >= 0 then
      ModSmall(t, m);
      t
    else
      ModAddMultiple(t, m, 1);
      ModSmall(t + m, m);
      t + m
  }

  /** mod(BigInteger n, BigInteger mod): n itself when already in range, otherwise n.mod(mod). */
  function ModBig(n: int, m: int): (r: int)
    requires m > 0
    ensures 0 <= r < m
    ensures r == Mod(n, m)
  {
    if 0 <= n < m then ModSmall(n, m); n else n % m
  }

  // ------------------------------------------------------------------
  // max(Long... a)
  // ------------------------------------------------------------------

  /** The largest non-null argument, or null when every argument is null. */
  function Max(xs: seq<Option<int>>): (r: Option<int>)
    ensures r.None? <==> forall i :: 0 <= i < |xs| ==> xs[i].None?
    ensures r.Some? ==> r in xs
    ensures r.Some? ==> forall i :: 0 <= i < |xs| && xs[i].Some? ==> xs[i].value <= r.value
  {
    if xs == [] then None
    else
      var m := Max(xs[..|xs| - 1]);
      var last := xs[|xs| - 1];
      assert forall i :: 0 <= i < |xs| - 1 ==> xs[..|xs| - 1][i] == xs[i];
      if last.None? then m
      else if m.None? || m.value < last.value then last
      else m
  }

  // ------------------------------------------------------------------
  // multiply(BigInteger... numbers)
  // ------------------------------------------------------------------

  /** The order of COMPARE_BY_BIT_LENGTH: bit length first, then value. */
  predicate Before(x: int, y: int)
  {
    BitLength(x) < BitLength(y) || (BitLength(x) == BitLength(y) && x < y)
  }

  lemma BeforeTransitive(x: int, y: int, z: int)
    ensures Before(x, y) && Before(y, z) ==> Before(x, z)
  {
  }

  /** COMPARE_BY_BIT_LENGTH is a total order: distinct values are comparable. */
  lemma BeforeTotal(x: int, y: int)
    ensures x == y || Before(x, y) || Before(y, x)
    ensures !(Before(x, y) && Before(y, x))
  {
  }

  /** A TreeSet under COMPARE_BY_BIT_LENGTH, listed from first to last. */
  predicate Ordered(s: seq<int>)
  {
    forall i, j :: 0 <= i < j < |s| ==> Before(s[i], s[j])
  }

  /** TreeSet.add: x goes to its place in the order, unless an equal element is already there. */
  function Add(s: seq<int>, x: int): (r: seq<int>)
    requires Ordered(s)
    ensures Ordered(r)
    ensures forall y :: y in r <==> y in s || y == x
    ensures |r| == if x in s then |s| else |s| + 1
  {
    if s == [] then [x]
    else if x == s[0] then s
    else if Before(x, s[0]) then
      forall j | 0 <= j < |s| {
        BeforeTransitive(x, s[0], s[j]);
      }
      [x] + s
    else
      BeforeTotal(x, s[0]);
      var t := Add(s[1..], x);
      assert forall y :: y in s <==> y == s[0] || y in s[1..];
      assert forall j :: 0 <= j < |s[1..]| ==> Before(s[0], s[1..][j]);
      assert forall y :: y in t ==> Before(s[0], y);
      [s[0]] + t
  }

  /** The keys of the counts map, in the order in which they first occur. */
  function Keys(numbers: seq<int>): (keys: seq<int>)
    ensures forall k :: k in keys <==> k in numbers
    ensures forall i, j :: 0 <= i < j < |keys| ==> keys[i] != keys[j]
    decreases |numbers|
  {
    if numbers == [] then []
    else
      var init := numbers[..|numbers| - 1];
      var x := numbers[|numbers| - 1];
      assert numbers == init + [x];
      var keys := Keys(init);
      if x in keys then keys else keys + [x]
  }

  /** The value the counts map contributes for a key met n times: a itself, or a.pow(n). */
  function Grouped(a: int, n: nat): int
  {
    if n == 1 then a else Power(a, n)
  }

  /** The TreeSet after adding the grouped value of every key, in order. */
  function AddGroups(s: seq<int>, keys: seq<int>, counts: multiset<int>): (r: seq<int>)
    requires Ordered(s)
    ensures Ordered(r)
    decreases |keys|
  {
    if keys == [] then s else AddGroups(Add(s, Grouped(keys[0], counts[keys[0]])), keys[1..], counts)
  }

  /** The loop of multiply: replace the two first elements by their product until one is left. */
  function Collapse(s: seq<int>): int
    requires Ordered(s)
    decreases |s|
  {
    if s == [] then 1
    else if |s| == 1 then s[0]
    else Collapse(Add(s[2..], s[0] * s[1]))
  }

  /** What multiply returns, as written. */
  function MultiplyAsWritten(numbers: seq<int>): int
  {
    Collapse(AddGroups([], Keys(numbers), multiset(numbers)))
  }

  /** The HashMap of multiply: how often each argument occurs, and its keys. */
  method Count(numbers: seq<int>) returns (counts: multiset<int>, keys: seq<int>)
    ensures counts == multiset(numbers)
    ensures keys == Keys(numbers)
  {
    counts := multiset{};
    keys := [];
    for i := 0 to |numbers|
      invariant counts == multiset(numbers[..i])
      invariant keys == Keys(numbers[..i])
    {
      assert numbers[..i + 1] == numbers[..i] + [numbers[i]];
      assert numbers[..i + 1][..i] == numbers[..i];
      if numbers[i] !in keys {
        keys := keys + [numbers[i]];
      }
      counts := counts + multiset{numbers[i]};
    }
    assert numbers[..|numbers|] == numbers;
  }

  /**
   * multiply: the arguments are counted in a HashMap, the grouped powers are put in
   * a TreeSet, and the two first elements are repeatedly replaced by their product.
   */
  method Multiply(numbers: seq<int>) returns (r: int)
    ensures r == MultiplyAsWritten(numbers)
  {
    var counts, keys := Count(numbers);
    var s: seq<int> := [];
    for i := 0 to |keys|
      invariant Ordered(s)
      invariant AddGroups(s, keys[i..], counts) == AddGroups([], keys, counts)
    {
      assert keys[i..][1..] == keys[i + 1..];
      s := Add(s, Grouped(keys[i], counts[keys[i]]));
    }
    assert keys[|keys|..] == [];
    while |s| > 1
      invariant Ordered(s)
      invariant Collapse(s) == MultiplyAsWritten(numbers)
      decreases |s|
    {
      var a := s[0];
      var b := s[1];
      s := Add(s[2..], a * b);
    }
    r := if |s| > 0 then s[0] else 1;
  }

  /** Product of a sequence, the value multiply is meant to return. */
  function Product(s: seq<int>): int
  {
    if s == [] then 1 else s[0] * Product(s[1..])
  }

  lemma SmallBitLengths()
    ensures BitLength(2) == 2 && BitLength(3) == 2 && BitLength(6) == 3
  {
    assert Bits(1) == 1;
    assert Bits(3) == 2;
  }

  lemma KeysOfExample()
    ensures Keys([2, 3, 6]) == [2, 3, 6]
  {
    assert [2, 3, 6][..2] == [2, 3];
    assert [2, 3][..1] == [2];
    assert [2][..0] == [];
  }

  lemma OrderedExample()
    ensures Add([], 2) == [2] && Add([2], 3) == [2, 3] && Add([2, 3], 6) == [2, 3, 6]
    ensures Add([6], 6) == [6]
  {
    SmallBitLengths();
    assert Before(2, 3) && Before(3, 6) && Before(2, 6);
    assert Add([3], 6) == [3] + Add([], 6);
  }

  lemma AddGroupsExample()
    ensures AddGroups([], Keys([2, 3, 6]), multiset([2, 3, 6])) == [2, 3, 6]
  {
    KeysOfExample();
    AddGroupsOnce(multiset([2, 3, 6]));
  }

  lemma AddGroupsOnce(m: multiset<int>)
    requires m[2] == 1 && m[3] == 1 && m[6] == 1
    ensures AddGroups([], [2, 3, 6], m) == [2, 3, 6]
  {
    OrderedExample();
    assert Grouped(2, 1) == 2 && Grouped(3, 1) == 3 && Grouped(6, 1) == 6;
    assert [2, 3, 6][1..] == [3, 6] && [3, 6][1..] == [6] && [6][1..] == [];
    assert AddGroups([2, 3, 6], [], m) == [2, 3, 6];
    assert AddGroups([2, 3], [6], m) == AddGroups(Add([2, 3], 6), [], m);
    assert AddGroups([2], [3, 6], m) == AddGroups(Add([2], 3), [6], m);
    assert AddGroups([], [2, 3, 6], m) == AddGroups(Add([], 2), [3, 6], m);
  }

  lemma CollapseExample()
    ensures Ordered([2, 3, 6]) && Collapse([2, 3, 6]) == 6
  {
    OrderedExample();
    var s3 := Add([2, 3], 6);
    assert s3 == [2, 3, 6] && Ordered(s3);
    assert s3[2..] == [6] && s3[0] * s3[1] == 6;
    assert Collapse(s3) == Collapse(Add([6], 6));
  }

  /** The TreeSet keeps a single copy of 6 = 2 * 3, so multiply(2, 3, 6) yields 6 instead of 36. */
  lemma MultiplyMergesEqualProducts()
    ensures MultiplyAsWritten([2, 3, 6]) == 6
    ensures Product([2, 3, 6]) == 36
  {
    AddGroupsExample();
    CollapseExample();
  }

  // ------------------------------------------------------------------
  // The intended product: a queue that keeps equal values
  // ------------------------------------------------------------------

  /** Insertion into the queue without dropping equal values (a priority queue). */
  function Enqueue(s: seq<int>, x: int): (r: seq<int>)
    ensures multiset(r) == multiset(s) + multiset{x}
    ensures |r| == |s| + 1
  {
    if s == [] || !Before(s[0], x) then [x] + s
    else
      var t := Enqueue(s[1..], x);
      assert s == [s[0]] + s[1..];
      assert multiset([s[0]] + t) == multiset{s[0]} + multiset(t);
      [s[0]] + t
  }

  lemma {:induction false} ProductAppend(s: seq<int>, t: seq<int>)
    ensures Product(s + t) == Product(s) * Product(t)
    decreases |s|
  {
    if s == [] {
      assert s + t == t;
    } else {
      ProductAppend(s[1..], t);
      assert (s + t)[1..] == s[1..] + t;
      MulAssoc(s[0], Product(s[1..]), Product(t));
    }
  }

  /** Appending one factor multiplies the product by it. */
  lemma ProductSnoc(s: seq<int>, x: int)
    ensures Product(s + [x]) == Product(s) * x
  {
    ProductAppend(s, [x]);
    assert Product([x]) == x * Product([]);
  }

  /** The product depends only on the multiset of factors. */
  lemma {:induction false} ProductPermutation(s: seq<int>, t: seq<int>)
    requires multiset(s) == multiset(t)
    ensures Product(s) == Product(t)
    decreases |s|
  {
    if s != [] {
      var x := s[0];
      assert x in multiset(t);
      var i :| 0 <= i < |t| && t[i] == x;
      var t' := t[..i] + t[i + 1..];
      RemoveAt(t, i);
      assert t == t[..i] + [x] + t[i + 1..];
      assert multiset(t') == multiset(t) - multiset{x};
      assert s == [x] + s[1..];
      assert multiset(s[1..]) == multiset(t');
      ProductPermutation(s[1..], t');
    }
  }

  /** Taking out the i-th factor: the product is it times the product of the others. */
  lemma RemoveAt(t: seq<int>, i: nat)
    requires i < |t|
    ensures Product(t) == t[i] * Product(t[..i] + t[i + 1..])
  {
    var x := t[i];
    assert t == t[..i] + ([x] + t[i + 1..]);
    ProductAppend(t[..i], [x] + t[i + 1..]);
    ProductAppend(t[..i], t[i + 1..]);
    assert Product([x] + t[i + 1..]) == x * Product(t[i + 1..]);
    MulRotate(x, Product(t[..i]), Product(t[i + 1..]));
  }

  lemma MulRotate(x: int, y: int, z: int)
    ensures x * (y * z) == y * (x * z)
  {
  }

  /** Product of the grouped powers of the given keys. */
  function GroupProduct(keys: seq<int>, counts: multiset<int>): int
  {
    if keys == [] then 1 else Power(keys[0], counts[keys[0]]) * GroupProduct(keys[1..], counts)
  }

  lemma {:induction false} GroupProductUnchanged(keys: seq<int>, counts: multiset<int>, x: int)
    requires x !in keys
    ensures GroupProduct(keys, counts + multiset{x}) == GroupProduct(keys, counts)
    decreases |keys|
  {
    if keys != [] {
      GroupProductUnchanged(keys[1..], counts, x);
    }
  }

  lemma {:induction false} GroupProductBump(keys: seq<int>, counts: multiset<int>, x: int)
    requires x in keys
    requires forall i, j :: 0 <= i < j < |keys| ==> keys[i] != keys[j]
    ensures GroupProduct(keys, counts + multiset{x}) == x * GroupProduct(keys, counts)
    decreases |keys|
  {
    var k := keys[0];
    if k == x {
      assert x !in keys[1..];
      GroupProductUnchanged(keys[1..], counts, x);
      assert Power(x, counts[x] + 1) == x * Power(x, counts[x]);
      MulAssoc(x, Power(x, counts[x]), GroupProduct(keys[1..], counts));
    } else {
      GroupProductBump(keys[1..], counts, x);
      MulRotate(Power(k, counts[k]), x, GroupProduct(keys[1..], counts));
    }
  }

  lemma MulAssoc(x: int, y: int, z: int)
    ensures (x * y) * z == x * (y * z)
  {
  }

  lemma {:induction false} GroupProductAppend(keys: seq<int>, x: int, counts: multiset<int>)
    ensures GroupProduct(keys + [x], counts) == GroupProduct(keys, counts) * Power(x, counts[x])
    decreases |keys|
  {
    if keys != [] {
      GroupProductAppend(keys[1..], x, counts);
      assert (keys + [x])[1..] == keys[1..] + [x];
      MulAssoc(Power(keys[0], counts[keys[0]]), GroupProduct(keys[1..], counts), Power(x, counts[x]));
    }
  }

  /** Grouping equal factors into powers keeps the product. */
  lemma {:induction false} ProductGrouped(numbers: seq<int>)
    ensures Product(numbers) == GroupProduct(Keys(numbers), multiset(numbers))
    decreases |numbers|
  {
    if numbers != [] {
      var init := numbers[..|numbers| - 1];
      var x := numbers[|numbers| - 1];
      assert numbers == init + [x];
      ProductGrouped(init);
      GroupedStep(init, x);
    }
  }

  /** One more number: its key is bumped, or appended with count one. */
  lemma GroupedStep(init: seq<int>, x: int)
    requires Product(init) == GroupProduct(Keys(init), multiset(init))
    ensures Product(init + [x]) == GroupProduct(Keys(init + [x]), multiset(init + [x]))
  {
    var numbers := init + [x];
    ProductSnoc(init, x);
    assert numbers[..|numbers| - 1] == init && numbers[|numbers| - 1] == x;
    var keys := Keys(init);
    var m := multiset(init);
    var P := Product(init);
    assert multiset(numbers) == m + multiset{x};
    if x in keys {
      assert Keys(numbers) == keys;
      GroupProductBump(keys, m, x);
      assert GroupProduct(keys, m + multiset{x}) == x * P;
    } else {
      assert Keys(numbers) == keys + [x];
      assert x !in init;
      GroupProductUnchanged(keys, m, x);
      GroupProductAppend(keys, x, m + multiset{x});
      assert (m + multiset{x})[x] == 1;
      assert Power(x, 1) == x;
      assert GroupProduct(keys + [x], m + multiset{x}) == P * x;
    }
  }

  /** Enqueueing a factor multiplies the product of the queue by it. */
  lemma EnqueueProduct(q: seq<int>, g: int)
    ensures Product(Enqueue(q, g)) == g * Product(q)
  {
    ProductPermutation(Enqueue(q, g), [g] + q);
    assert ([g] + q)[1..] == q;
  }

  /** The first loop of the corrected multiply: every grouped power goes into the queue. */
  method EnqueueGroups(keys: seq<int>, counts: multiset<int>) returns (queue: seq<int>)
    ensures Product(queue) == GroupProduct(keys, counts)
  {
    queue := [];
    for i := 0 to |keys|
      invariant Product(queue) * GroupProduct(keys[i..], counts) == GroupProduct(keys, counts)
    {
      var g := Grouped(keys[i], counts[keys[i]]);
      assert g == Power(keys[i], counts[keys[i]]);
      assert keys[i..][1..] == keys[i + 1..];
      var rest := GroupProduct(keys[i + 1..], counts);
      assert GroupProduct(keys[i..], counts) == g * rest;
      EnqueueProduct(queue, g);
      MulRotate(Product(queue), g, rest);
      MulAssoc(g, Product(queue), rest);
      queue := Enqueue(queue, g);
    }
    assert keys[|keys|..] == [];
  }

  /** The second loop of the corrected multiply: the two first factors are replaced by their product. */
  method CollapseQueue(queue: seq<int>) returns (r: int)
    ensures r == Product(queue)
  {
    var q := queue;
    while |q| > 1
      invariant Product(q) == Product(queue)
      decreases |q|
    {
      var a := q[0];
      var b := q[1];
      var rest := q[2..];
      assert q == [a, b] + rest;
      ProductAppend([a, b], rest);
      assert [a, b][1..] == [b] && [b][1..] == [];
      assert Product([b]) == b;
      assert Product([a, b]) == a * b;
      EnqueueProduct(rest, a * b);
      q := Enqueue(rest, a * b);
    }
    if |q| == 1 {
      assert q[1..] == [];
    }
    r := if |q| > 0 then q[0] else 1;
  }

  /**
   * multiply with the TreeSet replaced by a queue that keeps equal values: the result
   * is the product of all the arguments.
   */
  method MultiplyExact(numbers: seq<int>) returns (r: int)
    ensures r == Product(numbers)
  {
    var counts, keys := Count(numbers);
    ProductGrouped(numbers);
    var queue := EnqueueGroups(keys, counts);
    r := CollapseQueue(queue);
  }
}
