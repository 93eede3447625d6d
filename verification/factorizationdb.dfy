/**
 * factorization/FactorizationDB.java: the cache of known factorizations of
 * base^pow - target, read from lines "base^pow-target = f1 * f2 * ... * p..."
 * (a '+' and |target| when target <= 0). Every listed factor must be prime
 * and must divide what is left of N; a term starting with 'p' stands for a
 * cofactor not written out, and whatever is left of N at the end is checked
 * for primality and appended. A line that fails any check is skipped.
 *
 * Primality is the isProbablePrime test, taken here as an oracle; numbers it
 * has accepted are remembered in a cache shared by all lines and not checked
 * again.
 */
module FactorizationDB {
  import opened Wrappers
  import opened Arith
  import opened JavaLang
  import Common
  import Text
  import F = Factorization

  /** A term standing for an unwritten cofactor. */
  predicate IsPTerm(t: string)
  {
    |t| > 0 && t[0] == 'p'
  }

  /** The factors found, or the message of the exception that ends the parse, and the prime cache after it. */
  datatype Outcome = Outcome(result: Result<seq<int>>, checked: set<int>)

  const TWO_P_TERMS: string := "Two p-terms in one factorization"

  /**
   * parseFactorization's loop over the stripped terms from the current one
   * on: n is what is left of N, factors what was divided out so far, pFlag
   * whether a p-term was seen.
   */
  function ScanTerms(terms: seq<string>, n: int, factors: seq<int>, pFlag: bool, checked: set<int>, isPrime: int -> bool): Outcome
    decreases |terms|
  {
    if |terms| == 0 then
      Leftover(n, factors, checked, isPrime)
    else
      var t := terms[0];
      if IsPTerm(t) then
        if pFlag then Outcome(Err(TWO_P_TERMS), checked)
        else ScanTerms(terms[1..], n, factors, true, checked, isPrime)
      else if !Text.IsNumeral(t) then
        Outcome(Err("not a number: " + t), checked)
      else
        var p := Text.NumeralValue(t);
        if p !in checked && !isPrime(p) then
          Outcome(Err("Not prime: " + Text.IntString(p)), checked)
        else
          var checked' := checked + {p};
          if p == 0 then Outcome(Err("BigInteger divide by zero"), checked')
          else if n % p != 0 then Outcome(Err("Does not divide " + Text.IntString(p)), checked')
          else ScanTerms(terms[1..], n / p, factors + [p], pFlag, checked', isPrime)
  }

  /** After the last term: a rest of N other than 1 must be prime and becomes the last factor. */
  function Leftover(n: int, factors: seq<int>, checked: set<int>, isPrime: int -> bool): Outcome
  {
    if n == 1 then Outcome(Ok(factors), checked)
    else if n !in checked && !isPrime(n) then Outcome(Err("Not prime: " + Text.IntString(n)), checked)
    else Outcome(Ok(factors + [n]), checked + {n})
  }

  /** The terms of a factor list: the pieces between the '*'s, stripped. */
  function Terms(s: string): seq<string>
  {
    Text.StripAll(Text.Split(s, '*'))
  }

  /** parseFactorization(N, s, ..., checkedPrimes) as a function of its inputs. */
  function Parse(n: int, s: string, checked: set<int>, isPrime: int -> bool): Outcome
  {
    ScanTerms(Terms(s), n, [], false, checked, isPrime)
  }

  /** The parsed factors as a Factorization (fromPrimeFactors sorts them). */
  function AsFactorization(r: Result<seq<int>>): Result<F.Factorization>
  {
    match r
    case Ok(fs) => Ok(F.FromPrimeFactors(fs))
    case Err(e) => Err(e)
  }

  /** parseFactorization: the loop over the terms, then the leftover check. */
  method ParseFactorization(n: int, s: string, checkedPrimes: set<int>, isPrime: int -> bool)
    returns (r: Result<F.Factorization>, checked: set<int>)
    ensures checked == Parse(n, s, checkedPrimes, isPrime).checked
    ensures r == AsFactorization(Parse(n, s, checkedPrimes, isPrime).result)
  {
    var terms := Terms(s);
    var rest := n;
    var factors: seq<int> := [];
    var pFlag := false;
    checked := checkedPrimes;
    for i := 0 to |terms|
      invariant ScanTerms(terms[i..], rest, factors, pFlag, checked, isPrime) == Parse(n, s, checkedPrimes, isPrime)
    {
      var term := terms[i];
      assert terms[i..] == [term] + terms[i + 1..];
      if IsPTerm(term) {
        if pFlag {
          return Err(TWO_P_TERMS), checked;
        }
        pFlag := true;
      } else {
        if !Text.IsNumeral(term) {
          return Err("not a number: " + term), checked;
        }
        var p := Text.NumeralValue(term);
        if p in checked {
          assert checked + {p} == checked;
        } else {
          if isPrime(p) {
            checked := checked + {p};
          } else {
            return Err("Not prime: " + Text.IntString(p)), checked;
          }
        }
        if p == 0 {
          return Err("BigInteger divide by zero"), checked;
        }
        if rest % p != 0 {
          return Err("Does not divide " + Text.IntString(p)), checked;
        }
        rest := rest / p;
        factors := factors + [p];
      }
    }
    if rest != 1 {
      if rest !in checked {
        if isPrime(rest) {
          checked := checked + {rest};
        } else {
          return Err("Not prime: " + Text.IntString(rest)), checked;
        }
      }
      factors := factors + [rest];
    }
    r := Ok(F.FromPrimeFactors(factors));
  }

  // ------------------------------------------------------------------
  // What a successful parse guarantees
  // ------------------------------------------------------------------

  /** The factors found, times what is left of N, stay equal to N. */
  lemma {:induction false} ScanProduct(terms: seq<string>, n: int, factors: seq<int>, pFlag: bool, checked: set<int>, isPrime: int -> bool)
    ensures var o := ScanTerms(terms, n, factors, pFlag, checked, isPrime);
      o.result.Ok? ==> Common.Product(o.result.value) == Common.Product(factors) * n
    decreases |terms|
  {
    if |terms| == 0 {
      Common.ProductSnoc(factors, n);
    } else {
      var t := terms[0];
      if IsPTerm(t) {
        ScanProduct(terms[1..], n, factors, true, checked, isPrime);
      } else if Text.IsNumeral(t) {
        var p := Text.NumeralValue(t);
        if p > 0 && n % p == 0 {
          ScanProduct(terms[1..], n / p, factors + [p], pFlag, checked + {p}, isPrime);
          Common.ProductSnoc(factors, p);
          DivOfMultiple(n, p);
          MulAssoc(Common.Product(factors), p, n / p);
        }
      }
    }
  }

  lemma MulAssoc(a: int, b: int, c: int)
    ensures a * b * c == a * (b * c)
  {
  }

  /**
   * The cache only grows, and only by numbers the oracle accepted; the
   * factors found after the ones given all end up in the cache.
   */
  lemma {:induction false} ScanCache(terms: seq<string>, n: int, factors: seq<int>, pFlag: bool, checked: set<int>, isPrime: int -> bool)
    ensures CacheGrows(ScanTerms(terms, n, factors, pFlag, checked, isPrime), factors, checked, isPrime)
    decreases |terms|
  {
    if |terms| > 0 {
      var t := terms[0];
      if IsPTerm(t) {
        ScanCache(terms[1..], n, factors, true, checked, isPrime);
      } else if Text.IsNumeral(t) {
        var p := Text.NumeralValue(t);
        if p > 0 && n % p == 0 && (p in checked || isPrime(p)) {
          ScanCache(terms[1..], n / p, factors + [p], pFlag, checked + {p}, isPrime);
          var fs := ScanTerms(terms, n, factors, pFlag, checked, isPrime).result;
          if fs.Ok? {
            assert fs.value[..|factors| + 1][..|factors|] == fs.value[..|factors|];
          }
        }
      }
    }
  }

  /**
   * The cache after a scan holds the one before it and only numbers the
   * oracle accepted; a successful scan extends the factors given, with every
   * new factor in the cache.
   */
  ghost predicate CacheGrows(o: Outcome, factors: seq<int>, checked: set<int>, isPrime: int -> bool)
  {
    && checked <= o.checked
    && (forall q :: q in o.checked && q !in checked ==> isPrime(q))
    && (o.result.Ok? ==> Extends(o.result.value, factors, o.checked))
  }

  /** fs starts with factors, and every later element is in the cache. */
  ghost predicate Extends(fs: seq<int>, factors: seq<int>, checked: set<int>)
  {
    && |factors| <= |fs|
    && fs[..|factors|] == factors
    && forall k :: |factors| <= k < |fs| ==> fs[k] in checked
  }

  /** No p-term follows a first one in a successful parse. */
  lemma {:induction false} ScanPTerms(terms: seq<string>, n: int, factors: seq<int>, pFlag: bool, checked: set<int>, isPrime: int -> bool)
    requires ScanTerms(terms, n, factors, pFlag, checked, isPrime).result.Ok?
    ensures pFlag ==> forall i :: 0 <= i < |terms| ==> !IsPTerm(terms[i])
    ensures AtMostOnePTerm(terms)
    decreases |terms|
  {
    if |terms| > 0 {
      var t := terms[0];
      var p := if IsPTerm(t) then true else pFlag;
      var n' := if IsPTerm(t) then n else n / Text.NumeralValue(t);
      var factors' := if IsPTerm(t) then factors else factors + [Text.NumeralValue(t)];
      var checked' := if IsPTerm(t) then checked else checked + {Text.NumeralValue(t)};
      ScanPTerms(terms[1..], n', factors', p, checked', isPrime);
      forall i | 0 < i < |terms|
        ensures terms[i] == terms[1..][i - 1]
      {
      }
    }
  }

  /** The cache holds only numbers the oracle accepts. */
  ghost predicate Sound(checked: set<int>, isPrime: int -> bool)
  {
    forall q :: q in checked ==> isPrime(q)
  }

  /** Every factor is accepted by the primality test. */
  ghost predicate AllAccepted(fs: seq<int>, isPrime: int -> bool)
  {
    forall k :: 0 <= k < |fs| ==> isPrime(fs[k])
  }

  /** At most one of the terms is a p-term. */
  predicate AtMostOnePTerm(terms: seq<string>)
  {
    forall i, j :: 0 <= i < j < |terms| ==> !(IsPTerm(terms[i]) && IsPTerm(terms[j]))
  }

  /**
   * A successful parse of a factor list for N returns factors whose product
   * is N, every one accepted by the primality test, with at most one p-term
   * among the terms; and the cache stays sound.
   */
  lemma ParseSound(n: int, s: string, checked: set<int>, isPrime: int -> bool)
    requires Sound(checked, isPrime)
    ensures Sound(Parse(n, s, checked, isPrime).checked, isPrime)
    ensures Parse(n, s, checked, isPrime).result.Ok? ==> Common.Product(Parse(n, s, checked, isPrime).result.value) == n
    ensures Parse(n, s, checked, isPrime).result.Ok? ==> AllAccepted(Parse(n, s, checked, isPrime).result.value, isPrime)
    ensures Parse(n, s, checked, isPrime).result.Ok? ==> AtMostOnePTerm(Terms(s))
  {
    var o := ScanTerms(Terms(s), n, [], false, checked, isPrime);
    ScanProduct(Terms(s), n, [], false, checked, isPrime);
    ScanCache(Terms(s), n, [], false, checked, isPrime);
    GrownSound(o, checked, isPrime);
    assert Common.Product([]) == 1;
    if o.result.Ok? {
      ScanPTerms(Terms(s), n, [], false, checked, isPrime);
    }
  }

  /** A cache grown from a sound one stays sound, and the factors it covers are accepted. */
  lemma GrownSound(o: Outcome, checked: set<int>, isPrime: int -> bool)
    requires Sound(checked, isPrime)
    requires CacheGrows(o, [], checked, isPrime)
    ensures Sound(o.checked, isPrime)
    ensures o.result.Ok? ==> AllAccepted(o.result.value, isPrime)
  {
    if o.result.Ok? {
      var fs := o.result.value;
      forall k | 0 <= k < |fs|
        ensures isPrime(fs[k])
      {
        var q := fs[k];
        assert q in o.checked;
        if q in checked {
          assert isPrime(q);
        } else {
          assert isPrime(q);
        }
      }
    }
  }

  // ------------------------------------------------------------------
  // Printing and parsing back
  // ------------------------------------------------------------------

  /** The numerals of positive factors, scanned against their product, divide it down to 1 and give back the factors. */
  lemma {:induction false} ScanNumerals(fs: seq<int>, factors: seq<int>, pFlag: bool, checked: set<int>, isPrime: int -> bool)
    requires forall i :: 0 <= i < |fs| ==> fs[i] > 0 && (fs[i] in checked || isPrime(fs[i]))
    ensures ScanTerms(F.Numerals(fs), Common.Product(fs), factors, pFlag, checked, isPrime).result == Ok(factors + fs)
    decreases |fs|
  {
    if |fs| == 0 {
      assert factors + fs == factors;
    } else {
      var p := fs[0];
      var terms := F.Numerals(fs);
      assert terms[0] == Text.Decimal(p);
      assert terms[1..] == F.Numerals(fs[1..]);
      var m := Common.Product(fs[1..]);
      ModMultiple(p, m);
      ScanNumerals(fs[1..], factors + [p], pFlag, checked + {p}, isPrime);
      assert factors + [p] + fs[1..] == factors + fs;
    }
  }

  /** Digits are neither '*' nor whitespace, so a numeral survives splitting and stripping. */
  lemma NumeralClean(s: string)
    requires Text.IsNumeral(s)
    ensures '*' !in s && Text.Strip(s) == s
  {
    Text.StripClean(s);
  }

  /**
   * Parsing what toString prints gives the factorization back: a sorted
   * list of positive factors, each accepted by the primality test or
   * already cached, is read back exactly against its own product.
   */
  lemma ParseToString(f: F.Factorization, checked: set<int>, isPrime: int -> bool)
    requires |f.factors| > 0 && F.Sorted(f.factors) && f.composites == {}
    requires forall i :: 0 <= i < |f.factors| ==> f.factors[i] > 0 && (f.factors[i] in checked || isPrime(f.factors[i]))
    ensures AsFactorization(Parse(Common.Product(f.factors), F.ToString(f), checked, isPrime).result) == Ok(f)
  {
    TermsOfPrinted(f.factors);
    ScanNumerals(f.factors, [], false, checked, isPrime);
    assert [] + f.factors == f.factors;
    F.FromSortedFactors(f);
  }

  /** Splitting the printed list at the '*'s and stripping the pieces gives back the numerals. */
  lemma TermsOfPrinted(fs: seq<int>)
    requires |fs| > 0 && forall i :: 0 <= i < |fs| ==> fs[i] > 0
    ensures Terms(Text.Join(F.Numerals(fs), " * ")) == F.Numerals(fs)
  {
    var parts := F.Numerals(fs);
    forall i | 0 <= i < |parts|
      ensures '*' !in parts[i] && Text.Strip(parts[i]) == parts[i]
    {
      NumeralClean(parts[i]);
    }
    assert " * " == Text.Spaced('*');
    Text.SplitJoin(parts, '*');
  }

  // ------------------------------------------------------------------
  // Lines of the cache file
  // ------------------------------------------------------------------

  /** The characters the factor list of a line may hold: [0-9p* ]. */
  predicate BodyChar(c: char)
  {
    Text.IsDigit(c) || c == 'p' || c == '*' || c == ' '
  }

  predicate IsBody(s: string)
  {
    |s| > 0 && forall i :: 0 <= i < |s| ==> BodyChar(s[i])
  }

  /** How the pattern writes -target: "-" and |target| for a positive target, "+" and |target| otherwise. */
  function Shift(target: int): string
  {
    (if target > 0 then "-" else "+") + Text.Decimal(Abs(target))
  }

  /** What the pattern has before the exponent: base and '^'. */
  function Head(base: int): string
  {
    Text.IntString(base) + "^"
  }

  /** What the pattern has between the exponent and the factor list. */
  function Tail(target: int): string
  {
    Shift(target) + " = "
  }

  /** The line base^pow(-|+)|target| = body, with the exponent written as powDigits. */
  function Line(base: int, target: int, powDigits: string, body: string): string
  {
    Head(base) + powDigits + Tail(target) + body
  }

  /** The length of the run of digits s starts with. */
  function DigitRun(s: string): (k: nat)
    ensures k <= |s| && Text.AllDigits(s[..k]) && (k < |s| ==> !Text.IsDigit(s[k]))
  {
    if |s| > 0 && Text.IsDigit(s[0]) then
      var k := 1 + DigitRun(s[1..]);
      assert s[..k] == [s[0]] + s[1..][..k - 1];
      k
    else 0
  }

  /** What follows p in s, if s starts with p. */
  function After(s: string, p: string): (r: Option<string>)
    ensures r.Some? <==> |p| <= |s| && s[..|p|] == p
    ensures r.Some? ==> s == p + r.value
  {
    if |p| <= |s| && s[..|p|] == p then
      assert s == s[..|p|] + s[|p|..];
      Some(s[|p|..])
    else None
  }

  lemma AfterPrefix(p: string, s: string)
    ensures After(p + s, p) == Some(s)
  {
    assert (p + s)[..|p|] == p;
  }

  /** A line head + digits + tail + body, cut into its digits and its body. */
  function Fields(head: string, tail: string, line: string): (r: Option<(string, string)>)
    ensures r.Some? ==> Text.IsNumeral(r.value.0) && IsBody(r.value.1) && line == head + r.value.0 + tail + r.value.1
  {
    match After(line, head)
    case None => None
    case Some(rest) =>
      var k := DigitRun(rest);
      if k == 0 then None
      else
        match After(rest[k..], tail)
        case None => None
        case Some(body) =>
          if !IsBody(body) then None
          else
            assert rest == rest[..k] + rest[k..];
            Some((rest[..k], body))
  }

  /** matcher.matches() against the line pattern: the exponent's digits and the factor list, if the whole line fits. */
  function MatchLine(base: int, target: int, line: string): (r: Option<(string, string)>)
    ensures r.Some? ==> Text.IsNumeral(r.value.0) && IsBody(r.value.1) && line == Line(base, target, r.value.0, r.value.1)
  {
    Fields(Head(base), Tail(target), line)
  }

  /** Every line head + digits + tail + body, with a tail that does not start with a digit, is cut back into its parts. */
  lemma FieldsOf(head: string, tail: string, digits: string, body: string)
    requires Text.IsNumeral(digits) && IsBody(body) && |tail| > 0 && !Text.IsDigit(tail[0])
    ensures Fields(head, tail, head + digits + tail + body) == Some((digits, body))
  {
    var rest := digits + (tail + body);
    assert head + digits + tail + body == head + rest;
    AfterPrefix(head, rest);
    assert (tail + body)[0] == tail[0];
    DigitRunOf(digits, tail + body);
    assert rest[|digits|..] == tail + body;
    assert rest[..|digits|] == digits;
    AfterPrefix(tail, body);
  }

  /** Every line of the pattern's form is matched, with its own exponent digits and factor list. */
  lemma MatchLineOf(base: int, target: int, powDigits: string, body: string)
    requires Text.IsNumeral(powDigits) && IsBody(body)
    ensures MatchLine(base, target, Line(base, target, powDigits, body)) == Some((powDigits, body))
  {
    assert Tail(target)[0] == Shift(target)[0];
    FieldsOf(Head(base), Tail(target), powDigits, body);
  }

  /** A run of digits followed by a non-digit is measured exactly. */
  lemma {:induction false} DigitRunOf(d: string, s: string)
    requires Text.AllDigits(d) && (|s| == 0 || !Text.IsDigit(s[0]))
    ensures DigitRun(d + s) == |d|
    decreases |d|
  {
    if |d| > 0 {
      assert (d + s)[1..] == d[1..] + s;
      DigitRunOf(d[1..], s);
    } else {
      assert d + s == s;
    }
  }

  /** The number a line for exponent pow factors: base^pow - target. */
  function Number(base: int, target: int, pow: nat): int
  {
    Power(base, pow) - target
  }

  /** The loaded entries by exponent, and the prime cache. */
  datatype Db = Db(entries: map<int, F.Factorization>, checked: set<int>)

  /**
   * One line of initialize's loop: a line that matches the pattern and
   * whose exponent fits an int is parsed against base^pow - target; on
   * success its factorization replaces any earlier one for that exponent.
   * The cache keeps what the parse added even when the parse fails.
   */
  function LoadLine(base: int, target: int, isPrime: int -> bool, db: Db, line: string): Db
  {
    var m := MatchLine(base, target, line);
    if m.None? then db
    else
      var pow := Text.NumeralValue(m.value.0);
      if pow > INT_MAX then db
      else
        Store(db, pow, Number(base, target, pow), m.value.1, isPrime)
  }

  /** A matched line's factor list parsed against n; on success its factorization is stored under pow. */
  function Store(db: Db, pow: int, n: int, body: string, isPrime: int -> bool): Db
  {
    var o := Parse(n, body, db.checked, isPrime);
    if o.result.Ok? then Db(db.entries[pow := F.FromPrimeFactors(o.result.value)], o.checked)
    else Db(db.entries, o.checked)
  }

  /** initialize's loop over the lines, from an empty map and an empty cache. */
  function Load(base: int, target: int, isPrime: int -> bool, lines: seq<string>): Db
  {
    if |lines| == 0 then Db(map[], {})
    else LoadLine(base, target, isPrime, Load(base, target, isPrime, lines[..|lines| - 1]), lines[|lines| - 1])
  }

  /** initialize(base, target, certainty, lines): the map of factorizations by exponent. */
  method Initialize(base: int, target: int, isPrime: int -> bool, lines: seq<string>)
    returns (factorizations: map<int, F.Factorization>)
    ensures factorizations == Load(base, target, isPrime, lines).entries
  {
    factorizations := map[];
    var checkedPrimes: set<int> := {};
    for i := 0 to |lines|
      invariant Db(factorizations, checkedPrimes) == Load(base, target, isPrime, lines[..i])
    {
      assert lines[..i + 1][..i] == lines[..i];
      factorizations, checkedPrimes := ReadLine(base, target, isPrime, factorizations, checkedPrimes, lines[i]);
    }
    assert lines[..|lines|] == lines;
  }

  /** The body of initialize's loop, for one line. */
  method ReadLine(base: int, target: int, isPrime: int -> bool, entries: map<int, F.Factorization>, checkedPrimes: set<int>, line: string)
    returns (entries': map<int, F.Factorization>, checked': set<int>)
    ensures Db(entries', checked') == LoadLine(base, target, isPrime, Db(entries, checkedPrimes), line)
  {
    entries', checked' := entries, checkedPrimes;
    var m := MatchLine(base, target, line);
    if m.Some? {
      var pow := Text.NumeralValue(m.value.0);
      if pow <= INT_MAX {
        var n := Number(base, target, pow);
        entries', checked' := ParseAndStore(entries, checkedPrimes, pow, n, m.value.1, isPrime);
      }
    }
  }

  /** Parses a matched line's factor list against n and stores the result under pow. */
  method ParseAndStore(entries: map<int, F.Factorization>, checkedPrimes: set<int>, pow: int, n: int, body: string, isPrime: int -> bool)
    returns (entries': map<int, F.Factorization>, checked': set<int>)
    ensures Db(entries', checked') == Store(Db(entries, checkedPrimes), pow, n, body, isPrime)
  {
    var r;
    r, checked' := ParseFactorization(n, body, checkedPrimes, isPrime);
    entries' := if r.Ok? then entries[pow := r.value] else entries;
  }

  /** A sorted factorization of n into factors the primality test accepts. */
  ghost predicate FactorsOf(f: F.Factorization, n: int, isPrime: int -> bool)
  {
    F.Sorted(f.factors) && f.composites == {} && Common.Product(f.factors) == n && AllAccepted(f.factors, isPrime)
  }

  /** An entry of the cache: a factorization of base^pow - target, for the exponent of some line of the input. */
  ghost predicate Entry(base: int, target: int, isPrime: int -> bool, lines: seq<string>, pow: int, f: F.Factorization)
  {
    0 <= pow <= INT_MAX && FactorsOf(f, Number(base, target, pow), isPrime) &&
    exists i :: 0 <= i < |lines| && LinePow(base, target, lines[i]) == Some(pow)
  }

  /** The exponent a matching line is about. */
  function LinePow(base: int, target: int, line: string): Option<int>
  {
    match MatchLine(base, target, line)
    case None => None
    case Some((digits, _)) => Some(Text.NumeralValue(digits))
  }

  /** A sound cache of primes, and only entries from the given lines. */
  ghost predicate DbSound(base: int, target: int, isPrime: int -> bool, lines: seq<string>, db: Db)
  {
    Sound(db.checked, isPrime) && forall pow :: pow in db.entries ==> Entry(base, target, isPrime, lines, pow, db.entries[pow])
  }

  /** Every entry loaded is a correct factorization from some line, and the cache stays sound. */
  lemma {:induction false} LoadSound(base: int, target: int, isPrime: int -> bool, lines: seq<string>)
    ensures DbSound(base, target, isPrime, lines, Load(base, target, isPrime, lines))
    decreases |lines|
  {
    if |lines| > 0 {
      var init := lines[..|lines| - 1];
      LoadSound(base, target, isPrime, init);
      assert init + [lines[|lines| - 1]] == lines;
      LoadLineSound(base, target, isPrime, init, lines[|lines| - 1], Load(base, target, isPrime, init), Load(base, target, isPrime, lines));
    }
  }

  /** get(pow): the stored factorization for pow, or none (null). */
  function Get(factorizations: map<int, F.Factorization>, pow: int): Option<F.Factorization>
  {
    if pow in factorizations then Some(factorizations[pow]) else None
  }

  /**
   * What get returns from an initialized cache: either nothing, or a sorted
   * factorization of base^pow - target into accepted primes, read from a line
   * for exponent pow.
   */
  lemma GetLoaded(base: int, target: int, isPrime: int -> bool, lines: seq<string>, pow: int)
    ensures Get(Load(base, target, isPrime, lines).entries, pow).Some? ==>
      Entry(base, target, isPrime, lines, pow, Get(Load(base, target, isPrime, lines).entries, pow).value)
  {
    LoadSound(base, target, isPrime, lines);
  }

  /** One more line keeps the cache sound and adds only an entry for its own exponent. */
  lemma LoadLineSound(base: int, target: int, isPrime: int -> bool, lines: seq<string>, line: string, db: Db, db': Db)
    requires DbSound(base, target, isPrime, lines, db)
    requires db' == LoadLine(base, target, isPrime, db, line)
    ensures DbSound(base, target, isPrime, lines + [line], db')
  {
    var m := MatchLine(base, target, line);
    if m.None? || Text.NumeralValue(m.value.0) > INT_MAX {
      KeepSound(base, target, isPrime, lines, line, db);
    } else {
      var pow := Text.NumeralValue(m.value.0);
      assert LinePow(base, target, line) == Some(pow);
      var n := Number(base, target, pow);
      assert db' == Store(db, pow, n, m.value.1, isPrime);
      StoreLineSound(base, target, isPrime, lines, line, db, pow, n, m.value.1);
    }
  }

  /** A line that adds nothing keeps the cache sound. */
  lemma KeepSound(base: int, target: int, isPrime: int -> bool, lines: seq<string>, line: string, db: Db)
    requires DbSound(base, target, isPrime, lines, db)
    ensures DbSound(base, target, isPrime, lines + [line], db)
  {
    forall q | q in db.entries
      ensures Entry(base, target, isPrime, lines + [line], q, db.entries[q])
    {
      EntryGrows(base, target, isPrime, lines, line, q, db.entries[q]);
    }
  }

  /** A line for exponent pow whose factor list is parsed and stored keeps the cache sound. */
  lemma StoreLineSound(base: int, target: int, isPrime: int -> bool, lines: seq<string>, line: string, db: Db, pow: int, n: int, body: string)
    requires DbSound(base, target, isPrime, lines, db)
    requires 0 <= pow <= INT_MAX && LinePow(base, target, line) == Some(pow) && n == Number(base, target, pow)
    ensures DbSound(base, target, isPrime, lines + [line], Store(db, pow, n, body, isPrime))
  {
    var lines' := lines + [line];
    var db' := Store(db, pow, n, body, isPrime);
    StoreSound(db, pow, n, body, isPrime);
    forall q | q in db'.entries
      ensures Entry(base, target, isPrime, lines', q, db'.entries[q])
    {
      if q in db.entries && db'.entries[q] == db.entries[q] {
        EntryGrows(base, target, isPrime, lines, line, q, db.entries[q]);
      } else {
        assert lines'[|lines|] == line;
      }
    }
  }

  /** An entry stays an entry when lines are added. */
  lemma EntryGrows(base: int, target: int, isPrime: int -> bool, lines: seq<string>, line: string, pow: int, f: F.Factorization)
    requires Entry(base, target, isPrime, lines, pow, f)
    ensures Entry(base, target, isPrime, lines + [line], pow, f)
  {
    var i :| 0 <= i < |lines| && LinePow(base, target, lines[i]) == Some(pow);
    assert (lines + [line])[i] == lines[i];
  }

  /** Storing a parse keeps the cache sound; the entry it changes, if any, factors n. */
  lemma StoreSound(db: Db, pow: int, n: int, body: string, isPrime: int -> bool)
    requires Sound(db.checked, isPrime)
    ensures Sound(Store(db, pow, n, body, isPrime).checked, isPrime)
    ensures forall q :: q in Store(db, pow, n, body, isPrime).entries && q != pow ==>
      q in db.entries && Store(db, pow, n, body, isPrime).entries[q] == db.entries[q]
    ensures pow in Store(db, pow, n, body, isPrime).entries ==>
      (pow in db.entries && Store(db, pow, n, body, isPrime).entries[pow] == db.entries[pow]) ||
      FactorsOf(Store(db, pow, n, body, isPrime).entries[pow], n, isPrime)
  {
    ParseSound(n, body, db.checked, isPrime);
    var o := Parse(n, body, db.checked, isPrime);
    if o.result.Ok? {
      var f := F.FromPrimeFactors(o.result.value);
      forall k | 0 <= k < |f.factors|
        ensures isPrime(f.factors[k])
      {
        assert f.factors[k] in multiset(o.result.value);
      }
    }
  }

  /** A line never removes an entry: one that fails to parse leaves every earlier entry in place. */
  lemma LoadKeeps(base: int, target: int, isPrime: int -> bool, lines: seq<string>, line: string)
    ensures Load(base, target, isPrime, lines).entries.Keys <= Load(base, target, isPrime, lines + [line]).entries.Keys
  {
    assert (lines + [line])[..|lines|] == lines;
  }

  /**
   * A cache line printed from a factorization is read back into that
   * factorization: the line base^pow(-|+)|target| = toString(f), for a
   * sorted factorization of base^pow - target into positive factors that
   * the primality test accepts, loads f under pow.
   */
  lemma LoadPrinted(base: int, target: int, isPrime: int -> bool, lines: seq<string>, pow: nat, f: F.Factorization)
    requires pow <= INT_MAX && |f.factors| > 0 && F.Sorted(f.factors) && f.composites == {}
    requires Common.Product(f.factors) == Number(base, target, pow)
    requires forall i :: 0 <= i < |f.factors| ==> f.factors[i] > 0 && isPrime(f.factors[i])
    ensures var line := Line(base, target, Text.Decimal(pow), F.ToString(f));
      Load(base, target, isPrime, lines + [line]).entries == Load(base, target, isPrime, lines).entries[pow := f]
  {
    var body := F.ToString(f);
    var line := Line(base, target, Text.Decimal(pow), body);
    assert (lines + [line])[..|lines|] == lines;
    PrintedBody(f);
    MatchLineOf(base, target, Text.Decimal(pow), body);
    ParseToString(f, Load(base, target, isPrime, lines).checked, isPrime);
  }

  /** toString of positive factors only uses the characters a cache line allows. */
  lemma PrintedBody(f: F.Factorization)
    requires |f.factors| > 0 && forall i :: 0 <= i < |f.factors| ==> f.factors[i] > 0
    ensures IsBody(F.ToString(f))
  {
    JoinBody(F.Numerals(f.factors));
  }

  lemma {:induction false} JoinBody(parts: seq<string>)
    requires |parts| > 0 && forall i :: 0 <= i < |parts| ==> Text.IsNumeral(parts[i])
    ensures IsBody(Text.Join(parts, " * "))
    decreases |parts|
  {
    if |parts| > 1 {
      JoinBody(parts[1..]);
      var s := Text.Join(parts, " * ");
      var t := Text.Join(parts[1..], " * ");
      assert s == parts[0] + " * " + t;
      forall i | 0 <= i < |s|
        ensures BodyChar(s[i])
      {
        if i < |parts[0]| {
          assert s[i] == parts[0][i];
        } else if i >= |parts[0]| + 3 {
          assert s[i] == t[i - |parts[0]| - 3];
        }
      }
    }
  }
}
