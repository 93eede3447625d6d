/**
 * The string handling the factorization cache and the printers rely on:
 * decimal numerals as BigInteger prints and parses them, String.split on a
 * single separator character (trailing empty pieces dropped), String.strip,
 * and joining with a separator as a StringBuilder loop does.
 */
module Text {

  predicate IsDigit(c: char)
  {
    '0' <= c <= '9'
  }

  /** Only digits: what an unsigned numeral is made of. */
  predicate AllDigits(s: string)
  {
    forall i :: 0 <= i < |s| ==> IsDigit(s[i])
  }

  /** A non-empty run of decimal digits: an unsigned numeral, leading zeros allowed. */
  predicate IsNumeral(s: string)
  {
    |s| > 0 && AllDigits(s)
  }

  function DigitValue(c: char): nat
    requires IsDigit(c)
  {
    c as int - '0' as int
  }

  function DigitChar(d: nat): (c: char)
    requires d < 10
    ensures IsDigit(c) && DigitValue(c) == d
  {
    ('0' as int + d) as char
  }

  /** The value of a run of digits, most significant digit first. */
  function NumeralValue(s: string): nat
    requires AllDigits(s)
  {
    if |s| == 0 then 0 else NumeralValue(s[..|s| - 1]) * 10 + DigitValue(s[|s| - 1])
  }

  /** How BigInteger prints n >= 0: its decimal digits, with no leading zero. */
  function Decimal(n: nat): (r: string)
    ensures IsNumeral(r) && NumeralValue(r) == n
    ensures n > 0 ==> r[0] != '0'
  {
    if n < 10 then
      [DigitChar(n)]
    else
      var r := Decimal(n / 10) + [DigitChar(n % 10)];
      assert r[..|r| - 1] == Decimal(n / 10);
      r
  }

  /** How BigInteger prints any n: a minus sign before the digits of a negative value. */
  function IntString(n: int): string
  {
    if n < 0 then "-" + Decimal(-n) else Decimal(n)
  }

  // ------------------------------------------------------------------
  // strip()
  // ------------------------------------------------------------------

  /** The ASCII characters Character.isWhitespace accepts. */
  predicate IsWhitespace(c: char)
  {
    c == ' ' || 9 <= c as int <= 13 || 28 <= c as int <= 31
  }

  /** s without its leading whitespace. */
  function TrimStart(s: string): string
  {
    if |s| > 0 && IsWhitespace(s[0]) then TrimStart(s[1..]) else s
  }

  /** s without its trailing whitespace. */
  function TrimEnd(s: string): string
  {
    if |s| > 0 && IsWhitespace(s[|s| - 1]) then TrimEnd(s[..|s| - 1]) else s
  }

  /** String.strip: s without whitespace at either end. */
  function Strip(s: string): string
  {
    TrimEnd(TrimStart(s))
  }

  /** Trimming the front drops exactly the leading whitespace. */
  lemma {:induction false} TrimStartMeaning(s: string)
    ensures var r := TrimStart(s);
      |r| <= |s| && r == s[|s| - |r|..] &&
      (forall i :: 0 <= i < |s| - |r| ==> IsWhitespace(s[i])) &&
      (r == [] || !IsWhitespace(r[0]))
    decreases |s|
  {
    if |s| > 0 && IsWhitespace(s[0]) {
      TrimStartMeaning(s[1..]);
    }
  }

  /** Trimming the back drops exactly the trailing whitespace. */
  lemma {:induction false} TrimEndMeaning(s: string)
    ensures var r := TrimEnd(s);
      |r| <= |s| && r == s[..|r|] &&
      (forall i :: |r| <= i < |s| ==> IsWhitespace(s[i])) &&
      (r == [] || !IsWhitespace(r[|r| - 1]))
    decreases |s|
  {
    if |s| > 0 && IsWhitespace(s[|s| - 1]) {
      TrimEndMeaning(s[..|s| - 1]);
    }
  }

  /** strip keeps the middle s[i..j] of s, cutting off whitespace only, and leaves no whitespace at either end. */
  lemma StripMeaning(s: string) returns (i: nat, j: nat)
    ensures i <= j <= |s| && Strip(s) == s[i..j]
    ensures forall k :: 0 <= k < i || j <= k < |s| ==> IsWhitespace(s[k])
    ensures Strip(s) == [] || (!IsWhitespace(Strip(s)[0]) && !IsWhitespace(Strip(s)[|Strip(s)| - 1]))
  {
    var t := TrimStart(s);
    TrimStartMeaning(s);
    TrimEndMeaning(t);
    i := |s| - |t|;
    j := i + |TrimEnd(t)|;
    assert t[..|TrimEnd(t)|] == s[i..j];
    forall k | j <= k < |s|
      ensures IsWhitespace(s[k])
    {
      assert s[k] == t[k - i];
    }
  }

  /** Stripping leaves alone a string with no whitespace at either end. */
  lemma StripClean(s: string)
    requires s == [] || (!IsWhitespace(s[0]) && !IsWhitespace(s[|s| - 1]))
    ensures Strip(s) == s
  {
  }

  /** Whitespace in front does not survive stripping. */
  lemma {:induction false} StripCons(c: char, s: string)
    requires IsWhitespace(c)
    ensures Strip([c] + s) == Strip(s)
  {
    assert ([c] + s)[1..] == s;
  }

  /** Whitespace behind does not survive stripping. */
  lemma {:induction false} StripSnoc(s: string, c: char)
    requires IsWhitespace(c)
    ensures Strip(s + [c]) == Strip(s)
    decreases |s|
  {
    if |s| > 0 && IsWhitespace(s[0]) {
      assert (s + [c])[1..] == s[1..] + [c];
      StripSnoc(s[1..], c);
    } else if s == [] {
      assert s + [c] == [c] && [c][1..] == [];
      assert TrimStart([c]) == [] && Strip(s) == [];
    } else {
      assert TrimStart(s + [c]) == s + [c];
      assert (s + [c])[..|s|] == s;
      assert TrimEnd(s + [c]) == TrimEnd(s);
      assert TrimStart(s) == s;
    }
  }

  // ------------------------------------------------------------------
  // split() on one character, and joining
  // ------------------------------------------------------------------

  /** s cut at every occurrence of sep, empty pieces kept. */
  function Fields(s: string, sep: char): (r: seq<string>)
    ensures |r| >= 1
    decreases |s|
  {
    if |s| == 0 then [""]
    else
      var rest := Fields(s[1..], sep);
      if s[0] == sep then [""] + rest else [[s[0]] + rest[0]] + rest[1..]
  }

  /** fs without its trailing empty strings. */
  function DropTrailingEmpty(fs: seq<string>): (r: seq<string>)
    ensures |r| <= |fs| && r == fs[..|r|]
    ensures r == [] || r[|r| - 1] != ""
    ensures forall i :: |r| <= i < |fs| ==> fs[i] == ""
  {
    if |fs| == 0 then []
    else if fs[|fs| - 1] == "" then DropTrailingEmpty(fs[..|fs| - 1])
    else fs
  }

  /** String.split with a one-character pattern: s itself when sep does not occur, else the pieces with trailing empty ones dropped. */
  function Split(s: string, sep: char): seq<string>
  {
    if sep !in s then [s] else DropTrailingEmpty(Fields(s, sep))
  }

  /** The pieces of parts, with sep between every two neighbours. */
  function Join(parts: seq<string>, sep: string): string
  {
    if |parts| == 0 then ""
    else if |parts| == 1 then parts[0]
    else parts[0] + sep + Join(parts[1..], sep)
  }

  /** Strip applied to every piece. */
  function StripAll(parts: seq<string>): (r: seq<string>)
    ensures |r| == |parts| && forall i :: 0 <= i < |r| ==> r[i] == Strip(parts[i])
  {
    seq(|parts|, i requires 0 <= i < |parts| => Strip(parts[i]))
  }

  /** Cutting at sep loses nothing: joining the pieces back with sep restores s, and no piece holds sep. */
  lemma {:induction false} FieldsJoin(s: string, sep: char)
    ensures Join(Fields(s, sep), [sep]) == s
    ensures forall i :: 0 <= i < |Fields(s, sep)| ==> sep !in Fields(s, sep)[i]
    decreases |s|
  {
    if |s| > 0 {
      var rest := Fields(s[1..], sep);
      FieldsJoin(s[1..], sep);
      assert s == [s[0]] + s[1..];
      if s[0] == sep {
        assert ([""] + rest)[1..] == rest;
      } else {
        var fs := [[s[0]] + rest[0]] + rest[1..];
        if |rest| == 1 {
          assert Join(fs, [sep]) == [s[0]] + rest[0];
        } else {
          assert fs[1..] == rest[1..];
          assert Join(rest, [sep]) == rest[0] + [sep] + Join(rest[1..], [sep]);
        }
        forall i | 0 <= i < |fs|
          ensures sep !in fs[i]
        {
          if i > 0 {
            assert fs[i] == rest[i];
          }
        }
      }
    }
  }

  /** A string without sep is one piece. */
  lemma {:induction false} FieldsWhole(s: string, sep: char)
    requires sep !in s
    ensures Fields(s, sep) == [s]
    decreases |s|
  {
    if |s| > 0 {
      assert sep !in s[1..] by {
        assert forall c :: c in s[1..] ==> c in s;
      }
      FieldsWhole(s[1..], sep);
      assert s == [s[0]] + s[1..];
    }
  }

  /** A separator between a and b cuts exactly there. */
  lemma {:induction false} FieldsAt(a: string, b: string, sep: char)
    ensures Fields(a + [sep] + b, sep) == Fields(a, sep) + Fields(b, sep)
    decreases |a|
  {
    var s := a + [sep] + b;
    if |a| == 0 {
      assert s == [sep] + b && s[1..] == b;
    } else {
      assert s[1..] == a[1..] + [sep] + b;
      FieldsAt(a[1..], b, sep);
    }
  }

  /** Joining p0 to more pieces with " " + sep + " " cuts into p0 + " ", then the pieces of the rest with a blank in front of the first. */
  lemma FieldsPadded(p0: string, rest: string, sep: char)
    requires sep != ' ' && sep !in p0
    ensures var tail := Fields(rest, sep);
      Fields(p0 + Spaced(sep) + rest, sep) == [p0 + [' ']] + [[' '] + tail[0]] + tail[1..]
  {
    assert p0 + Spaced(sep) + rest == (p0 + [' ']) + [sep] + ([' '] + rest);
    FieldsAt(p0 + [' '], [' '] + rest, sep);
    assert sep !in p0 + [' '];
    FieldsWhole(p0 + [' '], sep);
    assert ([' '] + rest)[1..] == rest;
  }

  /** The separator " " + sep + " ". */
  function Spaced(sep: char): string
  {
    [' ', sep, ' ']
  }

  /** Pieces that join and split back unchanged: no separator inside, no whitespace at their ends. */
  predicate Joinable(parts: seq<string>, sep: char)
  {
    forall i :: 0 <= i < |parts| ==> sep !in parts[i] && Strip(parts[i]) == parts[i]
  }

  /** Stripping every piece of fs gives parts. */
  predicate StripsTo(fs: seq<string>, parts: seq<string>)
  {
    |fs| == |parts| && forall i :: 0 <= i < |parts| ==> Strip(fs[i]) == parts[i]
  }

  /** Joining with " " + sep + " " and cutting at sep gives the pieces back, padded with blanks that strip removes. */
  lemma {:induction false} StripFieldsJoin(parts: seq<string>, sep: char)
    requires |parts| >= 1 && sep != ' ' && Joinable(parts, sep)
    ensures StripsTo(Fields(Join(parts, Spaced(sep)), sep), parts)
    decreases |parts|
  {
    var fs := Fields(Join(parts, Spaced(sep)), sep);
    if |parts| == 1 {
      assert sep !in parts[0] && Strip(parts[0]) == parts[0];
      FieldsWhole(parts[0], sep);
      assert fs == [parts[0]];
      assert StripsTo(fs, parts);
    } else {
      var rest := Join(parts[1..], Spaced(sep));
      var tail := Fields(rest, sep);
      JoinableTail(parts, sep);
      FieldsPadded(parts[0], rest, sep);
      StripFieldsJoin(parts[1..], sep);
      StripSnoc(parts[0], ' ');
      StripCons(' ', tail[0]);
      StripsToCons(parts[0] + [' '], [' '] + tail[0], tail, parts[0], parts[1..]);
      assert parts == [parts[0]] + parts[1..];
    }
  }

  /** The head of joinable pieces is clean, and so are the others. */
  lemma JoinableTail(parts: seq<string>, sep: char)
    requires |parts| >= 1 && Joinable(parts, sep)
    ensures sep !in parts[0] && Strip(parts[0]) == parts[0] && Joinable(parts[1..], sep)
  {
    forall i | 0 <= i < |parts| - 1
      ensures sep !in parts[1..][i] && Strip(parts[1..][i]) == parts[1..][i]
    {
      assert parts[1..][i] == parts[i + 1];
    }
  }

  /** Stripping piece-wise extends to one more piece in front, with the first piece of the rest replaced. */
  lemma StripsToCons(a: string, b: string, tail: seq<string>, p0: string, ps: seq<string>)
    requires StripsTo(tail, ps) && |tail| >= 1 && Strip(a) == p0 && Strip(b) == ps[0]
    ensures StripsTo([a] + [b] + tail[1..], [p0] + ps)
  {
    var fs := [a] + [b] + tail[1..];
    forall i | 0 <= i < |fs|
      ensures Strip(fs[i]) == ([p0] + ps)[i]
    {
      if i > 1 {
        assert fs[i] == tail[i - 1];
      }
    }
  }

  /** Splitting a join on sep and stripping every piece gives back the pieces, when the last one is not blank. */
  lemma SplitJoin(parts: seq<string>, sep: char)
    requires |parts| >= 1 && sep != ' ' && parts[|parts| - 1] != "" && Joinable(parts, sep)
    ensures StripAll(Split(Join(parts, Spaced(sep)), sep)) == parts
  {
    var s := Join(parts, Spaced(sep));
    StripFieldsJoin(parts, sep);
    var fs := Fields(s, sep);
    var last := |parts| - 1;
    assert |fs| == |parts| && Strip(fs[last]) == parts[last];
    assert fs[last] != "" by {
      assert Strip("") == "";
    }
    if sep !in s {
      FieldsWhole(s, sep);
    }
    assert Split(s, sep) == fs;
  }
}
