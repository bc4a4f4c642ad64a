/**
  The small string utilities the transport relies on: the argv join and
  split of the PMIx utility library, C's `atoi`, `isalpha`, `strncmp`-prefix
  tests and `sprintf("%d")`.
*/
module Strings {

  /** The elements of `xs` separated by `sep`; no elements give "" (as the argv join does for NULL). */
  function Join(xs: seq<string>, sep: char): string
  {
    if |xs| == 0 then "" else if |xs| == 1 then xs[0] else xs[0] + [sep] + Join(xs[1..], sep)
  }

  /** Position of the first `c` in `s`, or |s| when there is none (C's strchr). */
  function IndexOf(s: string, c: char): (k: nat)
    ensures k <= |s|
    ensures k < |s| ==> s[k] == c
    ensures forall i :: 0 <= i < k ==> s[i] != c
  {
    if |s| == 0 then 0 else if s[0] == c then 0 else 1 + IndexOf(s[1..], c)
  }

  /** The argv split: the maximal runs between separators, with empty runs dropped. */
  function Split(s: string, sep: char): seq<string>
    decreases |s|
  {
    var k := IndexOf(s, sep);
    var rest := if k < |s| then Split(s[k + 1..], sep) else [];
    if k == 0 then rest else [s[..k]] + rest
  }

  /** Split never yields an empty token or one holding the separator. */
  lemma {:induction false} SplitTokens(s: string, sep: char)
    ensures forall t :: t in Split(s, sep) ==> t != "" && sep !in t
    decreases |s|
  {
    var k := IndexOf(s, sep);
    if k < |s| {
      SplitTokens(s[k + 1..], sep);
    }
  }

  /** Split undoes Join for tokens that are non-empty and free of the separator. */
  lemma {:induction false} SplitJoin(xs: seq<string>, sep: char)
    requires forall i :: 0 <= i < |xs| ==> xs[i] != "" && sep !in xs[i]
    ensures Split(Join(xs, sep), sep) == xs
  {
    if |xs| == 0 {
    } else if |xs| == 1 {
      var s := xs[0];
      assert sep !in s;
      assert IndexOf(s, sep) == |s|;
      assert s[..|s|] == s;
    } else {
      var s := Join(xs, sep);
      var x := xs[0];
      assert s == x + [sep] + Join(xs[1..], sep);
      IndexOfPrefix(x, sep, Join(xs[1..], sep));
      assert IndexOf(s, sep) == |x|;
      assert s[..|x|] == x;
      assert s[|x| + 1..] == Join(xs[1..], sep);
      SplitJoin(xs[1..], sep);
    }
  }

  lemma {:induction false} IndexOfPrefix(x: string, sep: char, rest: string)
    requires sep !in x
    ensures IndexOf(x + [sep] + rest, sep) == |x|
  {
    var s := x + [sep] + rest;
    assert forall i :: 0 <= i < |x| ==> s[i] == x[i] && s[i] in x;
    assert s[|x|] == sep;
  }

  /** C's isalpha in the "C" locale. */
  predicate IsAlpha(c: char) {
    ('a' <= c <= 'z') || ('A' <= c <= 'Z')
  }

  predicate IsDigit(c: char) {
    '0' <= c <= '9'
  }

  /** C's isspace in the "C" locale. */
  predicate IsSpace(c: char) {
    c == ' ' || c == '\t' || c == '\n' || c == '\r' || c == '\U{000B}' || c == '\U{000C}'
  }

  /** `strncmp(s, p, |p|) == 0` for a NUL-free prefix `p`. */
  predicate StartsWith(s: string, p: string) {
    |p| <= |s| && s[..|p|] == p
  }

  /** The leading run of decimal digits of `s`. */
  function LeadingDigits(s: string): (d: string)
    ensures |d| <= |s| && d == s[..|d|]
    ensures forall i :: 0 <= i < |d| ==> IsDigit(d[i])
    ensures |d| < |s| ==> !IsDigit(s[|d|])
  {
    if |s| > 0 && IsDigit(s[0]) then [s[0]] + LeadingDigits(s[1..]) else ""
  }

  /** The value of a string of decimal digits, most significant first. */
  function DigitsValue(d: string): nat
    requires forall i :: 0 <= i < |d| ==> IsDigit(d[i])
  {
    if |d| == 0 then 0
    else
      var last := d[|d| - 1];
      assert IsDigit(last);
      10 * DigitsValue(d[..|d| - 1]) + (last as int - '0' as int)
  }

  function SkipSpaces(s: string): (t: string)
    ensures |t| <= |s| && t == s[|s| - |t|..]
    ensures |t| > 0 ==> !IsSpace(t[0])
  {
    if |s| > 0 && IsSpace(s[0]) then SkipSpaces(s[1..]) else s
  }

  /** C's atoi: leading white space, an optional sign, then the leading decimal digits. */
  function Atoi(s: string): int
  {
    var t := SkipSpaces(s);
    if |t| > 0 && t[0] == '-' then -(DigitsValue(LeadingDigits(t[1..])) as int)
    else if |t| > 0 && t[0] == '+' then DigitsValue(LeadingDigits(t[1..]))
    else DigitsValue(LeadingDigits(t))
  }

  function DigitChar(d: nat): (c: char)
    requires d < 10
    ensures IsDigit(c) && c as int - '0' as int == d
  {
    ('0' as int + d) as char
  }

  /** `sprintf("%u")` of a natural number. */
  function NatToDecimal(n: nat): (s: string)
    ensures |s| > 0 && (forall i :: 0 <= i < |s| ==> IsDigit(s[i]))
    ensures |s| > 1 ==> s[0] != '0'
  {
    if n < 10 then [DigitChar(n)] else NatToDecimal(n / 10) + [DigitChar(n % 10)]
  }

  /** `sprintf("%d")` of an integer. */
  function IntToDecimal(n: int): string
  {
    if n < 0 then "-" + NatToDecimal(-n) else NatToDecimal(n)
  }

  lemma {:induction false} DigitsValueOfDecimal(n: nat)
    ensures DigitsValue(NatToDecimal(n)) == n
  {
    var s := NatToDecimal(n);
    if n >= 10 {
      DigitsValueOfDecimal(n / 10);
      assert s[..|s| - 1] == NatToDecimal(n / 10);
    }
  }

  lemma {:induction false} LeadingDigitsAll(s: string)
    requires forall i :: 0 <= i < |s| ==> IsDigit(s[i])
    ensures LeadingDigits(s) == s
  {
    if |s| > 0 {
      LeadingDigitsAll(s[1..]);
    }
  }

  lemma AtoiOfDigits(d: string)
    requires |d| > 0 && forall i :: 0 <= i < |d| ==> IsDigit(d[i])
    ensures Atoi(d) == DigitsValue(d)
  {
    var c := d[0];
    assert IsDigit(c);
    assert !IsSpace(c) && c != '-' && c != '+';
    assert SkipSpaces(d) == d;
    LeadingDigitsAll(d);
  }

  lemma AtoiOfNegDigits(d: string)
    requires |d| > 0 && forall i :: 0 <= i < |d| ==> IsDigit(d[i])
    ensures Atoi("-" + d) == -(DigitsValue(d) as int)
  {
    var s := "-" + d;
    assert !IsSpace(s[0]);
    assert SkipSpaces(s) == s;
    assert s[0] == '-';
    assert s[1..] == d;
    LeadingDigitsAll(d);
    assert Atoi(s) == -(DigitsValue(LeadingDigits(d)) as int);
  }

  /** atoi reads back what "%d" printed: the decimal form of a mask round-trips. */
  lemma AtoiIntToDecimal(n: int)
    ensures Atoi(IntToDecimal(n)) == n
  {
    if n < 0 {
      var d := NatToDecimal(-n);
      assert IntToDecimal(n) == "-" + d;
      AtoiOfNegDigits(d);
      DigitsValueOfDecimal(-n);
    } else {
      var d := NatToDecimal(n);
      assert IntToDecimal(n) == d;
      AtoiOfDigits(d);
      DigitsValueOfDecimal(n);
    }
  }
}
