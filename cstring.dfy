/**
 * The C library's `atoi`, as `getInternalPropertyInt` uses it: leading
 * white space is skipped, one optional sign is read, then the longest run of
 * decimal digits; anything else yields 0. The result is an unbounded integer.
 */
module CString {

  /** `isspace` in the C locale: space, and tab through carriage return. */
  predicate IsSpace(c: char) {
    c == ' ' || ('\t' <= c <= '\r')
  }

  predicate IsDigit(c: char) {
    '0' <= c <= '9'
  }

  predicate AllDigits(s: string) {
    forall i :: 0 <= i < |s| ==> IsDigit(s[i])
  }

  predicate AllSpaces(s: string) {
    forall i :: 0 <= i < |s| ==> IsSpace(s[i])
  }

  function DigitValue(c: char): (d: nat)
    requires IsDigit(c)
    ensures d < 10
  {
    (c as int - '0' as int) as nat
  }

  function DigitChar(d: nat): (c: char)
    requires d < 10
    ensures IsDigit(c) && DigitValue(c) == d
  {
    ('0' as int + d) as char
  }

  /** What is left once the leading white space is skipped. */
  function SkipSpaces(s: string): (r: string)
    ensures |r| <= |s| && r == s[|s| - |r|..]
    ensures AllSpaces(s[..|s| - |r|])
    ensures r == [] || !IsSpace(r[0])
  {
    if s != [] && IsSpace(s[0]) then SkipSpaces(s[1..]) else s
  }

  /** The longest prefix of `s` made of decimal digits. */
  function DigitRun(s: string): (r: string)
    ensures |r| <= |s| && r == s[..|r|]
    ensures AllDigits(r)
    ensures |r| == |s| || !IsDigit(s[|r|])
  {
    if s != [] && IsDigit(s[0]) then [s[0]] + DigitRun(s[1..]) else []
  }

  /** The number a string of decimal digits denotes, most significant first. */
  function DigitsValue(d: string): nat
    requires AllDigits(d)
  {
    if d == [] then 0 else DigitsValue(d[..|d| - 1]) * 10 + DigitValue(d[|d| - 1])
  }

  function Atoi(s: string): int {
    SignedValue(SkipSpaces(s))
  }

  /** An optional sign, then the longest run of digits; no digits read as 0. */
  function SignedValue(t: string): int {
    if t != [] && t[0] == '-' then -(DigitsValue(DigitRun(t[1..])) as int)
    else if t != [] && t[0] == '+' then DigitsValue(DigitRun(t[1..]))
    else DigitsValue(DigitRun(t))
  }

  /** Decimal rendering of a natural number, without leading zeros. */
  function FormatNat(n: nat): (s: string)
    ensures s != [] && AllDigits(s)
  {
    if n < 10 then [DigitChar(n)] else FormatNat(n / 10) + [DigitChar(n % 10)]
  }

  /** Decimal rendering of an integer, as `printf("%d")` writes it. */
  function FormatInt(n: int): (s: string)
    ensures s != [] && (s[0] == '-' || IsDigit(s[0]))
  {
    if n < 0 then "-" + FormatNat(-n) else FormatNat(n)
  }

  lemma {:induction false} DigitsValueOfFormat(n: nat)
    ensures DigitsValue(FormatNat(n)) == n
  {
    if n >= 10 {
      var s := FormatNat(n);
      assert s[..|s| - 1] == FormatNat(n / 10);
      DigitsValueOfFormat(n / 10);
    }
  }

  /** A digit run stops exactly at the first character that is not a digit. */
  lemma {:induction false} DigitRunOfDigits(d: string, rest: string)
    requires AllDigits(d)
    requires rest == [] || !IsDigit(rest[0])
    ensures DigitRun(d + rest) == d
  {
    if d != [] {
      assert (d + rest)[1..] == d[1..] + rest;
      DigitRunOfDigits(d[1..], rest);
    }
  }

  lemma {:induction false} SkipSpacesPrefix(ws: string, s: string)
    requires AllSpaces(ws)
    requires s == [] || !IsSpace(s[0])
    ensures SkipSpaces(ws + s) == s
  {
    if ws != [] {
      assert (ws + s)[1..] == ws[1..] + s;
      SkipSpacesPrefix(ws[1..], s);
    }
  }

  /**
   * `atoi` reads back what `%d` writes, whatever white space precedes it and
   * whatever non-digit text follows it.
   */
  lemma AtoiFormatInt(ws: string, n: int, rest: string)
    requires AllSpaces(ws)
    requires rest == [] || !IsDigit(rest[0])
    ensures Atoi(ws + FormatInt(n) + rest) == n
  {
    var t := FormatInt(n) + rest;
    assert ws + FormatInt(n) + rest == ws + t;
    SkipSpacesPrefix(ws, t);
    SignedFormatInt(n, rest);
  }

  /** `atoi` reads back what `%d` writes. */
  lemma AtoiOfFormat(n: int)
    ensures Atoi(FormatInt(n)) == n
  {
    var s := FormatInt(n);
    assert SkipSpaces(s) == s;
    assert s + "" == s;
    SignedFormatInt(n, "");
  }

  lemma SignedFormatInt(n: int, rest: string)
    requires rest == [] || !IsDigit(rest[0])
    ensures SignedValue(FormatInt(n) + rest) == n
  {
    if n < 0 {
      assert FormatInt(n) + rest == "-" + FormatNat(-n) + rest;
      SignedNegativeDigits(FormatNat(-n), rest);
      DigitsValueOfFormat(-n);
    } else {
      SignedDigits(FormatNat(n), rest);
      DigitsValueOfFormat(n);
    }
  }

  lemma SignedDigits(d: string, rest: string)
    requires d != [] && AllDigits(d)
    requires rest == [] || !IsDigit(rest[0])
    ensures SignedValue(d + rest) == DigitsValue(d)
  {
    var t := d + rest;
    assert IsDigit(t[0]);
    DigitRunOfDigits(d, rest);
  }

  lemma SignedNegativeDigits(d: string, rest: string)
    requires AllDigits(d)
    requires rest == [] || !IsDigit(rest[0])
    ensures SignedValue("-" + d + rest) == -(DigitsValue(d) as int)
  {
    var t := "-" + d + rest;
    assert t[1..] == d + rest;
    DigitRunOfDigits(d, rest);
  }

  /** A string whose first non-blank character is neither a sign nor a digit reads as 0. */
  lemma AtoiNonNumeric(s: string)
    requires var t := SkipSpaces(s); t == [] || (t[0] != '-' && t[0] != '+' && !IsDigit(t[0]))
    ensures Atoi(s) == 0
  {
  }
}
