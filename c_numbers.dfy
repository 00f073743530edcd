/**
 * The C and C++ library number handling the exercises rely on: std::isdigit,
 * std::isspace, std::stoi, and decimal digit strings.
 */
module CNumbers {
  import opened Wrappers

  const INT_MAX: int := 2147483647
  const INT_MIN: int := -2147483648

  /** std::isdigit in the "C" locale. */
  predicate IsDigit(c: char) {
    '0' <= c <= '9'
  }

  /** std::isspace in the "C" locale: space, tab, newline, vertical tab, form feed, carriage return. */
  predicate IsSpace(c: char) {
    c == ' ' || c == '\t' || c == '\n' || c == '\U{0B}' || c == '\U{0C}' || c == '\r'
  }

  predicate AllDigits(s: string) {
    forall k :: 0 <= k < |s| ==> IsDigit(s[k])
  }

  function DigitValue(c: char): (d: nat)
    requires IsDigit(c)
    ensures d < 10
  {
    c as int - '0' as int
  }

  function DigitChar(d: nat): (c: char)
    requires d < 10
    ensures IsDigit(c) && DigitValue(c) == d
  {
    ('0' as int + d) as char
  }

  /** The value of a string of decimal digits (leading zeros allowed). */
  function DigitsValue(s: string): nat
    requires AllDigits(s)
  {
    if s == [] then 0 else 10 * DigitsValue(s[..|s| - 1]) + DigitValue(s[|s| - 1])
  }

  function Pow10(w: nat): (p: nat)
    ensures p >= 1
  {
    if w == 0 then 1 else 10 * Pow10(w - 1)
  }

  /** `n` written with exactly `w` decimal digits, zero-padded on the left (the last `w` digits of `n`). */
  function Pad(n: nat, w: nat): (s: string)
    ensures |s| == w && AllDigits(s)
  {
    if w == 0 then [] else Pad(n / 10, w - 1) + [DigitChar(n % 10)]
  }

  /** Padding is undone by reading the digits back, when `n` fits in `w` digits. */
  lemma {:induction false} PadValue(n: nat, w: nat)
    requires n < Pow10(w)
    ensures DigitsValue(Pad(n, w)) == n
  {
    if w > 0 {
      var s := Pad(n, w);
      assert s[..w - 1] == Pad(n / 10, w - 1);
      PadValue(n / 10, w - 1);
    }
  }

  /** The number of leading white-space characters. */
  function LeadingSpaces(s: string): (n: nat)
    ensures n <= |s|
    ensures forall k :: 0 <= k < n ==> IsSpace(s[k])
    ensures n < |s| ==> !IsSpace(s[n])
  {
    if s == [] || !IsSpace(s[0]) then 0 else 1 + LeadingSpaces(s[1..])
  }

  /** The length of the longest prefix made of digits. */
  function DigitPrefixLength(s: string): (n: nat)
    ensures n <= |s|
    ensures AllDigits(s[..n])
    ensures n < |s| ==> !IsDigit(s[n])
  {
    if s == [] || !IsDigit(s[0]) then 0
    else
      var m := DigitPrefixLength(s[1..]);
      assert s[..m + 1] == [s[0]] + s[1..][..m];
      1 + m
  }

  /**
   * std::stoi(s) in base 10: leading white space is skipped, one optional sign
   * is read, then the longest run of digits; whatever follows is ignored. None
   * stands for the exceptions stoi throws: std::invalid_argument when no digit
   * follows, std::out_of_range when the value does not fit in an int.
   */
  function Stoi(s: string): (r: Option<int>)
    ensures r.Some? ==> INT_MIN <= r.value <= INT_MAX
  {
    var t := s[LeadingSpaces(s)..];
    var signed := |t| > 0 && (t[0] == '+' || t[0] == '-');
    var u := if signed then t[1..] else t;
    var n := DigitPrefixLength(u);
    if n == 0 then None
    else
      var magnitude: int := DigitsValue(u[..n]);
      var v: int := if signed && t[0] == '-' then -magnitude else magnitude;
      if v < INT_MIN || v > INT_MAX then None else Some(v)
  }

  /** The digit run of `s + rest` is exactly `s` when `rest` does not start with a digit. */
  lemma {:induction false} DigitPrefixOfDigits(s: string, rest: string)
    requires AllDigits(s)
    requires rest == [] || !IsDigit(rest[0])
    ensures DigitPrefixLength(s + rest) == |s|
  {
    if s != [] {
      assert (s + rest)[1..] == s[1..] + rest;
      DigitPrefixOfDigits(s[1..], rest);
    }
  }

  /**
   * A run of digits that fits in an int, followed by anything that does not
   * start with a digit, converts to the run's value: stoi ignores trailing text.
   */
  lemma StoiOfDigits(s: string, rest: string)
    requires s != [] && AllDigits(s) && DigitsValue(s) <= INT_MAX
    requires rest == [] || !IsDigit(rest[0])
    ensures Stoi(s + rest) == Some(DigitsValue(s))
  {
    var x := s + rest;
    assert LeadingSpaces(x) == 0 by { assert !IsSpace(x[0]); }
    assert x[0] == s[0];
    DigitPrefixOfDigits(s, rest);
    assert x[..|s|] == s;
  }

  /** A zero-padded decimal rendering converts back to its number. */
  lemma StoiOfPad(n: nat, w: nat)
    requires 0 < w && n < Pow10(w) && n <= INT_MAX
    ensures Stoi(Pad(n, w)) == Some(n)
  {
    PadValue(n, w);
    StoiOfDigits(Pad(n, w), []);
    assert Pad(n, w) + [] == Pad(n, w);
  }
}
