/** Decimal digit strings: JavaScript's `String(n)` for a natural number, the
    leading-digit match `/^\d+/`, and the value `parseInt` gives a digit run. */
module Decimal {

  /** `\d`: an ASCII decimal digit. */
  predicate IsDigit(c: char) {
    '0' <= c <= '9'
  }

  predicate AllDigits(s: string) {
    forall i :: 0 <= i < |s| ==> IsDigit(s[i])
  }

  function DigitChar(d: nat): (c: char)
    requires d < 10
    ensures IsDigit(c)
  {
    ['0', '1', '2', '3', '4', '5', '6', '7', '8', '9'][d]
  }

  function DigitValue(c: char): (d: nat)
    requires IsDigit(c)
    ensures d < 10 && DigitChar(d) == c
  {
    (c as int) - ('0' as int)
  }

  /** The value of a digit string, most significant digit first. */
  function Value(s: string): nat
    requires AllDigits(s)
  {
    if s == [] then 0 else 10 * Value(s[..|s| - 1]) + DigitValue(s[|s| - 1])
  }

  /** `String(n)`: shortest decimal numeral, so no leading zero unless it is
      "0"; reading it back yields `n`. */
  function Show(n: nat): (r: string)
    ensures |r| >= 1 && AllDigits(r)
    ensures |r| > 1 ==> r[0] != '0'
    ensures Value(r) == n
  {
    if n < 10 then [DigitChar(n)]
    else
      var p := Show(n / 10);
      var r := p + [DigitChar(n % 10)];
      assert r[..|r| - 1] == p;
      r
  }

  /** A numeral as `String(n)` writes it: digits only, with no leading zero
      unless it is "0". */
  predicate Canonical(s: string) {
    |s| >= 1 && AllDigits(s) && (|s| > 1 ==> s[0] != '0')
  }

  /** A numeral whose first digit is not zero has a positive value. */
  lemma {:induction false} ValuePositive(s: string)
    requires |s| >= 1 && AllDigits(s) && s[0] != '0'
    ensures Value(s) >= 1
    decreases |s|
  {
    if |s| > 1 {
      ValuePositive(s[..|s| - 1]);
    }
  }

  /** A canonical numeral is the one `String` writes for its value, so
      value and canonical form pin each other down. */
  lemma {:induction false} ShowOfCanonical(s: string)
    requires Canonical(s)
    ensures Show(Value(s)) == s
    decreases |s|
  {
    if |s| > 1 {
      var p := s[..|s| - 1];
      ValuePositive(p);
      ShowOfCanonical(p);
      var d := DigitValue(s[|s| - 1]);
      assert Value(s) / 10 == Value(p) && Value(s) % 10 == d;
      assert s == p + [s[|s| - 1]];
    }
  }

  /** Distinct numbers have distinct numerals. */
  lemma ShowInjective(m: nat, n: nat)
    ensures Show(m) == Show(n) ==> m == n
  {
  }

  /** The match of `/^\d+/`, or the empty string when `s` does not start
      with a digit. */
  function DigitRun(s: string): (r: string)
    ensures AllDigits(r) && |r| <= |s| && r == s[..|r|]
    ensures |r| == |s| || !IsDigit(s[|r|])
  {
    if s == [] || !IsDigit(s[0]) then []
    else
      var r := DigitRun(s[1..]);
      [s[0]] + r
  }

  /** `parseInt(s)` reads decimally: `s` starts with a digit and not with a
      hexadecimal prefix `0x`/`0X`. */
  predicate ParsesAsDecimal(s: string) {
    |s| >= 1 && IsDigit(s[0]) && !(s[0] == '0' && |s| >= 2 && (s[1] == 'x' || s[1] == 'X'))
  }

  /** `parseInt(s)` for a string on which `ParsesAsDecimal` holds: the value
      of its leading digit run (trailing non-digits are ignored). */
  function ParseInt(s: string): nat {
    Value(DigitRun(s))
  }

  /** `parseInt(String(n)) == n`. */
  lemma ParseShow(n: nat)
    ensures ParsesAsDecimal(Show(n)) && ParseInt(Show(n)) == n
  {
    var r := Show(n);
    assert DigitRun(r) == r by {
      DigitRunOfDigits(r);
    }
  }

  /** The digit run ends before a non-digit, so cutting there keeps it. */
  lemma {:induction false} DigitRunOfPrefix(s: string, n: nat)
    requires n <= |s| && (n == |s| || !IsDigit(s[n]))
    ensures DigitRun(s[..n]) == DigitRun(s)
  {
    if s != [] && n > 0 {
      assert s[..n][0] == s[0];
      if IsDigit(s[0]) {
        DigitRunOfPrefix(s[1..], n - 1);
        assert s[..n][1..] == s[1..][..n - 1];
      }
    }
  }

  lemma {:induction false} DigitRunOfDigits(s: string)
    requires AllDigits(s)
    ensures DigitRun(s) == s
  {
    if s != [] {
      DigitRunOfDigits(s[1..]);
    }
  }
}
