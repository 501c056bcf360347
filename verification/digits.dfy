/** ASCII decimal digits: recognising runs of them and reading their value,
    as the regular expressions `\d+` and the conversions `int(...)` do. */
module Digits {

  predicate IsDigit(c: char) {
    '0' <= c <= '9'
  }

  predicate AllDigits(s: string) {
    forall i | 0 <= i < |s| :: IsDigit(s[i])
  }

  function DigitValue(c: char): (d: nat)
    requires IsDigit(c)
    ensures d < 10
  {
    c as int - '0' as int
  }

  /** Ten to the power `n`. */
  function Pow10(n: nat): (p: nat)
    ensures p > 0
  {
    if n == 0 then 1 else 10 * Pow10(n - 1)
  }

  /** The value of a digit string read in base ten (leading zeros allowed); it
      fits in as many decimal places as the string has digits. */
  function Value(s: string): (v: nat)
    requires AllDigits(s)
    ensures v < Pow10(|s|)
  {
    if s == [] then 0
    else
      var init := Value(s[..|s| - 1]);
      assert init * 10 + 9 < Pow10(|s| - 1) * 10;
      init * 10 + DigitValue(s[|s| - 1])
  }

  /** The value of the digits written after a decimal point. */
  function Fraction(s: string): real
    requires AllDigits(s)
  {
    Value(s) as real / Pow10(|s|) as real
  }

  /** Length of the longest prefix of `s` made of digits. */
  function DigitRun(s: string): (k: nat)
    ensures k <= |s|
    ensures AllDigits(s[..k])
    ensures k < |s| ==> !IsDigit(s[k])
  {
    if s == [] || !IsDigit(s[0]) then 0
    else
      var k := 1 + DigitRun(s[1..]);
      assert s[..k] == [s[0]] + s[1..][..k - 1];
      k
  }

  /** The digit run of a digit string followed by a non-digit is exactly that string. */
  lemma {:induction false} DigitRunOfPrefix(a: string, b: string)
    requires AllDigits(a)
    requires b == [] || !IsDigit(b[0])
    ensures DigitRun(a + b) == |a|
  {
    if a != [] {
      assert (a + b)[1..] == a[1..] + b;
      DigitRunOfPrefix(a[1..], b);
    } else {
      assert a + b == b;
    }
  }

  function DigitChar(d: nat): (c: char)
    requires d < 10
    ensures IsDigit(c) && DigitValue(c) == d
  {
    ('0' as int + d) as char
  }

  /** Two-digit, zero-padded rendering of a number below 100. */
  function Pad2(n: nat): (s: string)
    requires n < 100
    ensures |s| == 2 && AllDigits(s) && Value(s) == n
  {
    var s := [DigitChar(n / 10), DigitChar(n % 10)];
    assert s[..1] == [s[0]] && s[..1][..0] == [];
    assert Value(s[..1]) == n / 10;
    s
  }

  lemma DigitCharOfValue(c: char)
    requires IsDigit(c)
    ensures DigitChar(DigitValue(c)) == c
  {
  }

  /** A two-digit string is the padded rendering of its own value. */
  lemma PadOfValue(d: string)
    requires |d| == 2 && AllDigits(d)
    ensures Value(d) < 100 && Pad2(Value(d)) == d
  {
    assert d[..1] == [d[0]] && d[..1][..0] == [];
    assert d[..|d| - 1] == d[..1];
    assert Value(d[..1]) == DigitValue(d[0]);
    assert Value(d) == 10 * DigitValue(d[0]) + DigitValue(d[1]);
    DigitCharOfValue(d[0]);
    DigitCharOfValue(d[1]);
  }
}
