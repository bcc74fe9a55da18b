/** ASCII decimal digits: what `\d`, `int(...)` and `f"{h:02d}"` do on the cells this program sees. */
module Digits {

  predicate IsDigit(c: char) {
    '0' <= c <= '9'
  }

  /** The value of one digit character. */
  function DigitValue(c: char): (d: nat)
    requires IsDigit(c)
    ensures d < 10
  {
    c as int - '0' as int
  }

  /** The digit character of a value below ten. */
  function DigitChar(d: nat): (c: char)
    requires d < 10
    ensures IsDigit(c) && DigitValue(c) == d
  {
    ('0' as int + d) as char
  }

  /** `f"{n:02d}"` for 0 <= n < 100. */
  function TwoDigits(n: nat): (s: string)
    requires n < 100
    ensures |s| == 2 && IsDigit(s[0]) && IsDigit(s[1])
    ensures 10 * DigitValue(s[0]) + DigitValue(s[1]) == n
  {
    [DigitChar(n / 10), DigitChar(n % 10)]
  }

  /** `int(s)` for a string of two digits. */
  function TwoDigitValue(s: string): (n: nat)
    requires |s| == 2 && IsDigit(s[0]) && IsDigit(s[1])
    ensures n < 100
  {
    10 * DigitValue(s[0]) + DigitValue(s[1])
  }

  /** Reading back what TwoDigits wrote gives the number, and TwoDigits is one-to-one. */
  lemma TwoDigitsRoundTrip(n: nat)
    requires n < 100
    ensures TwoDigitValue(TwoDigits(n)) == n
  {
  }

  lemma TwoDigitsOfValue(s: string)
    requires |s| == 2 && IsDigit(s[0]) && IsDigit(s[1])
    ensures TwoDigits(TwoDigitValue(s)) == s
  {
    var n := TwoDigitValue(s);
    assert n / 10 == DigitValue(s[0]) && n % 10 == DigitValue(s[1]);
  }
}
