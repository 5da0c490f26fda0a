/**
 * Decimal and hexadecimal numerals: how JavaScript prints a whole number in a
 * template string, and how `parseInt(s, 10)` reads one back.
 */
module Numerals {
  import opened Wrappers
  import opened Text

  predicate IsDigit(c: char) {
    '0' <= c <= '9'
  }

  predicate AllDigits(s: string) {
    forall i :: 0 <= i < |s| ==> IsDigit(s[i])
  }

  function DigitValue(c: char): (d: nat)
    requires IsDigit(c)
    ensures d < 10
  {
    c as int - '0' as int
  }

  function DigitChar(d: nat): (c: char)
    requires d < 10
    ensures IsDigit(c) && DigitValue(c) == d
  {
    ('0' as int + d) as char
  }

  /** The decimal numeral of `n`, as `${n}` prints a non-negative integer: digits only, no leading zero. */
  function NatToDecimal(n: nat): (s: string)
    ensures |s| >= 1 && AllDigits(s)
    ensures s[0] == '0' ==> n == 0 && s == "0"
    decreases n
  {
    if n < 10 then [DigitChar(n)] else NatToDecimal(n / 10) + [DigitChar(n % 10)]
  }

  /** `${n}` for any integer: a minus sign before the magnitude when negative. */
  function IntToDecimal(n: int): (s: string)
    ensures |s| >= 1
    ensures n >= 0 ==> s == NatToDecimal(n)
    ensures n < 0 ==> s == "-" + NatToDecimal(-n)
  {
    if n < 0 then "-" + NatToDecimal(-n) else NatToDecimal(n)
  }

  /** The value of a string of decimal digits (0 for the empty string). */
  function DecimalValue(s: string): nat
    requires AllDigits(s)
    decreases |s|
  {
    if |s| == 0 then 0 else DecimalValue(s[..|s| - 1]) * 10 + DigitValue(s[|s| - 1])
  }

  /** Reading back a printed natural number yields that number. */
  lemma {:induction false} DecimalRoundTrip(n: nat)
    ensures DecimalValue(NatToDecimal(n)) == n
    decreases n
  {
    if n >= 10 {
      var s := NatToDecimal(n);
      DecimalRoundTrip(n / 10);
      assert s[..|s| - 1] == NatToDecimal(n / 10);
    }
  }

  /** The longest prefix of `s` made of decimal digits. */
  function DigitPrefix(s: string): (d: string)
    ensures |d| <= |s| && d == s[..|d|] && AllDigits(d)
    ensures |d| == |s| || !IsDigit(s[|d|])
    decreases |s|
  {
    if |s| > 0 && IsDigit(s[0]) then [s[0]] + DigitPrefix(s[1..]) else ""
  }

  /**
   * `parseInt(s, 10)`: skip leading whitespace, read an optional sign, then the
   * longest run of decimal digits. None models NaN (no digit where one was
   * needed); a negative zero is the integer 0.
   */
  function ParseInt(s: string): (r: Option<int>)
    ensures r.None? <==> |DigitPrefix(UnsignedPart(TrimStart(s)))| == 0
  {
    var t := TrimStart(s);
    var digits := DigitPrefix(UnsignedPart(t));
    if |digits| == 0 then None
    else if |t| > 0 && t[0] == '-' then Some(0 - DecimalValue(digits) as int)
    else Some(DecimalValue(digits))
  }

  /** The text after an optional leading sign. */
  function UnsignedPart(t: string): string {
    if |t| > 0 && (t[0] == '-' || t[0] == '+') then t[1..] else t
  }

  /** `parseInt` reads every printed natural number back exactly. */
  lemma ParseIntOfDecimal(n: nat)
    ensures ParseInt(NatToDecimal(n)) == Some(n)
  {
    var s := NatToDecimal(n);
    ParseIntOfDigits(s);
    DecimalRoundTrip(n);
  }

  /** `parseInt` of a non-empty run of digits is its decimal value. */
  lemma ParseIntOfDigits(s: string)
    requires |s| > 0 && AllDigits(s)
    ensures ParseInt(s) == Some(DecimalValue(s))
  {
    assert IsDigit(s[0]);
    assert !IsWhitespace(s[0]);
    assert TrimStart(s) == s;
    assert UnsignedPart(s) == s;
    AllDigitsPrefix(s);
  }

  /** `parseInt` stops at the first character after a printed natural number that is not a digit. */
  lemma ParseIntOfDecimalThen(n: nat, rest: string)
    requires |rest| == 0 || !IsDigit(rest[0])
    ensures ParseInt(NatToDecimal(n) + rest) == Some(n)
  {
    var d := NatToDecimal(n);
    var s := d + rest;
    assert s[0] == d[0] && IsDigit(s[0]) && !IsWhitespace(s[0]);
    assert TrimStart(s) == s;
    assert UnsignedPart(s) == s;
    DigitPrefixThen(d, rest);
    DecimalRoundTrip(n);
  }

  /** The digit prefix of digits followed by a non-digit is those digits. */
  lemma {:induction false} DigitPrefixThen(d: string, rest: string)
    requires AllDigits(d)
    requires |rest| == 0 || !IsDigit(rest[0])
    ensures DigitPrefix(d + rest) == d
    decreases |d|
  {
    if |d| == 0 {
      assert d + rest == rest;
    } else {
      assert (d + rest)[1..] == d[1..] + rest;
      DigitPrefixThen(d[1..], rest);
      assert d == [d[0]] + d[1..];
    }
  }

  lemma {:induction false} AllDigitsPrefix(s: string)
    requires AllDigits(s)
    ensures DigitPrefix(s) == s
    decreases |s|
  {
    if |s| > 0 {
      AllDigitsPrefix(s[1..]);
      assert s == [s[0]] + s[1..];
    }
  }

  predicate IsHexDigit(c: char) {
    '0' <= c <= '9' || 'a' <= c <= 'f' || 'A' <= c <= 'F'
  }

  predicate AllHexDigits(s: string) {
    forall i :: 0 <= i < |s| ==> IsHexDigit(s[i])
  }

  /** The string matches `/^[0-9a-fA-F]+$/`. */
  predicate IsHexString(s: string) {
    |s| > 0 && AllHexDigits(s)
  }

  function HexDigitValue(c: char): (d: nat)
    requires IsHexDigit(c)
    ensures d < 16
  {
    if '0' <= c <= '9' then c as int - '0' as int
    else if 'a' <= c <= 'f' then c as int - 'a' as int + 10
    else c as int - 'A' as int + 10
  }

  /** Lower-case hexadecimal digit for `d`. */
  function HexDigitChar(d: nat): (c: char)
    requires d < 16
    ensures IsHexDigit(c) && HexDigitValue(c) == d
  {
    if d < 10 then ('0' as int + d) as char else ('a' as int + d - 10) as char
  }

  /** Division by a positive divisor is determined by any quotient-remainder pair. */
  lemma DivModUnique(n: int, b: int, q: int, r: int)
    requires b > 0 && n == b * q + r && 0 <= r < b
    ensures n / b == q && n % b == r
  {
    var q' := n / b;
    var r' := n % b;
    assert n == b * q' + r';
    if q' > q {
      assert b * q' >= b * (q + 1) by { MulMonotone(b, q + 1, q'); }
    } else if q' < q {
      assert b * q >= b * (q' + 1) by { MulMonotone(b, q' + 1, q); }
    }
  }

  lemma MulMonotone(b: int, x: int, y: int)
    requires b > 0 && x <= y
    ensures b * x <= b * y
  {
    assert b * y == b * x + b * (y - x);
  }

  lemma MulSucc(n: int, x: int)
    ensures (n + 1) * x == n * x + x
  {
  }

  /** The floor of a mean lies between the bounds of the terms: `n * lo <= sum <= n * hi` gives `lo <= sum / n <= hi`. */
  lemma FloorDivBetween(sum: int, n: int, lo: int, hi: int)
    requires n > 0 && n * lo <= sum <= n * hi
    ensures lo <= sum / n <= hi
  {
    var q := sum / n;
    assert sum == n * q + sum % n;
    if q < lo {
      MulMonotone(n, q + 1, lo);
    }
    if q > hi {
      MulMonotone(n, hi + 1, q);
    }
  }

  /** The floor quotient: `(s / n) * n <= s < (s / n + 1) * n`. */
  lemma FloorDivBounds(s: int, n: int)
    requires n > 0
    ensures (s / n) * n <= s < (s / n + 1) * n
  {
    var q := s / n;
    assert s == n * q + s % n;
    assert (q + 1) * n == q * n + n;
  }
}
