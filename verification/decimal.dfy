/** Decimal rendering of integers as printf's "%d" produces it, and the
    reading of a numeral back into its value. */
module Decimal {
  import opened Base

  predicate IsDigit(c: char) {
    '0' <= c <= '9'
  }

  function DigitChar(d: int): (r: char)
    requires 0 <= d < 10
  {
    ('0' as int + d) as char
  }

  function DigitValue(c: char): (r: int) {
    c as int - '0' as int
  }

  /** The decimal digits of n, most significant first, without leading
      zeros ("0" for zero). */
  function Digits(n: nat): (r: string)
    ensures |r| >= 1
    ensures forall i :: 0 <= i < |r| ==> IsDigit(r[i])
    ensures |r| > 1 ==> r[0] != '0'
    decreases n
  {
    if n < 10 then [DigitChar(n)] else Digits(n / 10) + [DigitChar(n % 10)]
  }

  /** "%d": a minus sign for negative numbers, then the digits of the
      magnitude. */
  function Format(n: int): (r: string)
    ensures |r| >= 1
  {
    if n < 0 then "-" + Digits(-n) else Digits(n)
  }

  /** The rendering holds only digits, after a minus sign for a negative
      number: every character is a non-NUL C char. */
  lemma FormatChars(n: int)
    ensures forall i :: 0 <= i < |Format(n)| ==>
              IsDigit(Format(n)[i]) || (i == 0 && n < 0 && Format(n)[i] == '-')
    ensures forall i :: 0 <= i < |Format(n)| ==> 0 < Format(n)[i] as int < 256
  {
    var s := Format(n);
    forall i | 0 <= i < |s| ensures IsDigit(s[i]) || (i == 0 && n < 0 && s[i] == '-') {
      if n < 0 && i > 0 { assert s[i] == Digits(-n)[i - 1]; }
    }
  }

  /** The value of a string of digits: each digit weighs ten times the next. */
  function Value(s: string): (r: int)
    decreases |s|
  {
    if |s| == 0 then 0 else 10 * Value(s[..|s| - 1]) + DigitValue(s[|s| - 1])
  }

  /** Reads an optionally signed numeral. */
  function Parse(s: string): (r: int) {
    if |s| > 0 && s[0] == '-' then -Value(s[1..]) else Value(s)
  }

  lemma {:induction false} ValueOfDigits(n: nat)
    ensures Value(Digits(n)) == n
    decreases n
  {
    if n >= 10 {
      var s := Digits(n);
      assert s[..|s| - 1] == Digits(n / 10);
      ValueOfDigits(n / 10);
    }
  }

  /** Reading the rendering of any integer gives the integer back. */
  lemma ParseFormat(n: int)
    ensures Parse(Format(n)) == n
  {
    if n < 0 {
      assert Format(n)[1..] == Digits(-n);
      ValueOfDigits(-n);
    } else {
      ValueOfDigits(n);
    }
  }

  function Pow10(k: nat): (r: nat) {
    if k == 0 then 1 else 10 * Pow10(k - 1)
  }

  lemma {:induction false} DigitsLength(n: nat, k: nat)
    requires 1 <= k && n < Pow10(k)
    ensures |Digits(n)| <= k
    decreases k
  {
    if n >= 10 {
      assert k >= 2;
      DigitsLength(n / 10, k - 1);
    }
  }

  /** Every 32-bit int renders in at most 11 characters (a sign and ten
      digits), so it fits a 12-byte buffer with its terminating NUL. */
  lemma FormatFitsInt32(n: int)
    requires IsInt32(n)
    ensures |Format(n)| <= 11
  {
    assert Pow10(10) == 10_000_000_000;
    if n < 0 {
      DigitsLength(-n, 10);
    } else {
      DigitsLength(n, 10);
    }
  }
}
