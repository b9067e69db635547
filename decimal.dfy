/**
 * PHP's `(string)` cast of an integer, used to publish the load-more cursor,
 * together with the reading of such a string back into a number (what the
 * search endpoint does with `max_id`).
 */
module Decimal {
  import opened Options

  predicate IsDigit(c: char) { '0' <= c <= '9' }

  function DigitChar(d: nat): (c: char)
    requires d < 10
    ensures IsDigit(c)
  {
    (48 + d) as char
  }

  function DigitValue(c: char): (d: nat)
    requires IsDigit(c)
    ensures d < 10 && DigitChar(d) == c
  {
    c as int - 48
  }

  /** The decimal digits of n, most significant first. */
  function Digits(n: nat): string
    decreases n
  {
    if n < 10 then [DigitChar(n)] else Digits(n / 10) + [DigitChar(n % 10)]
  }

  /** `(string)$n` for a PHP integer n. */
  function DecimalString(n: int): string
  {
    if n < 0 then "-" + Digits(-n) else Digits(n)
  }

  predicate AllDigits(s: string)
  {
    forall i :: 0 <= i < |s| ==> IsDigit(s[i])
  }

  /** A canonical unsigned numeral: non-empty, digits only, no leading zero unless it is "0". */
  predicate Canonical(s: string)
  {
    |s| > 0 && AllDigits(s) && (s[0] == '0' ==> |s| == 1)
  }

  /** The number a string of digits denotes. */
  function ValueOf(s: string): nat
    requires AllDigits(s)
    decreases |s|
  {
    if s == [] then 0 else ValueOf(s[..|s| - 1]) * 10 + DigitValue(s[|s| - 1])
  }

  /** Reads a canonical signed decimal numeral; anything else is refused. */
  function ParseDecimal(s: string): Option<int>
  {
    if |s| > 0 && s[0] == '-' then
      if Canonical(s[1..]) && s[1..] != "0" then Some(0 - ValueOf(s[1..]) as int) else None
    else if Canonical(s) then Some(ValueOf(s))
    else None
  }

  /** Digits(n) is a canonical numeral denoting n. */
  lemma {:induction false} DigitsDenote(n: nat)
    ensures Canonical(Digits(n)) && ValueOf(Digits(n)) == n
    decreases n
  {
    if n >= 10 {
      DigitsDenote(n / 10);
      var p := Digits(n / 10);
      var s := Digits(n);
      assert s == p + [DigitChar(n % 10)];
      assert s[..|s| - 1] == p;
    }
  }

  /** A numeral of two or more digits without a leading zero denotes at least its first digit. */
  lemma {:induction false} ValueAtLeastLeadingDigit(s: string)
    requires |s| > 0 && AllDigits(s)
    ensures ValueOf(s) >= DigitValue(s[0])
    decreases |s|
  {
    if |s| > 1 {
      var p := s[..|s| - 1];
      assert p[0] == s[0];
      ValueAtLeastLeadingDigit(p);
    }
  }

  /** Every canonical numeral is the one DecimalString prints for its value. */
  lemma {:induction false} CanonicalIsDigits(s: string)
    requires Canonical(s)
    ensures Digits(ValueOf(s)) == s
    decreases |s|
  {
    if |s| > 1 {
      var p := s[..|s| - 1];
      assert p[0] == s[0];
      assert Canonical(p);
      ValueAtLeastLeadingDigit(p);
      CanonicalIsDigits(p);
      var n := ValueOf(s);
      assert n / 10 == ValueOf(p) && n % 10 == DigitValue(s[|s| - 1]);
      assert s == p + [s[|s| - 1]];
    }
  }

  /** The cursor string reads back as the number it was printed from. */
  lemma DecimalRoundTrip(n: int)
    ensures ParseDecimal(DecimalString(n)) == Some(n)
  {
    if n < 0 {
      DigitsDenote(-n);
      var s := DecimalString(n);
      assert s[1..] == Digits(-n);
    } else {
      DigitsDenote(n);
    }
  }

  /** Conversely, every string ParseDecimal accepts is the one DecimalString prints. */
  lemma DecimalCanonical(s: string)
    requires ParseDecimal(s).Some?
    ensures DecimalString(ParseDecimal(s).value) == s
  {
    if |s| > 0 && s[0] == '-' {
      CanonicalIsDigits(s[1..]);
      ValueAtLeastLeadingDigit(s[1..]);
      if |s[1..]| == 1 {
        assert s[1..] != "0";
        assert s[1..] == [s[1]];
      }
      assert s == "-" + s[1..];
    } else {
      CanonicalIsDigits(s);
    }
  }
}
