/** Decimal renderings of natural numbers: Python's `str(n)` for record ids and the
    zero-padded fields of `datetime.isoformat()`. */
module Decimal {

  predicate IsDigit(c: char) {
    '0' <= c <= '9'
  }

  predicate IsDigits(s: string) {
    forall i :: 0 <= i < |s| ==> IsDigit(s[i])
  }

  function DigitChar(d: nat): (c: char)
    requires d < 10
    ensures IsDigit(c)
  {
    "0123456789"[d]
  }

  function DigitValue(c: char): nat {
    if IsDigit(c) then (c as int - '0' as int) as nat else 0
  }

  function Pow10(w: nat): nat {
    if w == 0 then 1 else 10 * Pow10(w - 1)
  }

  /** The number a string of decimal digits denotes, leading zeros allowed. */
  function ParseDecimal(s: string): nat {
    if |s| == 0 then 0
    else 10 * ParseDecimal(s[..|s| - 1]) + DigitValue(s[|s| - 1])
  }

  /** Python's `str(n)` for a non-negative int. */
  function DecimalString(n: nat): (r: string)
    ensures |r| >= 1 && IsDigits(r)
    ensures r[0] == '0' ==> n == 0
  {
    if n < 10 then [DigitChar(n)]
    else DecimalString(n / 10) + [DigitChar(n % 10)]
  }

  /** `n` written in exactly `width` digits with leading zeros: `"%0<width>d" % n`. */
  function ZeroPad(n: nat, width: nat): (r: string)
    requires n < Pow10(width)
    ensures |r| == width && IsDigits(r)
  {
    if width == 0 then ""
    else ZeroPad(n / 10, width - 1) + [DigitChar(n % 10)]
  }

  lemma DigitRoundTrip(d: nat)
    requires d < 10
    ensures DigitValue(DigitChar(d)) == d
  {
  }

  /** Reading back `str(n)` gives `n`. */
  lemma {:induction false} ParseDecimalString(n: nat)
    ensures ParseDecimal(DecimalString(n)) == n
  {
    var r := DecimalString(n);
    if n >= 10 {
      ParseDecimalString(n / 10);
      assert r[..|r| - 1] == DecimalString(n / 10);
      DigitRoundTrip(n % 10);
    } else {
      DigitRoundTrip(n);
    }
  }

  /** Distinct numbers have distinct decimal strings. */
  lemma DecimalStringInjective(m: nat, n: nat)
    requires DecimalString(m) == DecimalString(n)
    ensures m == n
  {
    ParseDecimalString(m);
    ParseDecimalString(n);
  }

  /** Reading back a zero-padded field gives the number. */
  lemma {:induction false} ParseZeroPad(n: nat, width: nat)
    requires n < Pow10(width)
    ensures ParseDecimal(ZeroPad(n, width)) == n
  {
    if width > 0 {
      var r := ZeroPad(n, width);
      ParseZeroPad(n / 10, width - 1);
      assert r[..|r| - 1] == ZeroPad(n / 10, width - 1);
      DigitRoundTrip(n % 10);
    }
  }

  /** A digit string is the zero-padded rendering, at its own width, of the number
      it denotes: a fixed-width field is fixed by its value. */
  lemma {:induction false} DigitsAreZeroPad(s: string)
    requires IsDigits(s)
    ensures ParseDecimal(s) < Pow10(|s|)
    ensures s == ZeroPad(ParseDecimal(s), |s|)
    decreases |s|
  {
    if |s| > 0 {
      var init := s[..|s| - 1];
      var last := s[|s| - 1];
      DigitsAreZeroPad(init);
      CharRoundTrip(last);
      var n := ParseDecimal(s);
      assert n == 10 * ParseDecimal(init) + DigitValue(last);
      assert n / 10 == ParseDecimal(init) && n % 10 == DigitValue(last);
      assert s == init + [last];
    }
  }

  /** A digit string as `str` writes one: non-empty, and starting with `0` only
      when it is `"0"`. */
  predicate IsCanonical(s: string) {
    |s| >= 1 && IsDigits(s) && (s[0] == '0' ==> s == "0")
  }

  /** `str(n)` is canonical. */
  lemma DecimalStringCanonical(n: nat)
    ensures IsCanonical(DecimalString(n))
  {
    if n == 0 {
      assert DecimalString(0) == "0";
    }
  }

  lemma CharRoundTrip(c: char)
    requires IsDigit(c)
    ensures DigitChar(DigitValue(c)) == c
  {
    var d := DigitValue(c);
    assert "0123456789"[d] as int == '0' as int + d by {
      assert forall i :: 0 <= i < 10 ==> "0123456789"[i] as int == '0' as int + i;
    }
  }

  /** A digit string that does not start with `0` denotes a positive number. */
  lemma {:induction false} NoLeadingZeroPositive(s: string)
    requires |s| >= 1 && IsDigits(s) && s[0] != '0'
    ensures ParseDecimal(s) >= 1
    decreases |s|
  {
    if |s| > 1 {
      NoLeadingZeroPositive(s[..|s| - 1]);
    }
  }

  /** A canonical digit string is `str` of the number it denotes: with
      `ParseDecimalString`, `str` and parsing are inverse on canonical strings. */
  lemma {:induction false} CanonicalIsDecimalString(s: string)
    requires IsCanonical(s)
    ensures s == DecimalString(ParseDecimal(s))
    decreases |s|
  {
    var last := s[|s| - 1];
    CharRoundTrip(last);
    if |s| == 1 {
      assert s[..0] == "";
      assert s == [last];
    } else {
      var init := s[..|s| - 1];
      assert s != "0";
      assert init[0] == s[0];
      NoLeadingZeroPositive(init);
      CanonicalIsDecimalString(init);
      var n := ParseDecimal(s);
      assert n == 10 * ParseDecimal(init) + DigitValue(last);
      assert n / 10 == ParseDecimal(init) && n % 10 == DigitValue(last);
      assert s == init + [last];
    }
  }
}
