/**
 * Money amounts as exact decimals. Python stores them as binary floats;
 * here an amount is a `real`, `round(x, 2)` rounds that real half-to-even,
 * `float(text)` is a decimal parser that may fail, and `str(x)` renders a
 * two-decimal value the way Python's shortest float repr does
 * ("150.0", "0.5", "123.45").
 */
module Amounts {
  import opened Maybe
  import opened Text

  /** `x * 100` rounded to the nearest integer, ties to the even one. */
  function RoundedCents(x: real): int {
    var c := x * 100.0;
    var f := c.Floor;
    var d := c - f as real;
    if d < 0.5 then f else if d > 0.5 then f + 1 else if f % 2 == 0 then f else f + 1
  }

  /** `round(x, 2)`: nearest multiple of 0.01, ties to the even neighbour. */
  function Round2(x: real): real {
    RoundedCents(x) as real / 100.0
  }

  /** `x` has at most two fractional decimal digits. */
  predicate IsCents(x: real) {
    (x * 100.0).Floor as real == x * 100.0
  }

  /** `amountIsValid`: rounding to two places changes nothing and the amount is not negative. */
  predicate AmountIsValid(x: real) {
    Round2(x) == x && x >= 0.0
  }

  /** Rounding to two places is the identity exactly on two-decimal values. */
  lemma RoundIdentityIff(x: real)
    ensures Round2(x) == x <==> IsCents(x)
  {
    var c := x * 100.0;
    var f := c.Floor;
    if IsCents(x) {
      assert c - f as real == 0.0;
    }
    if Round2(x) == x {
      var k := RoundedCents(x);
      assert x == k as real / 100.0;
      assert c == k as real;
      assert (k as real).Floor == k;
    }
  }

  /** A valid amount is a non-negative value with at most two decimals. */
  lemma AmountIsValidIff(x: real)
    ensures AmountIsValid(x) <==> IsCents(x) && x >= 0.0
  {
    RoundIdentityIff(x);
  }

  lemma FloorOfInt(n: int)
    ensures (n as real).Floor == n
  {
  }

  lemma CentsClosed(a: real, b: real)
    requires IsCents(a) && IsCents(b)
    ensures IsCents(a + b) && IsCents(a - b)
  {
    var fa := (a * 100.0).Floor;
    var fb := (b * 100.0).Floor;
    assert (a + b) * 100.0 == (fa + fb) as real;
    assert (a - b) * 100.0 == (fa - fb) as real;
    FloorOfInt(fa + fb);
    FloorOfInt(fa - fb);
  }

  /** The sum of two valid amounts is valid, and needs no rounding. */
  lemma ValidSum(a: real, b: real)
    requires AmountIsValid(a) && AmountIsValid(b)
    ensures AmountIsValid(a + b) && Round2(a + b) == a + b
  {
    AmountIsValidIff(a);
    AmountIsValidIff(b);
    CentsClosed(a, b);
    AmountIsValidIff(a + b);
  }

  /** Subtracting a valid amount no larger than a valid balance leaves a valid balance. */
  lemma ValidDifference(a: real, b: real)
    requires AmountIsValid(a) && AmountIsValid(b) && b <= a
    ensures AmountIsValid(a - b) && Round2(a - b) == a - b
  {
    AmountIsValidIff(a);
    AmountIsValidIff(b);
    CentsClosed(a, b);
    AmountIsValidIff(a - b);
  }

  /** The value of a decimal digit; other characters never reach it through a successful parse. */
  function DigitValue(c: char): nat {
    if IsDigit(c) then c as int - '0' as int else 0
  }

  function DigitChar(d: nat): (c: char)
    requires d < 10
    ensures IsDigit(c) && DigitValue(c) == d
  {
    ('0' as int + d) as char
  }

  /** The number a string of decimal digits denotes. */
  function DigitsValue(s: string): nat {
    if |s| == 0 then 0 else 10 * DigitsValue(s[..|s| - 1]) + DigitValue(s[|s| - 1])
  }

  /** The decimal digits of `n`, without leading zeros. */
  function NatToDigits(n: nat): (s: string)
    ensures IsDigitStr(s)
  {
    if n < 10 then [DigitChar(n)] else NatToDigits(n / 10) + [DigitChar(n % 10)]
  }

  lemma {:induction false} DigitsRoundTrip(n: nat)
    ensures DigitsValue(NatToDigits(n)) == n
  {
    if n >= 10 {
      var s := NatToDigits(n);
      assert s[..|s| - 1] == NatToDigits(n / 10);
      DigitsRoundTrip(n / 10);
    }
  }

  /** The value of the digits after a decimal point. */
  function FractionValue(fp: string): real {
    if |fp| == 0 then 0.0 else (DigitValue(fp[0]) as real + FractionValue(fp[1..])) / 10.0
  }

  /** Unsigned decimal text: digits with at most one point, at least one digit. */
  function ParseUnsigned(body: string): Option<real> {
    var dot := IndexOf(body, '.');
    ParseParts(body[..dot], if dot < |body| then body[dot + 1..] else "")
  }

  /** The digits before and after the point, at least one of them present. */
  function ParseParts(ip: string, fp: string): Option<real> {
    if AllDigits(ip) && AllDigits(fp) && |ip| + |fp| > 0 then
      Some(DigitsValue(ip) as real + FractionValue(fp))
    else
      None
  }

  /**
   * `float(text)` for decimal text: surrounding whitespace, an optional
   * sign, then an unsigned decimal. `None` models the `ValueError`.
   */
  function ParseAmount(t: string): Option<real> {
    var s := Strip(t);
    if |s| > 0 && (s[0] == '-' || s[0] == '+') then
      match ParseUnsigned(s[1..])
      case Some(v) => Some(if s[0] == '-' then -v else v)
      case None => None
    else
      ParseUnsigned(s)
  }

  /** Characters a successfully parsed amount text can hold. */
  predicate AmountChar(c: char) {
    IsDigit(c) || IsSpace(c) || c == '.' || c == '-' || c == '+'
  }

  /** Text that parses as an amount is made of digits, whitespace, a point and a sign only. */
  lemma {:induction false} ParsedChars(t: string)
    requires ParseAmount(t).Some?
    ensures forall i :: 0 <= i < |t| ==> AmountChar(t[i])
  {
    var s := Strip(t);
    var body := if |s| > 0 && (s[0] == '-' || s[0] == '+') then s[1..] else s;
    var dot := IndexOf(body, '.');
    var fp := if dot < |body| then body[dot + 1..] else "";
    IndexOfFinds(body, '.');
    forall i | 0 <= i < |t| && !IsSpace(t[i])
      ensures AmountChar(t[i])
    {
      StripKeeps(t, i);
      var j :| 0 <= j < |s| && s[j] == t[i];
      if !(|s| > 0 && (s[0] == '-' || s[0] == '+') && j == 0) {
        var b := if |s| > 0 && (s[0] == '-' || s[0] == '+') then j - 1 else j;
        assert body[b] == t[i];
        if b < dot {
          assert body[..dot][b] == t[i];
        } else if b > dot {
          assert fp[b - dot - 1] == t[i];
        }
      }
    }
  }

  /** The cents digits `str` prints: trailing zero dropped, at least one digit. */
  function CentsText(cents: nat): (frac: string)
    requires cents < 100
    ensures IsDigitStr(frac) && |frac| <= 2
  {
    if cents % 10 == 0 then [DigitChar(cents / 10)]
    else [DigitChar(cents / 10), DigitChar(cents % 10)]
  }

  /** `m` cents written as an unsigned decimal, as `str` prints it. */
  function CentsBody(m: nat): string {
    NatToDigits(m / 100) + "." + CentsText(m % 100)
  }

  /**
   * `str(x)` for a two-decimal value: the whole part, a point, then the
   * cents with trailing zeros dropped but at least one digit kept.
   */
  function FormatAmount(x: real): string {
    FormatCents((x * 100.0).Floor)
  }

  /** A signed count of cents written as `str` writes the corresponding amount. */
  function FormatCents(c: int): string {
    if c < 0 then "-" + CentsBody(-c) else CentsBody(c)
  }

  lemma {:induction false} CentsTextValue(cents: nat)
    requires cents < 100
    ensures FractionValue(CentsText(cents)) == cents as real / 100.0
  {
    var frac := CentsText(cents);
    var d1 := cents / 10;
    var d2 := cents % 10;
    assert cents == 10 * d1 + d2;
    assert DigitValue(frac[0]) == d1;
    if d2 == 0 {
      assert FractionValue(frac[1..]) == 0.0;
      assert FractionValue(frac) == d1 as real / 10.0;
    } else {
      assert DigitValue(frac[1]) == d2;
      assert FractionValue(frac[1..][1..]) == 0.0;
      assert FractionValue(frac[1..]) == d2 as real / 10.0;
      assert FractionValue(frac) == (d1 as real + d2 as real / 10.0) / 10.0;
    }
  }

  /** Digits, a point, then anything: the point found is the one after the digits. */
  lemma {:induction false} UnsignedSplit(ip: string, fp: string)
    requires AllDigits(ip)
    ensures ParseUnsigned(ip + "." + fp) == ParseParts(ip, fp)
  {
    var body := ip + "." + fp;
    assert forall i :: 0 <= i < |ip| ==> ip[i] != '.';
    IndexOfAfter(ip, '.', fp);
    assert body[..|ip|] == ip;
    assert body[|ip| + 1..] == fp;
  }

  /** `digits.frac` parses to the whole part plus the fraction. */
  lemma {:induction false} ParsePointed(digits: string, frac: string)
    requires IsDigitStr(digits) && AllDigits(frac)
    ensures ParseUnsigned(digits + "." + frac)
            == Some(DigitsValue(digits) as real + FractionValue(frac))
  {
    UnsignedSplit(digits, frac);
  }

  /** Text that starts and ends with a digit is parsed as an unsigned decimal. */
  lemma {:induction false} ParseBare(body: string)
    requires |body| > 0 && IsDigit(body[0]) && IsDigit(body[|body| - 1])
    ensures ParseAmount(body) == ParseUnsigned(body)
  {
    StripNoSpace(body);
  }

  /** Splitting a count of cents into whole units and cents keeps its value. */
  lemma {:induction false} CentsSplit(m: nat)
    ensures (m / 100) as real + (m % 100) as real / 100.0 == m as real / 100.0
  {
    assert (m / 100) * 100 + m % 100 == m;
  }

  /** A whole part and a fraction, both digits, joined by a point read back as their sum. */
  lemma {:induction false} PointedRoundTrip(whole: string, frac: string, x: real)
    requires IsDigitStr(whole) && IsDigitStr(frac)
    requires x == DigitsValue(whole) as real + FractionValue(frac)
    ensures ParseAmount(whole + "." + frac) == Some(x)
  {
    var body := whole + "." + frac;
    assert body[0] == whole[0];
    assert body[|body| - 1] == frac[|frac| - 1];
    ParsePointed(whole, frac);
    ParseBare(body);
  }

  /** `str` of a non-negative count of cents parses back to its value. */
  lemma {:induction false} CentsRoundTrip(m: nat, x: real)
    requires x == m as real / 100.0
    ensures ParseAmount(CentsBody(m)) == Some(x)
  {
    CentsSplit(m);
    DigitsRoundTrip(m / 100);
    CentsTextValue(m % 100);
    PointedRoundTrip(NatToDigits(m / 100), CentsText(m % 100), x);
  }

  /** A value with at most two decimals is its cent count over 100. */
  lemma CentsScale(x: real)
    requires IsCents(x)
    ensures x == (x * 100.0).Floor as real / 100.0
  {
  }

  /**
   * The text `str(x)` produces for a valid amount (a balance, say) parses
   * back to exactly `x`.
   */
  lemma {:induction false} FormatParseRoundTrip(x: real)
    requires AmountIsValid(x)
    ensures ParseAmount(FormatAmount(x)) == Some(x)
  {
    AmountIsValidIff(x);
    var c := (x * 100.0).Floor;
    CentsScale(x);
    assert FormatAmount(x) == CentsBody(c);
    CentsRoundTrip(c, x);
  }
}
