/**
 * Prices as exact reals: rounding to cents, the `f"{price:.2f}"` text that the
 * history stores, and the decimal subset of `float()` that reads it back.
 */
module Prices {
  import opened Wrappers
  import opened Text

  predicate IsDigit(c: char)
  {
    '0' <= c <= '9'
  }

  predicate AllDigits(s: string)
  {
    forall i :: 0 <= i < |s| ==> IsDigit(s[i])
  }

  function DigitValue(c: char): (d: nat)
    requires IsDigit(c)
    ensures d < 10
  {
    c as int - '0' as int
  }

  function DigitChar(d: nat): (c: char)
    requires d < 10
    ensures IsDigit(c) && DigitValue(c) == d
  {
    ('0' as int + d) as char
  }

  function Abs(x: real): real
  {
    if x < 0.0 then -x else x
  }

  function Pow10(n: nat): (p: nat)
    ensures p >= 1
  {
    if n == 0 then 1 else 10 * Pow10(n - 1)
  }

  /** The value of a string of decimal digits, most significant first. */
  function NumeralValue(s: string): nat
    requires AllDigits(s)
  {
    if s == [] then 0 else 10 * NumeralValue(s[..|s| - 1]) + DigitValue(s[|s| - 1])
  }

  /** `str(n)` for a natural number: its decimal numeral without leading zeros. */
  function Decimal(n: nat): (s: string)
    ensures s != [] && AllDigits(s)
    ensures NumeralValue(s) == n
  {
    if n < 10 then [DigitChar(n)]
    else
      var s := Decimal(n / 10) + [DigitChar(n % 10)];
      assert s[..|s| - 1] == Decimal(n / 10);
      s
  }

  /**
   * Round half to even of a real: the integer nearest `y`, the even one on a
   * tie, which is how `format(x, ".2f")` rounds an exact value.
   */
  function RoundHalfEven(y: real): (n: int)
    ensures n as real - 0.5 <= y <= n as real + 0.5
    ensures y == n as real - 0.5 || y == n as real + 0.5 ==> n % 2 == 0
    ensures y >= 0.0 ==> n >= 0
  {
    var f := y.Floor;
    var d := y - f as real;
    if d < 0.5 then f
    else if d > 0.5 then f + 1
    else if f % 2 == 0 then f
    else f + 1
  }

  /** The magnitude of `x` in whole cents, rounded. */
  function Cents(x: real): nat
  {
    RoundHalfEven(Abs(x) * 100.0)
  }

  /** `x` rounded to two decimals: what `float(f"{x:.2f}")` gives back. */
  function RoundCents(x: real): (r: real)
    ensures x - 0.005 <= r <= x + 0.005
    ensures 0.0 <= x ==> 0.0 <= r
  {
    if x < 0.0 then -(Cents(x) as real / 100.0) else Cents(x) as real / 100.0
  }

  /** Round half to even is the only rounding that is within a half and even on ties. */
  lemma RoundHalfEvenUnique(y: real, n: int)
    requires n as real - 0.5 <= y <= n as real + 0.5
    requires y == n as real - 0.5 || y == n as real + 0.5 ==> n % 2 == 0
    ensures n == RoundHalfEven(y)
  {
  }

  /** Round half to even is symmetric about zero. */
  lemma RoundHalfEvenNegate(y: real)
    ensures RoundHalfEven(-y) == -RoundHalfEven(y)
  {
    var n := RoundHalfEven(y);
    RoundHalfEvenUnique(-y, -n);
  }

  /**
   * Rounding to cents is round half to even of the amount in cents, for
   * negative amounts too: `RoundCents(x)` is a whole number of cents.
   */
  lemma RoundCentsHalfEven(x: real)
    ensures RoundCents(x) == RoundHalfEven(x * 100.0) as real / 100.0
  {
    if x < 0.0 {
      assert Abs(x) * 100.0 == -(x * 100.0);
      RoundHalfEvenNegate(x * 100.0);
    } else {
      assert Abs(x) * 100.0 == x * 100.0;
    }
  }

  /** A price that is already a whole number of cents is kept by rounding. */
  lemma RoundCentsOfCents(n: int)
    ensures RoundCents(n as real / 100.0) == n as real / 100.0
  {
    var x := n as real / 100.0;
    assert Abs(x) * 100.0 == (if n < 0 then -n else n) as real;
  }

  /** `f"{x:.2f}"`: optional minus sign, whole part, point, exactly two digits. */
  function FormatCents(x: real): (s: string)
  {
    (if x < 0.0 then "-" else "") + CentsText(Cents(x))
  }

  /** The length of the longest all-digit prefix of `s`. */
  function LeadingDigits(s: string): (k: nat)
    ensures k <= |s| && AllDigits(s[..k])
    ensures k == |s| || !IsDigit(s[k])
  {
    if s != [] && IsDigit(s[0]) then
      var k := 1 + LeadingDigits(s[1..]);
      assert s[..k] == [s[0]] + s[1..][..k - 1];
      k
    else 0
  }

  /** `[digits][.digits]` with at least one digit. */
  function ParseUnsigned(s: string): Option<real>
  {
    var k := LeadingDigits(s);
    var whole := NumeralValue(s[..k]) as real;
    if k == |s| then
      if k > 0 then Some(whole) else None
    else if s[k] != '.' then None
    else
      var frac := s[k + 1..];
      if AllDigits(frac) && (k > 0 || frac != []) then
        Some(whole + NumeralValue(frac) as real / Pow10(|frac|) as real)
      else None
  }

  function ParseSigned(s: string): Option<real>
  {
    if s != [] && s[0] == '-' then
      match ParseUnsigned(s[1..])
      case Some(v) => Some(-v)
      case None => None
    else if s != [] && s[0] == '+' then ParseUnsigned(s[1..])
    else ParseUnsigned(s)
  }

  /**
   * `float(s)` on decimal text: surrounding whitespace, an optional sign, digits
   * with an optional fractional part. `None` where `float` raises `ValueError`.
   */
  function ParsePrice(s: string): Option<real>
  {
    ParseSigned(Strip(s))
  }

  /** A run of digits followed by a non-digit is exactly what `LeadingDigits` measures. */
  lemma LeadingDigitsOf(d: string, rest: string)
    requires AllDigits(d)
    requires rest != [] && !IsDigit(rest[0])
    ensures LeadingDigits(d + rest) == |d|
    decreases |d|
  {
    if d != [] {
      assert (d + rest)[1..] == d[1..] + rest;
      LeadingDigitsOf(d[1..], rest);
    } else {
      assert d + rest == rest;
    }
  }

  /** The unsigned text of `n` cents: whole part, point, two digits. */
  function CentsText(n: nat): string
  {
    Decimal(n / 100) + "." + [DigitChar(n % 100 / 10), DigitChar(n % 10)]
  }

  /** A digit string is its own leading run of digits. */
  lemma {:induction false} LeadingDigitsAll(d: string)
    requires AllDigits(d)
    ensures LeadingDigits(d) == |d|
  {
    if d != [] {
      LeadingDigitsAll(d[1..]);
    }
  }

  /** `float` of a nonempty digit string is its numeral value. */
  lemma ParsePriceDigits(d: string)
    requires d != [] && AllDigits(d)
    ensures ParsePrice(d) == Some(NumeralValue(d) as real)
  {
    assert IsDigit(d[0]) && IsDigit(d[|d| - 1]);
    StripKeepsTrimmed(d);
    LeadingDigitsAll(d);
    assert d[..|d|] == d;
  }

  /** The text of an amount of cents holds only digits and its one decimal point. */
  lemma CentsTextChars(n: nat)
    ensures forall c :: c in CentsText(n) ==> IsDigit(c) || c == '.'
  {
    var whole := Decimal(n / 100);
    var two := [DigitChar(n % 100 / 10), DigitChar(n % 10)];
    assert CentsText(n) == whole + "." + two;
    forall c | c in whole ensures IsDigit(c) {
      var i :| 0 <= i < |whole| && whole[i] == c;
    }
  }

  /** The two digits after the point are worth the amount's cents part. */
  lemma CentsDigitsValue(n: nat)
    ensures var two := [DigitChar(n % 100 / 10), DigitChar(n % 10)];
      AllDigits(two) && NumeralValue(two) == n % 100
  {
    var two := [DigitChar(n % 100 / 10), DigitChar(n % 10)];
    assert two[..1] == [two[0]];
    assert NumeralValue(two[..1]) == n % 100 / 10;
  }

  /** The text of an amount of cents splits at its point into the whole part and the two digits. */
  lemma CentsTextParts(n: nat)
    ensures var whole := Decimal(n / 100); var body := CentsText(n);
      LeadingDigits(body) == |whole| < |body| && body[|whole|] == '.'
      && body[..|whole|] == whole && body[|whole| + 1..] == [DigitChar(n % 100 / 10), DigitChar(n % 10)]
  {
    var whole := Decimal(n / 100);
    var two := [DigitChar(n % 100 / 10), DigitChar(n % 10)];
    assert CentsText(n) == whole + ("." + two);
    LeadingDigitsOf(whole, "." + two);
  }

  /** `float` reads the text of an amount of cents back as that amount. */
  lemma ParseCentsText(n: nat)
    ensures ParseUnsigned(CentsText(n)) == Some(n as real / 100.0)
  {
    var whole := Decimal(n / 100);
    var body := CentsText(n);
    CentsTextParts(n);
    CentsDigitsValue(n);
    var frac := body[|whole| + 1..];
    assert Pow10(|frac|) == 100;
    assert NumeralValue(body[..|whole|]) == n / 100;
    assert ParseUnsigned(body) == Some((n / 100) as real + (n % 100) as real / 100.0);
    assert n == 100 * (n / 100) + n % 100;
  }

  lemma ParseSignedCentsText(n: nat, negative: bool)
    ensures ParseSigned((if negative then "-" else "") + CentsText(n))
         == Some(if negative then -(n as real / 100.0) else n as real / 100.0)
  {
    var body := CentsText(n);
    ParseCentsText(n);
    if negative {
      assert ("-" + body)[1..] == body;
    } else {
      assert "" + body == body;
      var whole := Decimal(n / 100);
      assert IsDigit(whole[0]);
      assert body[0] == whole[0];
      assert body != [] && body[0] != '-' && body[0] != '+';
    }
  }

  /**
   * The shape of `f"{x:.2f}"`: a minus sign exactly for a negative price, then
   * at least one digit, the point and exactly two digits.
   */
  lemma FormatCentsShape(x: real)
    ensures var s := FormatCents(x);
      |s| >= 4 && (s[0] == '-' <==> x < 0.0)
      && s[|s| - 3] == '.' && IsDigit(s[|s| - 2]) && IsDigit(s[|s| - 1])
      && forall i :: (if x < 0.0 then 1 else 0) <= i < |s| - 3 ==> IsDigit(s[i])
  {
    var whole := Decimal(Cents(x) / 100);
    var two := [DigitChar(Cents(x) % 100 / 10), DigitChar(Cents(x) % 10)];
    var sign: string := if x < 0.0 then "-" else "";
    var s := FormatCents(x);
    assert s == sign + whole + "." + two;
    assert IsDigit(whole[0]);
    forall i | |sign| <= i < |s| - 3 ensures IsDigit(s[i]) {
      assert s[i] == whole[i - |sign|];
    }
  }

  /** The text `FormatCents` writes has no surrounding whitespace, so `float` reads its body directly. */
  lemma FormatCentsStripped(x: real)
    ensures Strip(FormatCents(x)) == FormatCents(x)
  {
    var body := CentsText(Cents(x));
    assert IsDigit(body[0]) && IsDigit(body[|body| - 1]);
    var s := FormatCents(x);
    assert s[|s| - 1] == body[|body| - 1];
    StripKeepsTrimmed(s);
  }

  /** Reading back the two-decimal text of a price gives the price rounded to cents. */
  lemma ParseFormatCents(x: real)
    ensures ParsePrice(FormatCents(x)) == Some(RoundCents(x))
  {
    var s := FormatCents(x);
    var v := if x < 0.0 then -(Cents(x) as real / 100.0) else Cents(x) as real / 100.0;
    assert RoundCents(x) == v;
    assert ParseSigned(s) == Some(v) by {
      assert s == (if x < 0.0 then "-" else "") + CentsText(Cents(x));
      ParseSignedCentsText(Cents(x), x < 0.0);
    }
    assert ParsePrice(s) == ParseSigned(s) by {
      FormatCentsStripped(x);
    }
  }
}
