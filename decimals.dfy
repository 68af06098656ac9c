/** Amounts as exact decimals: the text of the amount field read as
    `float(text)` reads a plain decimal literal (main.py, `add_expense`). */
module Decimals {
  import opened Wrappers
  import opened Text
  import opened Digits

  /** The number `units / 10^scale`; "12.50" is `Decimal(1250, 2)`. */
  datatype Decimal = Decimal(units: int, scale: nat)

  /** The amount is greater than zero. */
  predicate IsPositive(d: Decimal) {
    d.units > 0
  }

  /** The amount is greater than the whole number `k`. */
  predicate Exceeds(d: Decimal, k: int) {
    d.units > k * Pow10(d.scale)
  }

  /** Two decimals denote the same number ("5", "5.0" and "05.00" do). */
  predicate SameValue(a: Decimal, b: Decimal) {
    a.units * Pow10(b.scale) == b.units * Pow10(a.scale)
  }

  /** How many digits `s` starts with. */
  function LeadingDigits(s: string): (k: nat)
    ensures k <= |s| && AllDigits(s[..k])
    ensures k < |s| ==> !IsDigit(s[k])
  {
    if s != [] && IsDigit(s[0]) then
      var k := 1 + LeadingDigits(s[1..]);
      assert s[..k] == [s[0]] + s[1..][..k - 1];
      k
    else
      0
  }

  /** An unsigned literal: `digits`, `digits.`, `digits.digits` or `.digits`. */
  function ParseUnsigned(s: string): (r: Option<Decimal>)
    ensures r.Some? ==> r.value.units >= 0
  {
    var k := LeadingDigits(s);
    var rest := s[k..];
    if rest == [] then
      if k > 0 then Some(Decimal(ValueOf(s), 0)) else None
    else if rest[0] == '.' && AllDigits(rest[1..]) && (k > 0 || |rest| > 1) then
      assert AllDigits(s[..k] + rest[1..]);
      Some(Decimal(ValueOf(s[..k] + rest[1..]), |rest| - 1))
    else
      None
  }

  /** `float(text)` on a decimal literal with an optional sign. */
  function ParseDecimal(s: string): (r: Option<Decimal>)
    ensures r.Some? ==> s != []
    ensures r.Some? && r.value.units < 0 ==> s[0] == '-'
  {
    if s != [] && (s[0] == '+' || s[0] == '-') then
      match ParseUnsigned(s[1..])
      case None => None
      case Some(d) => Some(if s[0] == '-' then Decimal(-d.units, d.scale) else d)
    else
      ParseUnsigned(s)
  }

  function Abs(n: int): nat {
    if n < 0 then -n else n
  }

  function Max(a: nat, b: nat): nat {
    if a < b then b else a
  }

  /** Integer digits and fraction digits, with a point between them when
      there are fraction digits. */
  function Joined(ip: string, fp: string): string {
    if fp == [] then ip else ip + ("." + fp)
  }

  /** The digits of `n`, padded with leading zeros to more than `scale`
      places. */
  function DigitsOf(n: nat, scale: nat): (digits: string)
    ensures |digits| > scale && AllDigits(digits) && ValueOf(digits) == n
  {
    var w := Max(Width(n), scale + 1);
    Pow10Monotone(Width(n), w);
    ValueOfPadded(n, w);
    Padded(n, w)
  }

  /** Digits with a point `scale` places from their end (none when `scale` is 0). */
  function PointAt(digits: string, scale: nat): (s: string)
    requires |digits| > scale
    ensures s != [] && s[0] == digits[0] && s[|s| - 1] == digits[|digits| - 1]
  {
    var k := |digits| - scale;
    Joined(digits[..k], digits[k..])
  }

  /** The magnitude `n / 10^scale` written with exactly `scale` digits after
      the point and at least one before it. */
  function UnsignedText(n: nat, scale: nat): (s: string)
    ensures s != [] && IsDigit(s[0]) && IsDigit(s[|s| - 1])
  {
    PointAt(DigitsOf(n, scale), scale)
  }

  /** Plain decimal notation: `Decimal(5, 2)` is "0.05", `Decimal(-1250, 2)` is "-12.50". */
  function FormatDecimal(d: Decimal): (s: string)
    ensures s != []
  {
    var u := UnsignedText(Abs(d.units), d.scale);
    if d.units < 0 then "-" + u else u
  }

  /** A digit text, with or without a minus sign in front, has nothing to strip. */
  lemma SignedDigitsAreStripped(u: string)
    requires u != [] && IsDigit(u[0]) && IsDigit(u[|u| - 1])
    ensures IsStripped(u) && IsStripped("-" + u)
  {
    assert ("-" + u)[0] == '-' && ("-" + u)[|u|] == u[|u| - 1];
  }

  /** `add_expense` strips the amount before parsing it; a formatted amount
      has nothing to strip. */
  lemma FormatDecimalIsStripped(d: Decimal)
    ensures IsStripped(FormatDecimal(d))
  {
    SignedDigitsAreStripped(UnsignedText(Abs(d.units), d.scale));
  }

  lemma {:induction false} Pow10Monotone(a: nat, b: nat)
    requires a <= b
    ensures Pow10(a) <= Pow10(b)
  {
    if a < b {
      Pow10Monotone(a, b - 1);
    }
  }

  lemma {:induction false} LeadingDigitsOfSplit(ip: string, rest: string)
    requires AllDigits(ip)
    requires rest == [] || !IsDigit(rest[0])
    ensures LeadingDigits(ip + rest) == |ip|
  {
    if ip == [] {
      assert ip + rest == rest;
    } else {
      assert (ip + rest)[0] == ip[0];
      assert (ip + rest)[1..] == ip[1..] + rest;
      LeadingDigitsOfSplit(ip[1..], rest);
    }
  }

  lemma SplitJoin(s: string, k: nat)
    requires k <= |s|
    ensures s[..k] + s[k..] == s
  {
  }

  /** Digits joined around a point read back as the number they spell, scaled
      by the number of fraction digits. */
  lemma ParseJoined(ip: string, fp: string)
    requires AllDigits(ip) && ip != [] && AllDigits(fp)
    ensures AllDigits(ip + fp)
    ensures ParseUnsigned(Joined(ip, fp)) == Some(Decimal(ValueOf(ip + fp), |fp|))
  {
    var s := Joined(ip, fp);
    if fp == [] {
      LeadingDigitsOfSplit(ip, []);
      assert ip + [] == ip;
    } else {
      var rest := "." + fp;
      LeadingDigitsOfSplit(ip, rest);
      assert s[|ip|..] == rest && rest[1..] == fp;
    }
  }

  /** Digits cut `scale` places from their end read back as their value at
      that scale. */
  lemma ParseSplitDigits(digits: string, scale: nat)
    requires AllDigits(digits) && |digits| > scale
    ensures ParseUnsigned(PointAt(digits, scale)) == Some(Decimal(ValueOf(digits), scale))
  {
    var k := |digits| - scale;
    SplitJoin(digits, k);
    ParseJoined(digits[..k], digits[k..]);
  }

  /** The unsigned text reads back as the magnitude and scale it was written from. */
  lemma ParseUnsignedText(n: nat, scale: nat)
    ensures ParseUnsigned(UnsignedText(n, scale)) == Some(Decimal(n, scale))
  {
    ParseSplitDigits(DigitsOf(n, scale), scale);
  }

  /** A sign in front of a text that starts with a digit applies to the
      number the text spells. */
  lemma ParseSigned(u: string, d: Decimal)
    requires u != [] && IsDigit(u[0]) && ParseUnsigned(u) == Some(d)
    ensures ParseDecimal(u) == Some(d)
    ensures ParseDecimal("-" + u) == Some(Decimal(-d.units, d.scale))
  {
    assert ("-" + u)[1..] == u;
  }

  /** Writing a decimal out and reading it back gives the same decimal. */
  lemma ParseFormatDecimal(d: Decimal)
    ensures ParseDecimal(FormatDecimal(d)) == Some(d)
  {
    var u := UnsignedText(Abs(d.units), d.scale);
    ParseUnsignedText(Abs(d.units), d.scale);
    ParseSigned(u, Decimal(Abs(d.units), d.scale));
  }

  lemma MulStrict(a: int, b: int, p: int)
    requires p > 0
    ensures a < b <==> a * p < b * p
  {
    if a < b {
      assert b * p - a * p == (b - a) * p;
    } else {
      assert a * p - b * p == (a - b) * p;
    }
  }

  /** Whether an amount exceeds a bound depends on its value, not on how it
      was written. */
  lemma ExceedsRespectsValue(a: Decimal, b: Decimal, k: int)
    requires SameValue(a, b)
    ensures Exceeds(a, k) <==> Exceeds(b, k)
  {
    var pa, pb := Pow10(a.scale), Pow10(b.scale);
    MulStrict(k * pa, a.units, pb);
    MulStrict(k * pb, b.units, pa);
    assert k * pa * pb == k * pb * pa;
  }

  /** Positivity depends only on the value. */
  lemma IsPositiveRespectsValue(a: Decimal, b: Decimal)
    requires SameValue(a, b)
    ensures IsPositive(a) <==> IsPositive(b)
  {
    ExceedsRespectsValue(a, b, 0);
  }

  /** "12.50" reads as twelve and a half, kept at two decimal places. */
  lemma ParseTwelveFifty()
    ensures ParseDecimal("12.50") == Some(Decimal(1250, 2))
  {
    var s := "12.50";
    assert LeadingDigits(s) == 2 by {
      LeadingDigitsOfSplit("12", ".50");
      assert "12" + ".50" == s;
    }
    assert s[..2] + s[2..][1..] == "1250";
    assert ValueOf("1250") == 1250 by {
      assert "1250"[..3] == "125" && "125"[..2] == "12" && "12"[..1] == "1" && "1"[..0] == "";
    }
  }

  /** A leading minus sign negates the literal. */
  lemma ParseNegative()
    ensures ParseDecimal("-5") == Some(Decimal(-5, 0))
  {
    assert "-5"[1..] == "5" && "5"[..1] == "5";
    assert LeadingDigits("5") == 1;
  }

  /** A literal may start with its point, after a sign. */
  lemma ParseBareLeadingPoint()
    ensures ParseDecimal("+.5") == Some(Decimal(5, 1))
  {
    assert "+.5"[1..] == ".5" && LeadingDigits(".5") == 0 && ".5"[1..] == "5";
    assert ".5"[..0] + "5" == "5";
  }

  /** A literal may end with its point. */
  lemma ParseBareTrailingPoint()
    ensures ParseDecimal("5.") == Some(Decimal(5, 0))
  {
    assert "5."[..1] == "5" && "5."[1..] == ".";
    assert LeadingDigits("5.") == 1 by {
      LeadingDigitsOfSplit("5", ".");
      assert "5" + "." == "5.";
    }
    assert "5"+"."[1..] == "5";
  }

  /** Text that is not a number. */
  lemma ParseNotANumber()
    ensures ParseDecimal(".") == None
    ensures ParseDecimal("abc") == None
    ensures ParseDecimal("1.2.3") == None
  {
    assert LeadingDigits("1.2.3") == 1 by {
      LeadingDigitsOfSplit("1", ".2.3");
      assert "1" + ".2.3" == "1.2.3";
    }
    assert "1.2.3"[1..] == ".2.3";
    assert !AllDigits(".2.3"[1..]) by {
      assert ".2.3"[1..][1] == '.';
    }
  }
}
