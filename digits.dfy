/** ASCII decimal digits: reading a digit string as a number and writing a
    number as a zero-padded digit string, as `int()` and `strftime` do. */
module Digits {
  import opened Text

  predicate IsDigit(c: char) {
    '0' <= c <= '9'
  }

  predicate AllDigits(s: string) {
    forall k :: 0 <= k < |s| ==> IsDigit(s[k])
  }

  function DigitValue(c: char): (v: nat)
    requires IsDigit(c)
    ensures v < 10
  {
    c as int - '0' as int
  }

  function DigitChar(v: nat): (c: char)
    requires v < 10
    ensures IsDigit(c) && DigitValue(c) == v
  {
    ('0' as int + v) as char
  }

  function Pow10(n: nat): (p: nat)
    ensures p >= 1
  {
    if n == 0 then 1 else 10 * Pow10(n - 1)
  }

  /** The number a digit string denotes, most significant digit first. */
  function ValueOf(s: string): (n: nat)
    requires AllDigits(s)
    ensures n < Pow10(|s|)
  {
    if s == [] then 0 else ValueOf(s[..|s| - 1]) * 10 + DigitValue(s[|s| - 1])
  }

  /** The last `width` decimal digits of `n`, zero-padded on the left. */
  function Padded(n: nat, width: nat): (s: string)
    ensures |s| == width && AllDigits(s)
  {
    if width == 0 then [] else Padded(n / 10, width - 1) + [DigitChar(n % 10)]
  }

  /** The number of digits needed to write `n` without leading zeros (at least one). */
  function Width(n: nat): (w: nat)
    ensures 1 <= w && n < Pow10(w)
  {
    if n < 10 then 1 else 1 + Width(n / 10)
  }

  /** Reading back a padded string gives the number, when it fits the width. */
  lemma {:induction false} ValueOfPadded(n: nat, width: nat)
    requires n < Pow10(width)
    ensures ValueOf(Padded(n, width)) == n
  {
    if width > 0 {
      var s := Padded(n, width);
      assert s[..width - 1] == Padded(n / 10, width - 1);
      ValueOfPadded(n / 10, width - 1);
    }
  }

  lemma DivMod10(m: nat, d: nat)
    requires d < 10
    ensures (m * 10 + d) / 10 == m && (m * 10 + d) % 10 == d
  {
  }

  /** Reading a digit string and padding it back to its own length is the identity. */
  lemma {:induction false} PaddedValueOf(s: string)
    requires AllDigits(s)
    ensures Padded(ValueOf(s), |s|) == s
  {
    if s != [] {
      var init, last := s[..|s| - 1], s[|s| - 1];
      PaddedValueOf(init);
      DivMod10(ValueOf(init), DigitValue(last));
      assert Padded(ValueOf(s), |s|) == Padded(ValueOf(init), |s| - 1) + [DigitChar(DigitValue(last))];
      assert DigitChar(DigitValue(last)) == last;
      assert s == init + [last];
    }
  }

  /** Zero-padded numbers of one width compare as text exactly as they compare as numbers. */
  lemma {:induction false} PaddedOrder(x: nat, y: nat, width: nat)
    requires x < Pow10(width) && y < Pow10(width)
    ensures LexLess(Padded(x, width), Padded(y, width)) <==> x < y
  {
    if width == 0 {
      assert x == 0 && y == 0;
    } else {
      var w := width - 1;
      PaddedOrder(x / 10, y / 10, w);
      LexLessConcat(Padded(x / 10, w), [DigitChar(x % 10)], Padded(y / 10, w), [DigitChar(y % 10)]);
      if x / 10 == y / 10 {
        assert Padded(x / 10, w) == Padded(y / 10, w);
      } else {
        ValueOfPadded(x / 10, w);
        ValueOfPadded(y / 10, w);
        assert Padded(x / 10, w) != Padded(y / 10, w);
      }
    }
  }
}
