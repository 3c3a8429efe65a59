/** A model of the one java.text.DecimalFormat configuration the navigation service uses:
    the pattern "#.##" with RoundingMode.DOWN, applied to a non-negative exact value.

    The pattern prints at least one integer digit (with "#.##" the integer part of 0.5 is
    "0"), no grouping separators, and at most two fraction digits with trailing zeros dropped;
    RoundingMode.DOWN truncates toward zero. The decimal separator is taken to be '.'.
    A reader of the same notation, ParseHundredths, is the inverse used to state what a
    formatted string means. */
module DecimalFormat {

  datatype Option<T> = None | Some(value: T)

  /** A positive denominator. */
  type Pos = x: nat | x > 0 witness 1

  predicate IsDigit(c: char) {
    '0' <= c <= '9'
  }

  predicate AllDigits(s: string) {
    forall i :: 0 <= i < |s| ==> IsDigit(s[i])
  }

  function DigitValue(c: char): nat
    requires IsDigit(c)
  {
    c as int - '0' as int
  }

  function DigitChar(d: nat): (c: char)
    requires d < 10
    ensures IsDigit(c) && DigitValue(c) == d
  {
    ('0' as int + d) as char
  }

  /** The decimal numeral of n: at least one digit and no leading zero. */
  function NatToString(n: nat): (s: string)
    ensures |s| > 0 && AllDigits(s)
    ensures s[0] == '0' <==> n == 0
    ensures n == 0 ==> s == "0"
  {
    if n < 10 then [DigitChar(n)] else NatToString(n / 10) + [DigitChar(n % 10)]
  }

  /** The value of a string of decimal digits (the empty string reads as 0). */
  function ParseNat(s: string): nat
    requires AllDigits(s)
  {
    if |s| == 0 then 0 else ParseNat(s[..|s| - 1]) * 10 + DigitValue(s[|s| - 1])
  }

  lemma {:induction false} ParseNatToString(n: nat)
    ensures ParseNat(NatToString(n)) == n
  {
    var s := NatToString(n);
    if n < 10 {
      assert s[..|s| - 1] == [];
    } else {
      assert s[..|s| - 1] == NatToString(n / 10);
      ParseNatToString(n / 10);
    }
  }

  /** The number of hundredths RoundingMode.DOWN keeps of the value num / den (two fraction
      digits, as "#.##" allows). */
  function Truncate(num: nat, den: Pos): (h: nat)
    ensures h * den <= num * 100 < (h + 1) * den
  {
    var p := num * 100;
    var h := p / den;
    assert h * den + p % den == p;
    assert (h + 1) * den == h * den + den;
    h
  }

  /** The shape of a "#.##" text: it starts and ends with a digit, a '.' is followed by one or
      two digits, a fraction never ends in '0', and the integer part has no leading zero
      unless it is the lone digit "0". */
  predicate Canonical(s: string) {
    && |s| > 0 && IsDigit(s[0]) && IsDigit(s[|s| - 1])
    && (forall i :: 0 <= i < |s| && s[i] == '.' ==> 0 < i && |s| - 3 <= i)
    && ('.' in s ==> s[|s| - 1] != '0')
    && (s[0] == '0' ==> |s| == 1 || s[1] == '.')
  }

  /** The "#.##" text of h hundredths: the integer part, then '.' and one or two fraction
      digits unless the fraction is zero, with trailing zeros dropped. */
  function FormatHundredths(h: nat): (s: string)
    ensures Canonical(s)
  {
    var whole := NatToString(h / 100);
    var frac := h % 100;
    if frac == 0 then whole
    else if frac % 10 == 0 then whole + "." + [DigitChar(frac / 10)]
    else whole + "." + [DigitChar(frac / 10), DigitChar(frac % 10)]
  }

  /** Reads a decimal with at most two fraction digits as a number of hundredths. */
  function ParseHundredths(s: string): Option<nat> {
    if |s| > 3 && s[|s| - 3] == '.' && AllDigits(s[..|s| - 3])
       && IsDigit(s[|s| - 2]) && IsDigit(s[|s| - 1])
    then
      Some(ParseNat(s[..|s| - 3]) * 100 + DigitValue(s[|s| - 2]) * 10 + DigitValue(s[|s| - 1]))
    else if |s| > 2 && s[|s| - 2] == '.' && AllDigits(s[..|s| - 2]) && IsDigit(s[|s| - 1]) then
      Some(ParseNat(s[..|s| - 2]) * 100 + DigitValue(s[|s| - 1]) * 10)
    else if |s| > 0 && AllDigits(s) then
      Some(ParseNat(s) * 100)
    else
      None
  }

  lemma {:induction false} FormatHundredthsRoundTrip(h: nat)
    ensures ParseHundredths(FormatHundredths(h)) == Some(h)
  {
    ParseNatToString(h / 100);
    if h % 100 == 0 {
      RoundTripWhole(h);
    } else if h % 100 % 10 == 0 {
      RoundTripOneDigit(h);
    } else {
      RoundTripTwoDigits(h);
    }
  }

  lemma {:induction false} RoundTripWhole(h: nat)
    requires h % 100 == 0 && ParseNat(NatToString(h / 100)) == h / 100
    ensures ParseHundredths(FormatHundredths(h)) == Some(h)
  {
    var s := FormatHundredths(h);
    assert s == NatToString(h / 100);
    assert |s| > 3 ==> s[|s| - 3] != '.';
    assert |s| > 2 ==> s[|s| - 2] != '.';
  }

  lemma {:induction false} RoundTripOneDigit(h: nat)
    requires h % 100 != 0 && h % 100 % 10 == 0 && ParseNat(NatToString(h / 100)) == h / 100
    ensures ParseHundredths(FormatHundredths(h)) == Some(h)
  {
    var whole := NatToString(h / 100);
    var s := FormatHundredths(h);
    assert s == whole + ['.', DigitChar(h % 100 / 10)];
    assert |s| > 3 ==> s[|s| - 3] == whole[|whole| - 1] && s[|s| - 3] != '.';
    assert s[..|s| - 2] == whole;
  }

  lemma {:induction false} RoundTripTwoDigits(h: nat)
    requires h % 100 % 10 != 0 && ParseNat(NatToString(h / 100)) == h / 100
    ensures ParseHundredths(FormatHundredths(h)) == Some(h)
  {
    var whole := NatToString(h / 100);
    var s := FormatHundredths(h);
    assert s == whole + ['.', DigitChar(h % 100 / 10), DigitChar(h % 100 % 10)];
    assert s[..|s| - 3] == whole;
  }

  /** Two different numbers of hundredths never print the same text. */
  lemma FormatHundredthsInjective(h1: nat, h2: nat)
    requires FormatHundredths(h1) == FormatHundredths(h2)
    ensures h1 == h2
  {
    FormatHundredthsRoundTrip(h1);
    FormatHundredthsRoundTrip(h2);
  }

  /** A digit string without a leading zero (other than "0" itself) is the numeral of its
      value. */
  lemma {:induction false} NatToStringParseNat(t: string)
    requires |t| > 0 && AllDigits(t) && (t[0] == '0' ==> |t| == 1)
    ensures NatToString(ParseNat(t)) == t
  {
    var init := t[..|t| - 1];
    var d := DigitValue(t[|t| - 1]);
    if |t| == 1 {
      assert init == [];
      assert t == [DigitChar(d)];
    } else {
      ParseNatPositive(init);
      NatToStringParseNat(init);
      var n := ParseNat(t);
      assert n / 10 == ParseNat(init) && n % 10 == d;
      assert t == init + [DigitChar(d)];
    }
  }

  /** A digit string that does not start with '0' has a positive value. */
  lemma {:induction false} ParseNatPositive(t: string)
    requires |t| > 0 && AllDigits(t) && t[0] != '0'
    ensures ParseNat(t) > 0
  {
    if |t| > 1 {
      ParseNatPositive(t[..|t| - 1]);
    }
  }

  /** A canonical text that reads as h hundredths is the text of h: the "#.##" shape and the
      value together determine the string. */
  lemma {:induction false} CanonicalUnique(s: string)
    requires Canonical(s) && ParseHundredths(s).Some?
    ensures s == FormatHundredths(ParseHundredths(s).value)
  {
    if '.' !in s {
      CanonicalUniqueWhole(s);
    } else {
      var i :| 0 <= i < |s| && s[i] == '.';
      if i == |s| - 3 {
        CanonicalUniqueTwoDigits(s);
      } else {
        CanonicalUniqueOneDigit(s);
      }
    }
  }

  lemma {:induction false} CanonicalUniqueWhole(s: string)
    requires Canonical(s) && ParseHundredths(s).Some? && '.' !in s
    ensures s == FormatHundredths(ParseHundredths(s).value)
  {
    var h := ParseHundredths(s).value;
    assert AllDigits(s);
    NatToStringParseNat(s);
    assert h / 100 == ParseNat(s) && h % 100 == 0;
  }

  lemma {:induction false} CanonicalUniqueTwoDigits(s: string)
    requires Canonical(s) && ParseHundredths(s).Some? && |s| >= 3 && s[|s| - 3] == '.'
    ensures s == FormatHundredths(ParseHundredths(s).value)
  {
    var h, whole := ParseHundredths(s).value, s[..|s| - 3];
    var c1, c2 := s[|s| - 2], s[|s| - 1];
    CanonicalParts(s, 3);
    var p := ParseNat(whole);
    assert h == p * 100 + DigitValue(c1) * 10 + DigitValue(c2);
    FormatTwoDigits(p, c1, c2);
    assert FormatHundredths(h) == NatToString(p) + ['.', c1, c2];
    NatToStringParseNat(whole);
    SplitEnd(s, 3);
  }

  lemma {:induction false} CanonicalUniqueOneDigit(s: string)
    requires Canonical(s) && ParseHundredths(s).Some? && |s| >= 2 && s[|s| - 2] == '.'
    ensures s == FormatHundredths(ParseHundredths(s).value)
  {
    var h, whole := ParseHundredths(s).value, s[..|s| - 2];
    var c1 := s[|s| - 1];
    CanonicalParts(s, 2);
    var p := ParseNat(whole);
    assert h == p * 100 + DigitValue(c1) * 10;
    FormatOneDigit(p, c1);
    assert FormatHundredths(h) == NatToString(p) + ['.', c1];
    NatToStringParseNat(whole);
    SplitEnd(s, 2);
  }

  /** s is its first |s| - k characters followed by its last k, written out for k = 2, 3. */
  lemma {:induction false} SplitEnd(s: string, k: nat)
    requires (k == 2 || k == 3) && |s| >= k
    ensures k == 2 ==> s == s[..|s| - 2] + [s[|s| - 2], s[|s| - 1]]
    ensures k == 3 ==> s == s[..|s| - 3] + [s[|s| - 3], s[|s| - 2], s[|s| - 1]]
  {
  }

  /** A canonical text with its '.' at |s| - k has an integer part without a leading zero
      before it and k - 1 digits after it, the last of them not '0'. */
  lemma {:induction false} CanonicalParts(s: string, k: nat)
    requires Canonical(s) && ParseHundredths(s).Some? && (k == 2 || k == 3) && |s| >= k && s[|s| - k] == '.'
    ensures var whole := s[..|s| - k];
            && |whole| > 0 && AllDigits(whole) && (whole[0] == '0' ==> |whole| == 1)
            && (k == 3 ==> IsDigit(s[|s| - 2])) && s[|s| - 1] != '0'
            && ParseHundredths(s).value == ParseNat(whole) * 100
                 + (if k == 3 then DigitValue(s[|s| - 2]) * 10 + DigitValue(s[|s| - 1]) else DigitValue(s[|s| - 1]) * 10)
  {
    var whole := s[..|s| - k];
    assert k == 2 && |s| >= 3 ==> s[|s| - 3] != '.';
    assert AllDigits(whole);
    assert |whole| > 1 ==> whole[1] == s[1];
  }

  /** The text of p and the fraction digits c1 c2, the last of them not '0'. */
  lemma {:induction false} FormatTwoDigits(p: nat, c1: char, c2: char)
    requires IsDigit(c1) && IsDigit(c2) && c2 != '0'
    ensures FormatHundredths(p * 100 + DigitValue(c1) * 10 + DigitValue(c2)) == NatToString(p) + ['.', c1, c2]
  {
    var d1, d2 := DigitValue(c1), DigitValue(c2);
    var h := p * 100 + d1 * 10 + d2;
    DivMod100(p, d1 * 10 + d2);
    DivMod10(d1, d2);
    var frac := h % 100;
    assert h / 100 == p && frac == d1 * 10 + d2;
    assert frac / 10 == d1 && frac % 10 == d2 != 0;
    assert DigitChar(d1) == c1 && DigitChar(d2) == c2;
    assert FormatHundredths(h) == NatToString(h / 100) + "." + [DigitChar(frac / 10), DigitChar(frac % 10)];
  }

  /** The text of p and the one fraction digit c1, which is not '0'. */
  lemma {:induction false} FormatOneDigit(p: nat, c1: char)
    requires IsDigit(c1) && c1 != '0'
    ensures FormatHundredths(p * 100 + DigitValue(c1) * 10) == NatToString(p) + ['.', c1]
  {
    var d1 := DigitValue(c1);
    var h := p * 100 + d1 * 10;
    DivMod100(p, d1 * 10);
    DivMod10(d1, 0);
    var frac := h % 100;
    assert h / 100 == p && frac == d1 * 10;
    assert frac / 10 == d1 && frac % 10 == 0 && frac != 0;
    assert DigitChar(d1) == c1;
    assert FormatHundredths(h) == NatToString(h / 100) + "." + [DigitChar(frac / 10)];
  }

  lemma {:induction false} DivMod100(q: nat, r: nat)
    requires r < 100
    ensures (q * 100 + r) / 100 == q && (q * 100 + r) % 100 == r
  {
  }

  lemma {:induction false} DivMod10(q: nat, r: nat)
    requires r < 10
    ensures (q * 10 + r) / 10 == q && (q * 10 + r) % 10 == r
  {
  }

  /** DecimalFormat("#.##") with RoundingMode.DOWN applied to num / den: the text reads back as
      the value truncated toward zero to two fraction digits. */
  function Format(num: nat, den: Pos): (s: string)
    ensures ParseHundredths(s).Some?
    ensures var h := ParseHundredths(s).value; h * den <= num * 100 < (h + 1) * den
  {
    var h := Truncate(num, den);
    FormatHundredthsRoundTrip(h);
    FormatHundredths(h)
  }

  /** The text of Format has the "#.##" shape, and it is the only text of that shape that
      reads back as num / den truncated to two fraction digits. */
  lemma {:induction false} FormatCanonical(num: nat, den: Pos, s: string)
    ensures Canonical(Format(num, den))
    ensures Canonical(s) && ParseHundredths(s) == Some(Truncate(num, den)) ==> s == Format(num, den)
  {
    if Canonical(s) && ParseHundredths(s) == Some(Truncate(num, den)) {
      CanonicalUnique(s);
    }
  }
}
