/**
  The numeric detector and formatter of the page script: `isNumeric`, `parseNumber` and
  `formatNumber`, with the slice of JavaScript's `parseFloat` and `toLocaleString('en-US')`
  they rely on.

  Numbers are integers counted in thousandths (`Milli`), the precision `toLocaleString('en-US')`
  shows. Reading keeps the first three fraction digits of a decimal and drops the rest, and the
  integers are exact where a double would round to 53 significant bits.
*/
module Numbers {
  import Strings

  /** A decimal number counted in thousandths: 1500 stands for 1.5. */
  type Milli = int

  const Unit: nat := 1000

  /**
    The least magnitude an IEEE-754 double rounds to Infinity under round-to-nearest:
    2^1024 - 2^970, the largest finite double plus half a unit in its last place.
  */
  const Overflow: nat := 179769313486231580793728971405303415079934132710037826936173778980444968292764750946649017977587207096330286416692887910946555547851940402630657488671505820681908902000708383676273854845817711531764475730270069855571366959622842914819860834936475292719074168444365510704342711559699508093042880177904174497792

  function Abs(x: int): nat {
    if x < 0 then -x else x
  }

  // ---------------------------------------------------------------- digits

  predicate IsDigit(c: char) {
    '0' <= c <= '9'
  }

  predicate AllDigits(s: string) {
    forall i | 0 <= i < |s| :: IsDigit(s[i])
  }

  /** The value of a digit character; other characters never reach it and count as 0. */
  function DigitValue(c: char): (d: nat)
    ensures d < 10
  {
    if IsDigit(c) then c as int - '0' as int else 0
  }

  function DigitChar(d: nat): (c: char)
    requires d < 10
    ensures IsDigit(c) && DigitValue(c) == d
  {
    ('0' as int + d) as char
  }

  /** The value of a string of decimal digits, most significant first. */
  function DigitsValue(s: string): nat
    decreases |s|
  {
    if |s| == 0 then 0 else DigitsValue(s[..|s| - 1]) * 10 + DigitValue(s[|s| - 1])
  }

  /** The decimal digits of `n` without leading zeros ("0" for zero). */
  function NatToDigits(n: nat): (r: string)
    ensures |r| > 0 && AllDigits(r)
    ensures |r| > 1 ==> r[0] != '0'
    ensures DigitsValue(r) == n
  {
    if n < 10 then [DigitChar(n)]
    else
      var r := NatToDigits(n / 10) + [DigitChar(n % 10)];
      assert r[..|r| - 1] == NatToDigits(n / 10);
      r
  }

  /** The end of the run of decimal digits in `s` that starts at index `i`. */
  function RunEnd(s: string, i: nat): (n: nat)
    requires i <= |s|
    ensures i <= n <= |s|
    decreases |s| - i
  {
    if i < |s| && IsDigit(s[i]) then RunEnd(s, i + 1) else i
  }

  /** The run holds only digits and stops at a non-digit or at the end. */
  lemma {:induction false} RunEndSpec(s: string, i: nat)
    requires i <= |s|
    ensures forall k | i <= k < RunEnd(s, i) :: IsDigit(s[k])
    ensures RunEnd(s, i) < |s| ==> !IsDigit(s[RunEnd(s, i)])
    decreases |s| - i
  {
    if i < |s| && IsDigit(s[i]) {
      RunEndSpec(s, i + 1);
    }
  }

  /** A run of digits ends exactly where the digits stop. */
  lemma {:induction false} RunEndAt(s: string, i: nat, j: nat)
    requires i <= j <= |s|
    requires forall k | i <= k < j :: IsDigit(s[k])
    requires j < |s| ==> !IsDigit(s[j])
    ensures RunEnd(s, i) == j
    decreases j - i
  {
    if i < j {
      RunEndAt(s, i + 1, j);
    }
  }

  /** The value of three digits, spelled out. */
  lemma ThreeDigitValue(g: string)
    requires |g| == 3
    ensures DigitsValue(g) == 100 * DigitValue(g[0]) + 10 * DigitValue(g[1]) + DigitValue(g[2])
  {
    assert g[..2][..1] == g[..1] && g[..1][..0] == [];
    assert DigitsValue(g[..1]) == DigitValue(g[0]);
    assert DigitsValue(g[..2]) == DigitsValue(g[..1]) * 10 + DigitValue(g[1]);
  }

  /** The first three fraction digits, padded with zeros, as thousandths. */
  function Frac3(f: string): (r: nat)
    ensures r < Unit
  {
    if |f| == 0 then 0
    else
      var g := (f + "000")[..3];
      ThreeDigitValue(g);
      DigitsValue(g)
  }

  // ---------------------------------------------------------------- parsing

  /** The text after an optional leading character from `signs`. */
  function DropSign(t: string, signs: set<char>): string {
    if |t| > 0 && t[0] in signs then t[1..] else t
  }

  /** The fraction digits that follow a point at index `n` of `u`, if there is a point there. */
  function FractionAfter(u: string, n: nat): string
    requires n <= |u|
  {
    if n < |u| && u[n] == '.' then u[n + 1..RunEnd(u, n + 1)] else ""
  }

  /** What the unsigned reader finds at the start of a string. */
  datatype Reading = NoDigits | TooLarge | Exact(m: nat)

  /**
    Reads, as a prefix of `u`, digits and an optional point with fraction digits: nothing when
    there is no digit on either side of the point, too large when the integer part overflows.
  */
  function ParseUnsigned(u: string): Reading {
    var n := RunEnd(u, 0);
    var fp := FractionAfter(u, n);
    if n == 0 && |fp| == 0 then NoDigits
    else if DigitsValue(u[..n]) >= Overflow then TooLarge
    else Exact(DigitsValue(u[..n]) * Unit + Frac3(fp))
  }

  /** `m`, negated when `neg`. */
  function Signed(neg: bool, m: nat): (v: int)
    ensures Abs(v) == m
    ensures v < 0 ==> neg
  {
    var x: int := m;
    if neg then -x else x
  }

  /** A JavaScript number as the page script sees it: NaN, an infinity, or a finite value. */
  datatype Float = NaN | Infinite(negative: bool) | Finite(value: Milli)

  /** The number an unsigned reading stands for once the sign is applied. */
  function SignReading(neg: bool, r: Reading): (x: Float)
    ensures x.NaN? <==> r.NoDigits?
    ensures x.Finite? <==> r.Exact?
    ensures x.Finite? ==> Abs(x.value) == r.m && (x.value < 0 ==> neg)
  {
    match r
    case NoDigits => NaN
    case TooLarge => Infinite(neg)
    case Exact(m) => Finite(Signed(neg, m))
  }

  /**
    `parseFloat` restricted to what the page script feeds it: leading whitespace is skipped,
    then an optional sign, then either the "Infinity" literal or digits and an optional point
    with fraction digits, read as a prefix. A value past the double range is an infinity.
  */
  function ParseFloat(s: string): (x: Float) {
    var t := Strings.TrimStart(s);
    var neg := |t| > 0 && t[0] == '-';
    var u := DropSign(t, {'-', '+'});
    if Strings.StartsWith(u, "Infinity") then Infinite(neg)
    else SignReading(neg, ParseUnsigned(u))
  }

  /** `parseNumber`: drop every comma, parse, and fall back to 0 for a non-finite result. */
  function ParseNumber(s: string): (r: Milli) {
    var x := ParseFloat(Strings.RemoveChar(s, ','));
    if x.Finite? then x.value else 0
  }

  /** Text made of an optional minus, integer digits and an optional point with digits. */
  function DecimalText(neg: bool, d: string, fr: string): string {
    (if neg then "-" else "") + d + fr
  }

  /** `fr` is empty, or a point followed by digits. */
  predicate FractionText(fr: string) {
    fr == "" || (fr[0] == '.' && AllDigits(fr[1..]))
  }

  /** The thousandths a fraction text stands for. */
  function FractionValue(fr: string): (r: nat)
    requires FractionText(fr)
    ensures r < Unit
  {
    if fr == "" then 0 else Frac3(fr[1..])
  }

  /** Integer digits followed by a fraction text: where the reader's digit runs end. */
  lemma DecimalSplit(d: string, fr: string, u: string)
    requires AllDigits(d) && FractionText(fr)
    requires u == d + fr
    ensures RunEnd(u, 0) == |d| && u[..|d|] == d
    ensures FractionAfter(u, |d|) == if fr == "" then "" else fr[1..]
  {
    RunEndAt(u, 0, |d|);
    if fr != "" {
      RunEndAt(u, |d| + 1, |u|);
      assert u[|d| + 1..|u|] == fr[1..];
    }
  }

  /** The unsigned reader, in terms of where its integer digits end and the fraction digits it takes. */
  lemma ParseUnsignedAt(u: string, n: nat, fp: string)
    requires n <= |u| && RunEnd(u, 0) == n && FractionAfter(u, n) == fp
    ensures ParseUnsigned(u)
      == if n == 0 && |fp| == 0 then NoDigits
         else if DigitsValue(u[..n]) >= Overflow then TooLarge
         else Exact(DigitsValue(u[..n]) * Unit + Frac3(fp))
  {
  }

  /** What the unsigned reader should find in integer digits `d` followed by a fraction text `fr`. */
  function DecimalReading(d: string, fr: string): Reading
    requires FractionText(fr)
  {
    if |d| == 0 && |fr| <= 1 then NoDigits
    else if DigitsValue(d) >= Overflow then TooLarge
    else Exact(DigitsValue(d) * Unit + FractionValue(fr))
  }

  /** The unsigned reader consumes integer digits and a fraction text completely. */
  lemma ParseUnsignedDecimal(d: string, fr: string, u: string)
    requires AllDigits(d) && FractionText(fr)
    requires u == d + fr
    ensures ParseUnsigned(u) == DecimalReading(d, fr)
  {
    DecimalSplit(d, fr, u);
    var fp := if fr == "" then "" else fr[1..];
    ParseUnsignedAt(u, |d|, fp);
  }

  /** `parseFloat` of text with no leading whitespace and no "Infinity": the sign, then the unsigned reader. */
  lemma ParseFloatRead(t: string, u: string)
    requires |t| == 0 || !Strings.IsWhitespace(t[0])
    requires u == DropSign(t, {'-', '+'})
    requires |u| == 0 || IsDigit(u[0]) || u[0] == '.'
    ensures ParseFloat(t) == SignReading(|t| > 0 && t[0] == '-', ParseUnsigned(u))
  {
    assert !Strings.StartsWith(u, "Infinity") by {
      if |u| > 0 {
        assert u[0] != 'I';
      }
    }
  }

  /** A decimal text is its sign followed by the unsigned part `parseFloat` reads. */
  lemma DecimalSign(neg: bool, d: string, fr: string, t: string, u: string)
    requires AllDigits(d) && FractionText(fr)
    requires t == DecimalText(neg, d, fr) && u == d + fr
    ensures |t| == 0 || !Strings.IsWhitespace(t[0])
    ensures DropSign(t, {'-', '+'}) == u
    ensures (|t| > 0 && t[0] == '-') == neg
    ensures |u| == 0 || IsDigit(u[0]) || u[0] == '.'
  {
    if neg {
      assert t == "-" + u;
    } else {
      assert t == u;
    }
    if |d| > 0 {
      assert u[0] == d[0];
    }
  }

  /** The sign applied to a decimal reading, case by case. */
  lemma DecimalFloat(neg: bool, d: string, fr: string)
    requires FractionText(fr)
    ensures SignReading(neg, DecimalReading(d, fr))
      == if |d| == 0 && |fr| <= 1 then NaN
         else if DigitsValue(d) >= Overflow then Infinite(neg)
         else Finite(Signed(neg, DigitsValue(d) * Unit + FractionValue(fr)))
  {
  }

  /**
    `parseFloat` of a sign, integer digits and a fraction text reads all of it: the value in
    thousandths, negated after a minus; NaN without any digit, an infinity of the text's sign
    once the integer part reaches the overflow threshold.
  */
  lemma ParseFloatDecimal(neg: bool, d: string, fr: string, t: string)
    requires AllDigits(d) && FractionText(fr)
    requires t == DecimalText(neg, d, fr)
    ensures ParseFloat(t)
      == if |d| == 0 && |fr| <= 1 then NaN
         else if DigitsValue(d) >= Overflow then Infinite(neg)
         else Finite(Signed(neg, DigitsValue(d) * Unit + FractionValue(fr)))
  {
    var u := d + fr;
    DecimalSign(neg, d, fr, t, u);
    ParseUnsignedDecimal(d, fr, u);
    ParseFloatRead(t, u);
    DecimalFloat(neg, d, fr);
  }

  // ---------------------------------------------------------------- classifying

  /** The body of `/^-?\d*\.?\d+$/` after the optional minus, stated declaratively. */
  predicate UnsignedPattern(b: string) {
    || (|b| > 0 && AllDigits(b))
    || exists i | 0 <= i < |b| - 1 :: b[i] == '.' && AllDigits(b[..i]) && AllDigits(b[i + 1..])
  }

  /** `/^-?\d*\.?\d+$/.test(t)`. */
  predicate MatchesNumberPattern(t: string) {
    UnsignedPattern(t) || (|t| > 0 && t[0] == '-' && UnsignedPattern(t[1..]))
  }

  /** A left-to-right recognizer of the unsigned pattern: digits, then nothing or a point and digits. */
  predicate UnsignedShape(u: string) {
    var n := RunEnd(u, 0);
    if n == |u| then n > 0
    else u[n] == '.' && n + 1 < |u| && RunEnd(u, n + 1) == |u|
  }

  /** The recognizer after the optional minus. */
  predicate NumberShape(t: string) {
    UnsignedShape(DropSign(t, {'-'}))
  }

  /** `isNumeric`: remove commas, trim, match the pattern, and require a finite parse. */
  predicate IsNumeric(s: string) {
    var t := Strings.Trim(Strings.RemoveChar(s, ','));
    NumberShape(t) && ParseFloat(t).Finite?
  }

  /** The integer digits of a pattern-matching string (those before the point). */
  function IntegerDigits(t: string): string {
    var u := DropSign(t, {'-'});
    u[..RunEnd(u, 0)]
  }

  lemma UnsignedPatternNoSign(b: string)
    requires UnsignedPattern(b)
    ensures |b| > 0 && (IsDigit(b[0]) || b[0] == '.')
    ensures IsDigit(b[|b| - 1])
  {
    if !(|b| > 0 && AllDigits(b)) {
      var i :| 0 <= i < |b| - 1 && b[i] == '.' && AllDigits(b[..i]) && AllDigits(b[i + 1..]);
      if i > 0 {
        assert b[..i][0] == b[0];
      }
      assert b[i + 1..][|b| - i - 2] == b[|b| - 1];
    }
  }

  /** The optional minus of the pattern is the one `DropSign` removes. */
  lemma PatternDropSign(t: string)
    ensures MatchesNumberPattern(t) <==> UnsignedPattern(DropSign(t, {'-'}))
  {
    if UnsignedPattern(t) {
      UnsignedPatternNoSign(t);
    }
  }

  /** Every string of the declarative unsigned pattern has the recognizer's shape. */
  lemma PatternIsUnsignedShape(u: string)
    requires UnsignedPattern(u)
    ensures UnsignedShape(u)
  {
    if |u| > 0 && AllDigits(u) {
      RunEndAt(u, 0, |u|);
    } else {
      var i :| 0 <= i < |u| - 1 && u[i] == '.' && AllDigits(u[..i]) && AllDigits(u[i + 1..]);
      assert forall k | 0 <= k < i :: u[k] == u[..i][k];
      RunEndAt(u, 0, i);
      assert forall k | i + 1 <= k < |u| :: u[k] == u[i + 1..][k - i - 1];
      RunEndAt(u, i + 1, |u|);
    }
  }

  /** Every string of the recognizer's shape matches the declarative unsigned pattern. */
  lemma UnsignedShapeIsPattern(u: string)
    requires UnsignedShape(u)
    ensures UnsignedPattern(u)
  {
    var n := RunEnd(u, 0);
    RunEndSpec(u, 0);
    if n < |u| {
      RunEndSpec(u, n + 1);
      assert u[n] == '.' && AllDigits(u[..n]) && AllDigits(u[n + 1..]);
    }
  }

  /** The recognizer and the declarative pattern accept the same strings. */
  lemma NumberShapeIsPattern(t: string)
    ensures NumberShape(t) <==> MatchesNumberPattern(t)
  {
    PatternDropSign(t);
    var u := DropSign(t, {'-'});
    if UnsignedPattern(u) {
      PatternIsUnsignedShape(u);
    }
    if UnsignedShape(u) {
      UnsignedShapeIsPattern(u);
    }
  }

  /** A string of the unsigned recognizer's shape, cut into integer digits and fraction text. */
  lemma UnsignedSplit(u: string) returns (d: string, fr: string)
    requires UnsignedShape(u)
    ensures AllDigits(d) && FractionText(fr) && !(|d| == 0 && |fr| <= 1)
    ensures u == d + fr && d == u[..RunEnd(u, 0)]
  {
    var n := RunEnd(u, 0);
    RunEndSpec(u, 0);
    d, fr := u[..n], u[n..];
    if n < |u| {
      RunEndSpec(u, n + 1);
      assert forall k | 0 <= k < |fr| - 1 :: fr[1..][k] == u[n + 1 + k];
    }
  }

  /** A string is its optional minus followed by what `DropSign` leaves. */
  lemma SignSplit(t: string, neg: bool, d: string, fr: string)
    requires neg == (|t| > 0 && t[0] == '-') && DropSign(t, {'-'}) == d + fr
    ensures t == DecimalText(neg, d, fr)
  {
    if neg {
      assert t == "-" + (d + fr);
      assert "-" + (d + fr) == "-" + d + fr;
    } else {
      assert "" + d + fr == d + fr;
    }
  }

  /** A string of the recognizer's shape, cut into sign, integer digits and fraction text. */
  lemma ShapeDecimal(t: string) returns (neg: bool, d: string, fr: string)
    requires NumberShape(t)
    ensures AllDigits(d) && FractionText(fr) && !(|d| == 0 && |fr| <= 1)
    ensures t == DecimalText(neg, d, fr)
    ensures d == IntegerDigits(t)
  {
    neg := |t| > 0 && t[0] == '-';
    var u := DropSign(t, {'-'});
    d, fr := UnsignedSplit(u);
    SignSplit(t, neg, d, fr);
  }

  /**
    `isNumeric(s)` holds exactly when `s`, with every comma removed and then trimmed, matches
    `/^-?\d*\.?\d+$/` and its integer part stays below the double overflow threshold.
  */
  lemma IsNumericCharacterization(s: string)
    ensures var t := Strings.Trim(Strings.RemoveChar(s, ','));
      IsNumeric(s) <==> MatchesNumberPattern(t) && DigitsValue(IntegerDigits(t)) < Overflow
  {
    var t := Strings.Trim(Strings.RemoveChar(s, ','));
    NumberShapeIsPattern(t);
    if NumberShape(t) {
      var neg, d, fr := ShapeDecimal(t);
      ParseFloatDecimal(neg, d, fr, t);
    }
  }

  // ---------------------------------------------------------------- formatting

  /** Digits grouped in threes from the right, separated by commas ("1234567" to "1,234,567"). */
  function Group(d: string): string
    decreases |d|
  {
    if |d| <= 3 then d else Group(d[..|d| - 3]) + "," + d[|d| - 3..]
  }

  /** Digits hold no comma. */
  lemma DigitsNoComma(s: string)
    requires AllDigits(s)
    ensures ',' !in s
  {
  }

  /** Removing the grouping commas gives the digits back. */
  lemma {:induction false} GroupUngroup(d: string)
    requires AllDigits(d)
    ensures Strings.RemoveChar(Group(d), ',') == d
    decreases |d|
  {
    if |d| <= 3 {
      DigitsNoComma(d);
      Strings.RemoveCharAbsent(d, ',');
    } else {
      var hi, lo := d[..|d| - 3], d[|d| - 3..];
      var g := Group(hi);
      assert Group(d) == g + "," + lo;
      assert AllDigits(hi) && AllDigits(lo) by {
        assert forall k | 0 <= k < |hi| :: hi[k] == d[k];
        assert forall k | 0 <= k < |lo| :: lo[k] == d[|d| - 3 + k];
      }
      GroupUngroup(hi);
      DigitsNoComma(lo);
      Strings.RemoveCharSeparator(g, lo, ',');
      assert hi + lo == d;
    }
  }

  /** `s` without its trailing zeros. */
  function StripZeros(s: string): (r: string)
    ensures |r| <= |s|
    ensures |r| == |s| <==> |s| == 0 || s[|s| - 1] != '0'
  {
    if |s| > 0 && s[|s| - 1] == '0' then StripZeros(s[..|s| - 1]) else s
  }

  /** `StripZeros` keeps a prefix that does not end in '0' and drops only zeros. */
  lemma {:induction false} StripZerosSpec(s: string)
    ensures var r := StripZeros(s);
      && r == s[..|r|]
      && (forall i | |r| <= i < |s| :: s[i] == '0')
      && (|r| > 0 ==> r[|r| - 1] != '0')
    decreases |s|
  {
    if |s| > 0 && s[|s| - 1] == '0' {
      StripZerosSpec(s[..|s| - 1]);
    }
  }

  /** The hundreds, tens and units of a number below a thousand. */
  lemma ThreeDigitArith(f: nat)
    requires f < Unit
    ensures f / 100 < 10
    ensures 100 * (f / 100) + 10 * (f / 10 % 10) + f % 10 == f
  {
  }

  /** The three digits of `f < 1000`, with leading zeros. */
  function ThreeDigits(f: nat): (r: string)
    requires f < Unit
    ensures |r| == 3 && AllDigits(r) && DigitsValue(r) == f
  {
    ThreeDigitArith(f);
    var r := [DigitChar(f / 100), DigitChar(f / 10 % 10), DigitChar(f % 10)];
    ThreeDigitValue(r);
    r
  }

  /** The fraction part `toLocaleString` shows: nothing for zero, else a point and up to three digits. */
  function FracText(f: nat): string
    requires f < Unit
  {
    if f == 0 then "" else "." + StripZeros(ThreeDigits(f))
  }

  /** `formatNumber` on a finite value: `toLocaleString('en-US')`. */
  function FormatNumber(v: Milli): (r: string) {
    var a := Abs(v);
    (if v < 0 then "-" else "") + Group(NatToDigits(a / Unit)) + FracText(a % Unit)
  }

  /** The characters `formatNumber` prints: digits, grouping commas, a minus sign and a point. */
  predicate NumeralChar(c: char) {
    IsDigit(c) || c == ',' || c == '-' || c == '.'
  }

  /** Grouping keeps a non-empty digit string non-empty and adds nothing but commas. */
  lemma {:induction false} GroupChars(d: string)
    requires AllDigits(d)
    ensures |d| > 0 ==> |Group(d)| > 0
    ensures forall i | 0 <= i < |Group(d)| :: IsDigit(Group(d)[i]) || Group(d)[i] == ','
    decreases |d|
  {
    if |d| > 3 {
      var hi, lo := d[..|d| - 3], d[|d| - 3..];
      assert AllDigits(hi) by {
        assert forall k | 0 <= k < |hi| :: hi[k] == d[k];
      }
      GroupChars(hi);
      var g := Group(hi);
      assert Group(d) == g + "," + lo;
      forall i | 0 <= i < |Group(d)|
        ensures IsDigit(Group(d)[i]) || Group(d)[i] == ','
      {
        if i < |g| {
          assert Group(d)[i] == g[i];
        } else if i > |g| {
          assert Group(d)[i] == d[|d| - 3 + (i - |g| - 1)];
        }
      }
    }
  }

  /** What `formatNumber` prints is non-empty and made of numeral characters only. */
  lemma FormatChars(v: Milli)
    ensures |FormatNumber(v)| > 0
    ensures forall i | 0 <= i < |FormatNumber(v)| :: NumeralChar(FormatNumber(v)[i])
  {
    var a := Abs(v);
    var sg: string := if v < 0 then "-" else "";
    var d := NatToDigits(a / Unit);
    var g := Group(d);
    var fr := FracText(a % Unit);
    GroupChars(d);
    if a % Unit != 0 {
      FracRoundTrip(a % Unit);
    }
    assert forall i | 0 <= i < |fr| :: NumeralChar(fr[i]) by {
      if a % Unit != 0 {
        var z := StripZeros(ThreeDigits(a % Unit));
        assert fr == "." + z;
        assert forall i | 1 <= i < |fr| :: fr[i] == z[i - 1];
      }
    }
    var s := FormatNumber(v);
    assert s == sg + g + fr;
    forall i | 0 <= i < |s|
      ensures NumeralChar(s[i])
    {
      if i < |sg| {
      } else if i < |sg| + |g| {
        assert s[i] == g[i - |sg|];
      } else {
        assert s[i] == fr[i - |sg| - |g|];
      }
    }
  }

  /** The digits after the point, read back, give the thousandths they were made from. */
  lemma FracRoundTrip(f: nat)
    requires 0 < f < Unit
    ensures AllDigits(StripZeros(ThreeDigits(f)))
    ensures Frac3(StripZeros(ThreeDigits(f))) == f
    ensures |StripZeros(ThreeDigits(f))| > 0
    ensures StripZeros(ThreeDigits(f))[|StripZeros(ThreeDigits(f))| - 1] != '0'
  {
    var three := ThreeDigits(f);
    var z := StripZeros(three);
    StripZerosSpec(three);
    assert forall i | 0 <= i < |z| :: z[i] == three[i];
    if |z| == 0 {
      ThreeDigitValue(three);
    } else {
      assert (z + "000")[..3] == three;
    }
  }

  /** The fraction text is empty or a point followed by digits ending in a digit. */
  lemma FracTextShape(f: nat)
    requires f < Unit
    ensures var fr := FracText(f);
      && FractionText(fr)
      && (fr == "" || (|fr| > 1 && IsDigit(fr[|fr| - 1])))
      && FractionValue(fr) == f
      && ',' !in fr
  {
    if f != 0 {
      FracRoundTrip(f);
      var z := StripZeros(ThreeDigits(f));
      assert FracText(f)[1..] == z;
    }
  }

  /** The fraction text reads back as the thousandths it shows. */
  lemma FracTextValue(f: nat)
    requires f < Unit
    ensures FractionText(FracText(f)) && FractionValue(FracText(f)) == f
  {
    FracTextShape(f);
  }

  /** The formatted text once its commas are gone: sign, integer digits, fraction. */
  lemma FormatUngrouped(v: Milli)
    ensures var a := Abs(v);
      Strings.RemoveChar(FormatNumber(v), ',') == DecimalText(v < 0, NatToDigits(a / Unit), FracText(a % Unit))
  {
    var a := Abs(v);
    var sg: string := if v < 0 then "-" else "";
    var d := NatToDigits(a / Unit);
    var fr := FracText(a % Unit);
    GroupUngroup(d);
    FracTextShape(a % Unit);
    Strings.RemoveCharConcat(sg + Group(d), fr, ',');
    Strings.RemoveCharConcat(sg, Group(d), ',');
    Strings.RemoveCharAbsent(sg, ',');
    Strings.RemoveCharAbsent(fr, ',');
  }

  /** `parseNumber` of text whose comma-free form parses to a finite value gives that value. */
  lemma ParseNumberOf(s: string, t: string, x: Milli)
    requires Strings.RemoveChar(s, ',') == t && ParseFloat(t) == Finite(x)
    ensures ParseNumber(s) == x
  {
  }

  /** The thousandths of a value, split back into whole units and fraction. */
  lemma MilliSplit(v: Milli)
    ensures Signed(v < 0, Abs(v) / Unit * Unit + Abs(v) % Unit) == v
  {
  }

  /** `parseFloat` of a sign, non-empty integer digits below the overflow threshold and a fraction text. */
  lemma ParseFloatFinite(neg: bool, d: string, fr: string, t: string)
    requires |d| > 0 && AllDigits(d) && FractionText(fr) && DigitsValue(d) < Overflow
    requires t == DecimalText(neg, d, fr)
    ensures ParseFloat(t) == Finite(Signed(neg, DigitsValue(d) * Unit + FractionValue(fr)))
  {
    ParseFloatDecimal(neg, d, fr, t);
  }

  /** The digits and fraction text `formatNumber` prints for `v` stand for `v` again. */
  lemma FormattedValue(v: Milli, d: string, fr: string)
    requires d == NatToDigits(Abs(v) / Unit) && fr == FracText(Abs(v) % Unit)
    ensures FractionText(fr) && Signed(v < 0, DigitsValue(d) * Unit + FractionValue(fr)) == v
  {
    FracTextValue(Abs(v) % Unit);
    MilliSplit(v);
  }

  /**
    The round-trip the page relies on: `parseNumber(formatNumber(v)) == v`, because formatting
    only adds grouping commas and parsing removes every comma. It holds for every value whose
    integer part is a finite double.
  */
  lemma FormatParseRoundTrip(v: Milli)
    requires Abs(v) < Overflow * Unit
    ensures ParseNumber(FormatNumber(v)) == v
  {
    var a := Abs(v);
    IntegerPartBound(a);
    var d, fr := NatToDigits(a / Unit), FracText(a % Unit);
    var t := DecimalText(v < 0, d, fr);
    FormatUngrouped(v);
    FormattedValue(v, d, fr);
    ParseFloatFinite(v < 0, d, fr, t);
    ParseNumberOf(FormatNumber(v), t, v);
  }

  /** A magnitude below the overflow threshold has an integer part below it. */
  lemma IntegerPartBound(a: nat)
    requires a < Overflow * Unit
    ensures a / Unit < Overflow
  {
  }

  /** A decimal text that ends in a digit and has no surrounding whitespace is its own trim. */
  lemma DecimalTrim(neg: bool, d: string, fr: string, t: string)
    requires |d| > 0 && AllDigits(d) && FractionText(fr)
    requires fr == "" || IsDigit(fr[|fr| - 1])
    requires t == DecimalText(neg, d, fr)
    ensures Strings.Trim(t) == t
  {
    if neg {
      assert t == "-" + d + fr;
    } else {
      assert t[0] == d[0];
    }
    if fr == "" {
      assert t[|t| - 1] == d[|d| - 1];
    } else {
      assert t[|t| - 1] == fr[|fr| - 1];
    }
    Strings.TrimNoOp(t);
  }

  /** What `formatNumber` prints is itself recognized as numeric. */
  lemma FormattedIsNumeric(v: Milli)
    requires Abs(v) < Overflow * Unit
    ensures IsNumeric(FormatNumber(v))
  {
    var a := Abs(v);
    IntegerPartBound(a);
    var d, fr := NatToDigits(a / Unit), FracText(a % Unit);
    var t := DecimalText(v < 0, d, fr);
    FormatUngrouped(v);
    FracTextShape(a % Unit);
    DecimalTrim(v < 0, d, fr, t);
    ParseFloatDecimal(v < 0, d, fr, t);
    DecimalShape(v < 0, d, fr, t);
  }

  /** Sign, non-empty integer digits and a fraction text have the recognizer's shape. */
  lemma DecimalShape(neg: bool, d: string, fr: string, t: string)
    requires |d| > 0 && AllDigits(d) && FractionText(fr) && fr != "."
    requires t == DecimalText(neg, d, fr)
    ensures NumberShape(t)
  {
    var u := d + fr;
    DecimalSign(neg, d, fr, t, u);
    assert DropSign(t, {'-'}) == u;
    DecimalSplit(d, fr, u);
    if fr != "" {
      RunEndAt(u, |d| + 1, |u|);
    }
  }
}
