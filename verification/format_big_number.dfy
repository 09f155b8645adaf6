/** `formatBigNumber(n, decimals?, digits?)` (utils/formatBigNumber.ts): an
    arbitrary-precision integer divided by 10^decimals and written with a
    fixed number of fraction digits, using bignumber.js's default settings
    (DECIMAL_PLACES = 20, ROUNDING_MODE = ROUND_HALF_UP). */
module BigNumberFormat {
  import opened Options
  import opened DecimalText
  import opened Rounding

  /** `decimals || 18` and `digits || 6`. */
  const DefaultDecimals: nat := 18
  const DefaultDigits: nat := 6

  /** bignumber.js's DECIMAL_PLACES: `div` keeps this many fraction digits. */
  const DivisionPlaces: nat := 20

  /** The largest argument `toFixed` accepts; beyond it bignumber.js throws. */
  const MaxFixedDigits: nat := 1_000_000_000

  /** The `decimals` argument, typed `number | string` and optional.  A
      `Numeral` is a non-empty string of decimal digits: it is truthy even
      when it spells zero. */
  datatype ScaleArg = Omitted | Number(n: nat) | Numeral(text: nat)

  /** `decimals || 18`: undefined and the number 0 are falsy. */
  function EffectiveDecimals(decimals: ScaleArg): nat {
    match decimals
    case Omitted => DefaultDecimals
    case Number(n) => if n == 0 then DefaultDecimals else n
    case Numeral(n) => n
  }

  /** `digits || 6`: undefined and 0 are falsy. */
  function EffectiveDigits(digits: Option<nat>): nat {
    if digits.None? || digits.value == 0 then DefaultDigits else digits.value
  }

  /** `bn.div(10^dec)`: n / 10^dec rounded half-up to 20 fraction digits,
      as a whole number of 10^-20 units. */
  function Quotient(n: int, dec: nat): int {
    RoundHalfUp(n * Pow10(DivisionPlaces), Pow10(dec))
  }

  /** `toFixed(dig)` on q * 10^-20: the value rounded half-up to `dig`
      fraction digits, as a whole number of 10^-dig units. */
  function FixedUnits(q: int, dig: nat): int {
    if dig >= DivisionPlaces then q * Pow10(dig - DivisionPlaces)
    else RoundHalfUp(q, Pow10(DivisionPlaces - dig))
  }

  /** The text `toFixed` writes for `units` * 10^-dig: an optional minus,
      the integer part without leading zeros and, when dig > 0, a point and
      exactly `dig` zero-padded fraction digits. */
  function FixedText(negative: bool, units: nat, dig: nat): string {
    var p := Pow10(dig);
    DivBounds(units, p);
    SignText(negative) + NatText(units / p) + (if dig == 0 then "" else "." + PadText(units % p, dig))
  }

  function SignText(negative: bool): string {
    if negative then "-" else ""
  }

  predicate IsCanonical(s: string) {
    |s| >= 1 && AllDigits(s) && (s[0] == '0' ==> s == "0")
  }

  /** Reads a fixed-point text with `dig` fraction digits back into its sign
      and its number of 10^-dig units; None for any other text. */
  function ParseFixed(s: string, dig: nat): Option<(bool, nat)> {
    if |s| > 0 && s[0] == '-' then
      match ParseUnsigned(s[1..], dig)
      case Some(units) => Some((true, units))
      case None => None
    else
      match ParseUnsigned(s, dig)
      case Some(units) => Some((false, units))
      case None => None
  }

  /** The unsigned part: integer digits, then a point and `dig` digits. */
  function ParseUnsigned(body: string, dig: nat): Option<nat> {
    if dig == 0 then
      if IsCanonical(body) then Some(DigitsValue(body)) else None
    else if |body| < dig + 2 then None
    else
      var whole := body[..|body| - dig - 1];
      var frac := body[|body| - dig..];
      if body[|body| - dig - 1] == '.' && IsCanonical(whole) && AllDigits(frac)
      then Some(Join(DigitsValue(whole), DigitsValue(frac), dig))
      else None
  }

  /** Writing then reading a fixed-point text gives back sign and units. */
  lemma ParseFixedText(negative: bool, units: nat, dig: nat)
    ensures ParseFixed(FixedText(negative, units, dig), dig) == Some((negative, units))
  {
    var p := Pow10(dig);
    DivBounds(units, p);
    if dig == 0 {
      ParseWholeText(negative, units);
    } else {
      var whole := NatText(units / p);
      var frac := PadText(units % p, dig);
      assert FixedText(negative, units, dig) == SignText(negative) + (whole + "." + frac);
      ParsePointText(negative, whole, frac);
      assert Join(units / p, units % p, dig) == units;
    }
  }

  lemma ParseWholeText(negative: bool, units: nat)
    ensures ParseFixed(FixedText(negative, units, 0), 0) == Some((negative, units))
  {
    var whole := NatText(units);
    assert units / 1 == units;
    assert FixedText(negative, units, 0) == SignText(negative) + whole;
    ParseSigned(negative, whole, 0);
  }

  lemma ParsePointText(negative: bool, whole: string, frac: string)
    requires IsCanonical(whole) && |frac| > 0 && AllDigits(frac)
    ensures ParseFixed(SignText(negative) + (whole + "." + frac), |frac|)
            == Some((negative, Join(DigitsValue(whole), DigitsValue(frac), |frac|)))
  {
    var body := whole + "." + frac;
    assert body[0] == whole[0];
    ParseParts(whole, frac);
    ParseSigned(negative, body, |frac|);
  }

  lemma DivBounds(x: nat, p: nat)
    requires p > 0
    ensures x / p >= 0 && 0 <= x % p < p
    ensures x == (x / p) * p + x % p
  {
  }

  lemma ParseSigned(negative: bool, body: string, dig: nat)
    requires |body| > 0 && body[0] != '-'
    ensures ParseFixed(SignText(negative) + body, dig)
            == match ParseUnsigned(body, dig)
               case Some(units) => Some((negative, units))
               case None => None
  {
    var s := SignText(negative) + body;
    if negative {
      assert s[0] == '-';
      assert s[1..] == body;
    } else {
      assert s == body;
    }
  }

  lemma ParseParts(whole: string, frac: string)
    requires IsCanonical(whole) && |frac| > 0 && AllDigits(frac)
    ensures ParseUnsigned(whole + "." + frac, |frac|)
            == Some(Join(DigitsValue(whole), DigitsValue(frac), |frac|))
  {
    var dig := |frac|;
    var body := whole + "." + frac;
    assert body[..|body| - dig - 1] == whole;
    assert body[|body| - dig..] == frac;
    assert body[|body| - dig - 1] == '.';
  }

  /** The number of 10^-dig units in `whole.frac`. */
  function Join(whole: nat, frac: nat, dig: nat): nat {
    whole * Pow10(dig) + frac
  }

  /** A text of the shape `toFixed(dig)` produces, for dig > 0. */
  predicate HasFixedShape(r: string, dig: nat) {
    && |r| > dig + 1
    && r[|r| - dig - 1] == '.'
    && AllDigits(r[|r| - dig..])
    && (r[0] == '-' || IsDigit(r[0]))
  }

  lemma FixedTextShape(negative: bool, units: nat, dig: nat)
    requires dig > 0
    ensures HasFixedShape(FixedText(negative, units, dig), dig)
  {
    var r := FixedText(negative, units, dig);
    var frac := PadText(units % Pow10(dig), dig);
    assert r[|r| - dig..] == frac;
  }

  lemma FixedTextNumeral(negative: bool, units: nat, dig: nat)
    requires dig > 0
    ensures IsNumeral(FixedText(negative, units, dig))
  {
    var p := Pow10(dig);
    DivBounds(units, p);
    var whole := NatText(units / p);
    var frac := PadText(units % p, dig);
    assert FixedText(negative, units, dig) == SignText(negative) + whole + "." + frac;
    PointNumeral(negative, whole, frac);
  }

  lemma PointNumeral(negative: bool, whole: string, frac: string)
    requires IsCanonical(whole) && |frac| > 0 && AllDigits(frac)
    ensures IsNumeral(SignText(negative) + whole + "." + frac)
  {
    var body := whole + "." + frac;
    UnsignedPointNumeral(whole, frac);
    assert SignText(negative) + whole + "." + frac == SignText(negative) + body;
    SignedNumeral(negative, body);
  }

  /** Digits, one point, digits: a numeral with no sign. */
  lemma UnsignedPointNumeral(whole: string, frac: string)
    requires IsCanonical(whole) && |frac| > 0 && AllDigits(frac)
    ensures var body := whole + "." + frac;
            && IsDigit(body[0]) && IsDigit(body[|body| - 1])
            && (forall i :: 0 <= i < |body| ==> IsDigit(body[i]) || body[i] == '.')
            && (forall i, j :: 0 <= i < j < |body| && body[i] == '.' ==> body[j] != '.')
  {
    var body := whole + "." + frac;
    forall i | 0 <= i < |body|
      ensures i < |whole| ==> body[i] == whole[i]
      ensures i == |whole| ==> body[i] == '.'
      ensures i > |whole| ==> body[i] == frac[i - |whole| - 1]
    {
    }
  }

  /** A minus sign in front of an unsigned numeral keeps it a numeral. */
  lemma SignedNumeral(negative: bool, body: string)
    requires |body| > 0 && IsDigit(body[0]) && IsDigit(body[|body| - 1])
    requires forall i :: 0 <= i < |body| ==> IsDigit(body[i]) || body[i] == '.'
    requires forall i, j :: 0 <= i < j < |body| && body[i] == '.' ==> body[j] != '.'
    ensures IsNumeral(SignText(negative) + body)
  {
    var s := SignText(negative) + body;
    if negative {
      assert s[0] == '-' && s[1..] == body;
    } else {
      assert s == body;
    }
  }

  /** `formatBigNumber(n, decimals, digits)`.  `n` is None when it is not a
      number (absent upstream, unparseable); bignumber.js then yields NaN and
      `toFixed` writes "NaN". */
  function FormatBigNumber(n: Option<int>, decimals: ScaleArg, digits: Option<nat>): (r: string)
    requires digits.None? || digits.value <= MaxFixedDigits
    ensures n.None? <==> r == "NaN"
    ensures n.Some? ==> HasFixedShape(r, EffectiveDigits(digits))
    ensures n.Some? ==> ParseFixed(r, EffectiveDigits(digits)).Some?
    ensures n.Some? ==> IsNumeral(r)
  {
    match n
    case None => "NaN"
    case Some(v) =>
      var dig := EffectiveDigits(digits);
      var q := Quotient(v, EffectiveDecimals(decimals));
      var units := Abs(FixedUnits(q, dig));
      FixedTextShape(q < 0, units, dig);
      ParseFixedText(q < 0, units, dig);
      FixedTextNumeral(q < 0, units, dig);
      FixedText(q < 0, units, dig)
  }

  lemma DivMulExact(x: nat, p: nat)
    requires p > 0
    ensures (x * p) / p == x && (x * p) % p == 0
  {
    var q := (x * p) / p;
    var r := (x * p) % p;
    assert x * p == q * p + r;
    assert p * (x - q) == r;
    MulLtCancel(p, x - q, 1);
    MulLeCancel(p, 0, x - q);
  }

  lemma MulAssoc(x: int, a: int, b: int)
    ensures x * (a * b) == (x * a) * b
  {
  }

  /** For dec <= 20 the division step is exact. */
  lemma QuotientExact(n: int, dec: nat)
    requires dec <= DivisionPlaces
    ensures Quotient(n, dec) == n * Pow10(DivisionPlaces - dec)
  {
    var up := Pow10(DivisionPlaces - dec);
    var pd := Pow10(dec);
    Pow10Add(DivisionPlaces - dec, dec);
    MulAssoc(n, up, pd);
    RoundHalfUpExact(n * up, pd);
  }

  /** A whole number k of 10^-dec units divides exactly, at any scale. */
  lemma QuotientOfWhole(k: int, dec: nat)
    ensures Quotient(k * Pow10(dec), dec) == k * Pow10(DivisionPlaces)
  {
    var pd := Pow10(dec);
    var p20 := Pow10(DivisionPlaces);
    assert (k * pd) * p20 == (k * p20) * pd by {
      MulAssoc(k, pd, p20);
      MulAssoc(k, p20, pd);
    }
    RoundHalfUpExact(k * p20, pd);
  }

  /** Rounding an exact quotient n * 10^(20 - dec) to `dig` places is
      rounding the rational n / 10^dec to `dig` places. */
  lemma FixedUnitsOfExact(n: int, dec: nat, dig: nat)
    requires dec <= DivisionPlaces
    ensures FixedUnits(n * Pow10(DivisionPlaces - dec), dig)
            == RoundHalfUp(n * Pow10(dig), Pow10(dec))
  {
    if dig >= DivisionPlaces {
      ExactAbove(n, dec, dig);
    } else {
      ExactBelow(n, dec, dig);
    }
  }

  lemma ExactAbove(n: int, dec: nat, dig: nat)
    requires dec <= DivisionPlaces <= dig
    ensures n * Pow10(DivisionPlaces - dec) * Pow10(dig - DivisionPlaces)
            == RoundHalfUp(n * Pow10(dig), Pow10(dec))
  {
    ScaleChain(n, DivisionPlaces - dec, dig - DivisionPlaces);
    ScaleChain(n, dig - dec, dec);
    RoundHalfUpExact(n * Pow10(dig - dec), Pow10(dec));
  }

  lemma ExactBelow(n: int, dec: nat, dig: nat)
    requires dec <= DivisionPlaces && dig < DivisionPlaces
    ensures RoundHalfUp(n * Pow10(DivisionPlaces - dec), Pow10(DivisionPlaces - dig))
            == RoundHalfUp(n * Pow10(dig), Pow10(dec))
  {
    var pd := Pow10(dec);
    var up := Pow10(DivisionPlaces - dec);
    var rest := Pow10(DivisionPlaces - dig);
    Pow10Add(DivisionPlaces - dec, dec);
    Pow10Add(dig, DivisionPlaces - dig);
    MulAssoc(n, up, pd);
    MulAssoc(n, Pow10(dig), rest);
    RoundHalfUpCrossMul(n * up, rest, n * Pow10(dig), pd);
  }

  /** A whole number of 10^-20 units keeps its value at `dig` places. */
  lemma FixedUnitsOfWhole(k: int, dig: nat)
    ensures FixedUnits(k * Pow10(DivisionPlaces), dig) == k * Pow10(dig)
  {
    if dig >= DivisionPlaces {
      WholeAbove(k, dig);
    } else {
      WholeBelow(k, dig);
    }
  }

  lemma WholeAbove(k: int, dig: nat)
    requires dig >= DivisionPlaces
    ensures k * Pow10(DivisionPlaces) * Pow10(dig - DivisionPlaces) == k * Pow10(dig)
  {
    ScaleChain(k, DivisionPlaces, dig - DivisionPlaces);
  }

  /** Scaling by 10^a then by 10^b is scaling by 10^(a + b). */
  lemma ScaleChain(k: int, a: nat, b: nat)
    ensures k * Pow10(a) * Pow10(b) == k * Pow10(a + b)
  {
    Pow10Add(a, b);
    MulAssoc(k, Pow10(a), Pow10(b));
  }

  lemma WholeBelow(k: int, dig: nat)
    requires dig < DivisionPlaces
    ensures RoundHalfUp(k * Pow10(DivisionPlaces), Pow10(DivisionPlaces - dig)) == k * Pow10(dig)
  {
    var rest := Pow10(DivisionPlaces - dig);
    Pow10Add(dig, DivisionPlaces - dig);
    MulAssoc(k, Pow10(dig), rest);
    RoundHalfUpExact(k * Pow10(dig), rest);
  }

  /** The sign and magnitude `toFixed` shows, when 10^dec divides 10^20 and
      the quotient is therefore exact: the rational n / 10^dec rounded half-up
      (ties away from zero) to `dig` fraction digits.  A negative n keeps its
      minus sign even when it rounds to zero. */
  lemma FormatIsRoundedRatio(n: int, decimals: ScaleArg, digits: Option<nat>)
    requires digits.None? || digits.value <= MaxFixedDigits
    requires EffectiveDecimals(decimals) <= DivisionPlaces
    ensures var dec := EffectiveDecimals(decimals);
            var dig := EffectiveDigits(digits);
            ParseFixed(FormatBigNumber(Some(n), decimals, digits), dig)
              == Some((n < 0, Abs(RoundHalfUp(n * Pow10(dig), Pow10(dec)))))
  {
    var dec := EffectiveDecimals(decimals);
    var dig := EffectiveDigits(digits);
    var q := Quotient(n, dec);
    QuotientExact(n, dec);
    SignOfProduct(n, Pow10(DivisionPlaces - dec));
    FixedUnitsOfExact(n, dec, dig);
    ParseFixedText(q < 0, Abs(FixedUnits(q, dig)), dig);
  }

  lemma FixedTextWhole(negative: bool, m: nat, dig: nat)
    requires dig > 0
    ensures FixedText(negative, m * Pow10(dig), dig) == SignText(negative) + NatText(m) + "." + Zeros(dig)
  {
    DivMulExact(m, Pow10(dig));
    PadZero(dig);
  }

  lemma AbsMul(k: int, p: nat)
    ensures Abs(k * p) == Abs(k) * p
  {
    if k < 0 {
      assert -(k * p) == (-k) * p;
    }
  }

  /** Scaling then formatting is exact: k * 10^dec is written as k, a point
      and `dig` zeros, whatever the scale (no rounding happens). */
  lemma FormatWholeUnits(k: int, decimals: ScaleArg, digits: Option<nat>)
    requires digits.None? || digits.value <= MaxFixedDigits
    ensures var dec := EffectiveDecimals(decimals);
            var dig := EffectiveDigits(digits);
            FormatBigNumber(Some(k * Pow10(dec)), decimals, digits) == IntText(k) + "." + Zeros(dig)
  {
    var dec := EffectiveDecimals(decimals);
    var dig := EffectiveDigits(digits);
    FormatSome(k * Pow10(dec), decimals, digits);
    WholeUnitsText(k, dec, dig);
  }

  /** What `formatBigNumber` does with a number, step by step. */
  lemma FormatSome(n: int, decimals: ScaleArg, digits: Option<nat>)
    requires digits.None? || digits.value <= MaxFixedDigits
    ensures var q := Quotient(n, EffectiveDecimals(decimals));
            var dig := EffectiveDigits(digits);
            FormatBigNumber(Some(n), decimals, digits) == FixedText(q < 0, Abs(FixedUnits(q, dig)), dig)
  {
  }

  lemma WholeUnitsText(k: int, dec: nat, dig: nat)
    requires dig > 0
    ensures var q := Quotient(k * Pow10(dec), dec);
            FixedText(q < 0, Abs(FixedUnits(q, dig)), dig) == IntText(k) + "." + Zeros(dig)
  {
    WholeUnitsMagnitude(k, dec, dig);
    FixedTextWhole(k < 0, Abs(k), dig);
    SignedIntText(k);
  }

  lemma WholeUnitsMagnitude(k: int, dec: nat, dig: nat)
    ensures var q := Quotient(k * Pow10(dec), dec);
            && (q < 0 <==> k < 0)
            && Abs(FixedUnits(q, dig)) == Abs(k) * Pow10(dig)
  {
    var q := Quotient(k * Pow10(dec), dec);
    assert q == k * Pow10(DivisionPlaces) by {
      QuotientOfWhole(k, dec);
    }
    assert q < 0 <==> k < 0 by {
      SignOfProduct(k, Pow10(DivisionPlaces));
    }
    WholeMagnitude(k, dig);
  }

  lemma WholeMagnitude(k: int, dig: nat)
    ensures Abs(FixedUnits(k * Pow10(DivisionPlaces), dig)) == Abs(k) * Pow10(dig)
  {
    FixedUnitsOfWhole(k, dig);
    AbsMul(k, Pow10(dig));
  }

  lemma SignedIntText(k: int)
    ensures IntText(k) == SignText(k < 0) + NatText(Abs(k))
  {
  }

  /** The output depends on `decimals` and `digits` only through the values
      they default to. */
  lemma SameEffectiveSettings(n: Option<int>, d1: ScaleArg, g1: Option<nat>, d2: ScaleArg, g2: Option<nat>)
    requires g1.None? || g1.value <= MaxFixedDigits
    requires g2.None? || g2.value <= MaxFixedDigits
    requires EffectiveDecimals(d1) == EffectiveDecimals(d2)
    requires EffectiveDigits(g1) == EffectiveDigits(g2)
    ensures FormatBigNumber(n, d1, g1) == FormatBigNumber(n, d2, g2)
  {
  }

  /** `decimals || 18`: omitting the scale or passing the number 0 both
      divide by 10^18. */
  lemma FalsyDecimalsDefault(n: Option<int>, digits: Option<nat>)
    requires digits.None? || digits.value <= MaxFixedDigits
    ensures FormatBigNumber(n, Number(0), digits) == FormatBigNumber(n, Number(DefaultDecimals), digits)
    ensures FormatBigNumber(n, Omitted, digits) == FormatBigNumber(n, Number(DefaultDecimals), digits)
  {
  }

  /** `digits || 6`: omitting the digit count or passing 0 both give six
      fraction digits, never zero. */
  lemma ZeroDigitsDefault(n: Option<int>, decimals: ScaleArg)
    ensures FormatBigNumber(n, decimals, Some(0)) == FormatBigNumber(n, decimals, Some(DefaultDigits))
    ensures FormatBigNumber(n, decimals, None) == FormatBigNumber(n, decimals, Some(DefaultDigits))
    ensures n.Some? ==> HasFixedShape(FormatBigNumber(n, decimals, Some(0)), DefaultDigits)
  {
  }

  /** The text "0" is truthy, so it is not replaced by 18: it divides by 1
      and an integer is written as itself. */
  lemma ZeroNumeralIsTruthy(k: int, digits: Option<nat>)
    requires digits.None? || digits.value <= MaxFixedDigits
    ensures FormatBigNumber(Some(k), Numeral(0), digits) == IntText(k) + "." + Zeros(EffectiveDigits(digits))
  {
    FormatWholeUnits(k, Numeral(0), digits);
    assert k * Pow10(0) == k;
  }

  /** The number 0 is falsy: 1 is divided by 10^18 and shows as zero. */
  lemma ZeroNumberIsFalsy()
    ensures ParseFixed(FormatBigNumber(Some(1), Number(0), None), DefaultDigits) == Some((false, 0))
  {
    FormatIsRoundedRatio(1, Number(0), None);
    Pow10Values();
    RoundHalfUpUnique(Pow10(6), Pow10(18), 0);
  }

  /** Above 20 decimals `div` rounds before `toFixed` rounds again, and the
      two roundings can disagree with one: 0.04499999999999999999995 is
      written "0.05", not "0.04". */
  lemma DoubleRoundingAboveTwentyPlaces()
    ensures ParseFixed(FormatBigNumber(Some(4499999999999999999995), Number(23), Some(2)), 2)
            == Some((false, 5))
    ensures RoundHalfUp(4499999999999999999995 * Pow10(2), Pow10(23)) == 4
  {
    var n := 4499999999999999999995;
    Pow10Values();
    RoundHalfUpUnique(n * Pow10(DivisionPlaces), Pow10(23), 4500000000000000000);
    RoundHalfUpUnique(4500000000000000000, Pow10(18), 5);
    RoundHalfUpUnique(n * 100, Pow10(23), 4);
    ParseFixedText(false, 5, 2);
  }
}
