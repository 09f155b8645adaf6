/** Decimal digit strings: powers of ten, rendering of natural numbers and
    zero-padded fields, and the parse function that inverts them. */
module DecimalText {

  function Pow10(k: nat): (p: nat)
    ensures p >= 1
  {
    if k == 0 then 1 else 10 * Pow10(k - 1)
  }

  lemma {:induction false} Pow10Add(a: nat, b: nat)
    ensures Pow10(a + b) == Pow10(a) * Pow10(b)
  {
    if a > 0 {
      Pow10Add(a - 1, b);
      assert Pow10(a + b) == 10 * Pow10(a - 1 + b);
    }
  }

  /** The powers of ten the formatter's constants need. */
  lemma Pow10Values()
    ensures Pow10(6) == 1000000
    ensures Pow10(18) == 1000000000000000000
    ensures Pow10(20) == 100000000000000000000
    ensures Pow10(23) == 100000000000000000000000
  {
    assert Pow10(5) == 100000;
    Pow10Add(5, 5);
    Pow10Add(10, 10);
    Pow10Add(5, 13);
    Pow10Add(10, 3);
    Pow10Add(3, 20);
  }

  predicate IsDigit(c: char) {
    '0' <= c <= '9'
  }

  predicate AllDigits(s: string) {
    forall i :: 0 <= i < |s| ==> IsDigit(s[i])
  }

  function DigitChar(d: nat): (c: char)
    requires d < 10
    ensures IsDigit(c) && c as int - '0' as int == d
  {
    ('0' as int + d) as char
  }

  /** The number a string of decimal digits denotes (most significant first). */
  function DigitsValue(s: string): (v: nat)
    requires AllDigits(s)
    ensures v < Pow10(|s|)
  {
    if |s| == 0 then 0
    else 10 * DigitsValue(s[..|s| - 1]) + (s[|s| - 1] as int - '0' as int)
  }

  /** The shortest decimal rendering of `n`: what `String(n)` gives for a
      non-negative integer below 10^21. */
  function NatText(n: nat): (s: string)
    ensures |s| >= 1 && AllDigits(s)
    ensures DigitsValue(s) == n
    ensures s[0] == '0' ==> s == "0"
  {
    if n < 10 then [DigitChar(n)]
    else
      var front := NatText(n / 10);
      var s := front + [DigitChar(n % 10)];
      assert s[..|s| - 1] == front;
      s
  }

  /** `n` written with exactly `width` digits, padded with leading zeros. */
  function PadText(n: nat, width: nat): (s: string)
    requires n < Pow10(width)
    ensures |s| == width && AllDigits(s)
    ensures DigitsValue(s) == n
  {
    if width == 0 then ""
    else
      var front := PadText(n / 10, width - 1);
      var s := front + [DigitChar(n % 10)];
      assert s[..|s| - 1] == front;
      s
  }

  /** A string of `width` zeros. */
  function Zeros(width: nat): (s: string)
    ensures |s| == width
  {
    seq(width, _ => '0')
  }

  lemma {:induction false} PadZero(width: nat)
    ensures PadText(0, width) == Zeros(width)
  {
    if width > 0 {
      PadZero(width - 1);
      assert Zeros(width) == Zeros(width - 1) + ['0'];
    }
  }

  /** `String(i)` for an integer `i` with |i| < 10^21. */
  function IntText(i: int): (s: string)
    ensures |s| >= 1 && (i < 0 <==> s[0] == '-')
    ensures i < 0 ==> s[1..] == NatText(-i)
    ensures i >= 0 ==> s == NatText(i)
  {
    if i < 0 then "-" + NatText(-i) else NatText(i)
  }

  /** Rendering is injective: distinct numbers give distinct texts. */
  lemma NatTextInjective(a: nat, b: nat)
    requires NatText(a) == NatText(b)
    ensures a == b
  {
  }

  /** A plain decimal numeral: an optional minus, digits, and at most one
      point with digits on both sides.  JavaScript's `Number` reads every
      such text as a number, so `isNaN` is false on it. */
  predicate IsNumeral(s: string) {
    var body := if |s| > 0 && s[0] == '-' then s[1..] else s;
    && |body| > 0
    && IsDigit(body[0])
    && IsDigit(body[|body| - 1])
    && (forall i :: 0 <= i < |body| ==> IsDigit(body[i]) || body[i] == '.')
    && (forall i, j :: 0 <= i < j < |body| && body[i] == '.' ==> body[j] != '.')
  }
}
