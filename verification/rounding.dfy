/** Rounding of a rational a / b to an integer in bignumber.js's default
    mode ROUND_HALF_UP: to the nearest integer, ties away from zero. */
module Rounding {

  function Abs(x: int): nat {
    if x < 0 then -x else x
  }

  /** `r` is a / b rounded to the nearest integer, ties away from zero.
      Stated without division: for a >= 0, r <= a/b + 1/2 < r + 1. */
  predicate IsRoundHalfUp(a: int, b: int, r: int)
    requires b > 0
  {
    if a >= 0 then 2 * b * r <= 2 * a + b < 2 * b * r + 2 * b
    else 2 * b * r - 2 * b < 2 * a - b <= 2 * b * r
  }

  function RoundHalfUp(a: int, b: int): (r: int)
    requires b > 0
    ensures IsRoundHalfUp(a, b, r)
    ensures a >= 0 ==> r >= 0
    ensures a < 0 ==> r <= 0
  {
    var d := 2 * b;
    var x := 2 * Abs(a) + b;
    FloorBounds(x, d);
    var m := x / d;
    if a < 0 then -m else m
  }

  lemma FloorBounds(x: nat, d: nat)
    requires d > 0
    ensures (x / d) * d <= x < (x / d) * d + d
  {
    assert x == (x / d) * d + x % d;
  }

  lemma MulLeCancel(b: int, x: int, y: int)
    requires b > 0 && b * x <= b * y
    ensures x <= y
  {
    assert b * y - b * x == b * (y - x);
  }

  lemma MulLtCancel(b: int, x: int, y: int)
    requires b > 0 && b * x < b * y
    ensures x < y
  {
    assert b * y - b * x == b * (y - x);
  }

  lemma SignOfProduct(x: int, p: int)
    requires p > 0
    ensures x >= 0 <==> x * p >= 0
  {
  }

  /** There is only one correctly rounded value. */
  lemma RoundHalfUpUnique(a: int, b: int, r: int)
    requires b > 0 && IsRoundHalfUp(a, b, r)
    ensures r == RoundHalfUp(a, b)
  {
    RoundingsAgree(a, b, r, RoundHalfUp(a, b));
  }

  lemma RoundingsAgree(a: int, b: int, r: int, s: int)
    requires b > 0 && IsRoundHalfUp(a, b, r) && IsRoundHalfUp(a, b, s)
    ensures r == s
  {
    var d := 2 * b;
    assert d * (s + 1) == d * s + d && d * (r + 1) == d * r + d;
    assert d * (s - 1) == d * s - d && d * (r - 1) == d * r - d;
    if a >= 0 {
      MulLtCancel(d, r, s + 1);
      MulLtCancel(d, s, r + 1);
    } else {
      MulLtCancel(d, r - 1, s);
      MulLtCancel(d, s - 1, r);
    }
  }

  /** Rounding depends only on the rational value: a / b == c / d gives the
      same result. */
  lemma RoundHalfUpCrossMul(a: int, b: int, c: int, d: int)
    requires b > 0 && d > 0 && a * d == c * b
    ensures RoundHalfUp(a, b) == RoundHalfUp(c, d)
  {
    var r := RoundHalfUp(a, b);
    SignOfProduct(a, d);
    SignOfProduct(c, b);
    // Each bound on 2a relative to b, multiplied by d / b, bounds 2c relative to d.
    ScaledTerms(a, b, c, d, r);
    if a >= 0 {
      ScaleLe(b, d, 2 * b * r, 2 * a + b, 2 * d * r, 2 * c + d);
      ScaleLt(b, d, 2 * a + b, 2 * b * r + 2 * b, 2 * c + d, 2 * d * r + 2 * d);
    } else {
      ScaleLt(b, d, 2 * b * r - 2 * b, 2 * a - b, 2 * d * r - 2 * d, 2 * c - d);
      ScaleLe(b, d, 2 * a - b, 2 * b * r, 2 * c - d, 2 * d * r);
    }
    RoundHalfUpUnique(c, d, r);
  }

  lemma ScaledTerms(a: int, b: int, c: int, d: int, r: int)
    requires a * d == c * b
    ensures d * (2 * b * r) == b * (2 * d * r)
    ensures d * (2 * a + b) == b * (2 * c + d)
    ensures d * (2 * b * r + 2 * b) == b * (2 * d * r + 2 * d)
    ensures d * (2 * b * r - 2 * b) == b * (2 * d * r - 2 * d)
    ensures d * (2 * a - b) == b * (2 * c - d)
  {
  }

  lemma ScaleLe(b: int, d: int, x: int, y: int, x': int, y': int)
    requires b > 0 && d > 0 && x <= y
    requires d * x == b * x' && d * y == b * y'
    ensures x' <= y'
  {
    assert d * y - d * x == d * (y - x);
    MulLeCancel(b, x', y');
  }

  lemma ScaleLt(b: int, d: int, x: int, y: int, x': int, y': int)
    requires b > 0 && d > 0 && x < y
    requires d * x == b * x' && d * y == b * y'
    ensures x' < y'
  {
    assert d * y - d * x == d * (y - x);
    MulLtCancel(b, x', y');
  }

  /** The rounded value is within half a unit of the true quotient. */
  lemma RoundHalfUpNearest(a: int, b: int)
    requires b > 0
    ensures 2 * Abs(RoundHalfUp(a, b) * b - a) <= b
  {
    var r := RoundHalfUp(a, b);
    var x := r * b;
    assert 2 * b * r == 2 * x;
  }

  /** An exact quotient is left unchanged. */
  lemma RoundHalfUpExact(k: int, b: int)
    requires b > 0
    ensures RoundHalfUp(k * b, b) == k
  {
    assert IsRoundHalfUp(k * b, b, k);
    RoundHalfUpUnique(k * b, b, k);
  }
}
