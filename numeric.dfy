/**
 * The part of gnc_numeric that the scrubber relies on: an exact rational
 * value or an error value, exact addition and subtraction, conversion to a
 * commodity's fraction with half-up rounding, and the zero/equality tests.
 *
 * A gnc_numeric is a numerator/denominator pair; here only its value is
 * kept (a `real` is an exact rational), and the denominator matters only
 * where the scrubber asks for a rounding to a given fraction.  A fraction of
 * 0 stands for GNC_DENOM_AUTO: the exact result, with no rounding.
 */
module Numeric {

  datatype Numeric = Num(val: real) | Invalid

  /** gnc_numeric_zero() */
  function Zero(): Numeric { Num(0.0) }

  /** gnc_numeric_check(n) == GNC_ERROR_OK */
  predicate IsValid(n: Numeric) { n.Num? }

  /** gnc_numeric_zero_p: an error value is not zero */
  predicate IsZero(n: Numeric) { n == Num(0.0) }

  /** gnc_numeric_add with GNC_DENOM_AUTO / GNC_HOW_DENOM_EXACT: the exact sum; errors propagate */
  function Add(a: Numeric, b: Numeric): (r: Numeric)
    ensures r.Num? <==> a.Num? && b.Num?
    ensures r.Num? ==> r.val == a.val + b.val
  {
    if a.Num? && b.Num? then Num(a.val + b.val) else Invalid
  }

  /** x is a whole number of 1/d units (always true for d == 0, which means "exact") */
  ghost predicate OnGrid(x: real, d: nat)
  {
    d == 0 || (x * d as real).Floor as real == x * d as real
  }

  /** The nearest integer to y, halves rounded away from zero (GNC_HOW_RND_ROUND_HALF_UP). */
  function RoundHalfAway(y: real): (n: int)
    ensures y - 0.5 <= n as real <= y + 0.5
    ensures y >= 0.0 ==> n as real > y - 0.5
    ensures y < 0.0 ==> n as real < y + 0.5
  {
    if y >= 0.0 then (y + 0.5).Floor else -((-y + 0.5).Floor)
  }

  /** x converted to denominator d with half-up rounding; d == 0 leaves x exact. */
  function RoundAt(x: real, d: nat): (r: real)
  {
    if d == 0 then x else RoundHalfAway(x * d as real) as real / d as real
  }

  /** gnc_numeric_sub(a, b, d, GNC_HOW_RND_ROUND_HALF_UP); errors propagate */
  function SubRound(a: Numeric, b: Numeric, d: nat): (r: Numeric)
    ensures r.Num? <==> a.Num? && b.Num?
  {
    if a.Num? && b.Num? then Num(RoundAt(a.val - b.val, d)) else Invalid
  }

  /** gnc_numeric_convert(n, d, GNC_HOW_RND_ROUND_HALF_UP) */
  function Convert(n: Numeric, d: nat): (r: Numeric)
    ensures r.Num? <==> n.Num?
  {
    if n.Num? then Num(RoundAt(n.val, d)) else Invalid
  }

  /** gnc_numeric_equal: equal values, or both errors */
  predicate NumEqual(a: Numeric, b: Numeric) { a == b }

  /** gnc_numeric_same(a, b, d, GNC_HOW_RND_ROUND_HALF_UP): equal once both are rounded to d */
  predicate Same(a: Numeric, b: Numeric, d: nat) { NumEqual(Convert(a, d), Convert(b, d)) }

  lemma DivMul(n: int, d: nat)
    requires d > 0
    ensures (n as real / d as real) * d as real == n as real
  {
  }

  /** Rounding a value that already lies on the grid changes nothing. */
  lemma RoundOnGrid(x: real, d: nat)
    requires OnGrid(x, d)
    ensures RoundAt(x, d) == x
  {
    if d > 0 {
      var y := x * d as real;
      assert y.Floor as real == y;
      assert RoundHalfAway(y) == y.Floor;
      assert RoundHalfAway(y) as real / d as real == y / d as real;
    }
  }

  /** The rounded value always lies on the grid of the fraction. */
  lemma RoundIsOnGrid(x: real, d: nat)
    ensures OnGrid(RoundAt(x, d), d)
  {
    if d > 0 {
      var n := RoundHalfAway(x * d as real);
      DivMul(n, d);
      assert RoundAt(x, d) * d as real == n as real;
      assert (n as real).Floor == n;
    }
  }

  /** Half-up rounding moves a value by at most half a unit of the fraction. */
  lemma RoundError(x: real, d: nat)
    requires d > 0
    ensures x - 0.5 / d as real <= RoundAt(x, d) <= x + 0.5 / d as real
  {
    var n := RoundHalfAway(x * d as real);
    DivMul(n, d);
    var e := d as real;
    var r := RoundAt(x, d);
    var h := 0.5 / e;
    assert r * e == n as real;
    assert h * e == 0.5;
    assert (r - x) * e == n as real - x * e;
    MulCancel(r - x, h, e);
    MulCancel(x - r, h, e);
  }

  /** Multiplying by a positive factor can be cancelled in an inequality. */
  lemma MulCancel(a: real, b: real, e: real)
    requires e > 0.0 && a * e <= b * e
    ensures a <= b
  {
  }

  /** Sums and differences of on-grid values stay on the grid. */
  lemma OnGridSub(x: real, y: real, d: nat)
    requires OnGrid(x, d) && OnGrid(y, d)
    ensures OnGrid(x - y, d) && OnGrid(x + y, d)
  {
    if d > 0 {
      var a, b := x * d as real, y * d as real;
      assert (x - y) * d as real == a - b;
      assert (x + y) * d as real == a + b;
      assert (a - b).Floor == a.Floor - b.Floor;
      assert (a + b).Floor == a.Floor + b.Floor;
    }
  }

  /** Zero lies on every grid. */
  lemma ZeroOnGrid(d: nat)
    ensures OnGrid(0.0, d)
  {
  }

  /** The difference of two on-grid values needs no rounding. */
  lemma SubOnGridExact(x: real, y: real, d: nat)
    requires OnGrid(x, d) && OnGrid(y, d)
    ensures RoundAt(x - y, d) == x - y
  {
    OnGridSub(x, y, d);
    RoundOnGrid(x - y, d);
  }
}
