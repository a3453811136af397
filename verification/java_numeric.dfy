/**
 * Java's narrowing cast `(int) f` from a floating-point value, over exact reals:
 * the value is truncated toward zero and saturates at the ends of the `int` range.
 */
module JavaNumeric {

  /** Java's `int` range. */
  const INT_MIN: int := -0x8000_0000
  const INT_MAX: int := 0x7FFF_FFFF
  type int32 = i: int | INT_MIN <= i <= INT_MAX

  /** Rounding toward zero, which differs from `Floor` on negative non-integers. */
  function TruncToward0(r: real): (t: int)
    ensures 0.0 <= r ==> 0 <= t && t as real <= r < t as real + 1.0
    ensures r < 0.0 ==> t <= 0 && t as real - 1.0 < r <= t as real
  {
    if 0.0 <= r then r.Floor else -((-r).Floor)
  }

  /** `(int) r`: truncate toward zero, saturating at `INT_MIN` and `INT_MAX`. */
  function IntCast(r: real): (i: int32)
    ensures INT_MAX as real <= r ==> i == INT_MAX
    ensures r <= INT_MIN as real ==> i == INT_MIN
    ensures INT_MIN as real < r < INT_MAX as real ==> i == TruncToward0(r)
  {
    if INT_MAX as real <= r then INT_MAX
    else if r <= INT_MIN as real then INT_MIN
    else TruncToward0(r)
  }

  /** Truncation never decreases when its argument grows. */
  lemma TruncMonotone(r: real, s: real)
    requires r <= s
    ensures TruncToward0(r) <= TruncToward0(s)
  {
  }

  /** The cast never decreases when its argument grows. */
  lemma IntCastMonotone(r: real, s: real)
    requires r <= s
    ensures IntCast(r) <= IntCast(s)
  {
    TruncMonotone(r, s);
  }

  /**
   * The values that cast to a given non-zero `int` `c` form the half-open interval from `c`
   * away from zero; the values that cast to 0 are the open interval (-1, 1).
   */
  lemma IntCastPreimage(r: real, c: int32)
    ensures 0 < c < INT_MAX ==> (IntCast(r) == c <==> c as real <= r < c as real + 1.0)
    ensures INT_MIN < c < 0 ==> (IntCast(r) == c <==> c as real - 1.0 < r <= c as real)
    ensures IntCast(r) == 0 <==> -1.0 < r < 1.0
  {
  }
}
