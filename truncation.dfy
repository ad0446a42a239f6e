/** Conversion of the scaled elapsed time (a floating-point tick count in the
    source) back to the clock's integer tick representation. The source's
    `duration_cast` between two durations of the same period is a plain
    `static_cast` of the count, which truncates toward zero. */
module Truncation {

  /** Truncation toward zero: the integer of largest magnitude that does not
      exceed `x` in magnitude and has the sign of `x`. */
  function Trunc(x: real): (r: int)
    ensures 0.0 <= x ==> r as real <= x < r as real + 1.0
    ensures x < 0.0 ==> r as real - 1.0 < x <= r as real
  {
    if 0.0 <= x then x.Floor else -((-x).Floor)
  }

  /** Truncation toward zero moves the value toward zero by less than one. */
  lemma TruncError(x: real)
    ensures -1.0 < x - Trunc(x) as real < 1.0
    ensures 0.0 <= x ==> 0 <= Trunc(x)
    ensures x <= 0.0 ==> Trunc(x) <= 0
  {
  }

  /** Truncation toward zero is monotone (unlike a rounding that depends on
      the sign only through its magnitude, it never reverses an order). */
  lemma TruncMonotone(x: real, y: real)
    requires x <= y
    ensures Trunc(x) <= Trunc(y)
  {
  }

  /** A value that is already a whole number of ticks is kept as it is. */
  lemma TruncWhole(n: int)
    ensures Trunc(n as real) == n
  {
  }
}
