/** Scalar helpers of the renderer (src/math/utils.h). Every `float` of the
    source is a `real` here; the two conversions the renderer relies on that
    are not plain arithmetic (float division, float-to-int conversion) are
    written out explicitly below. */
module Utils {

  /** Larger of two values; on a tie the second argument is returned. */
  function Max2(x: real, y: real): (r: real)
    ensures r == x || r == y
    ensures r >= x && r >= y
  {
    if x > y then x else y
  }

  /** Smaller of two values; on a tie the second argument is returned. */
  function Min2(x: real, y: real): (r: real)
    ensures r == x || r == y
    ensures r <= x && r <= y
  {
    if x < y then x else y
  }

  function Abs2(f: real): (r: real)
    ensures r >= 0.0
    ensures r == f || r == -f
  {
    if f < 0.0 then -f else f
  }

  function MinI2(a: int, b: int): (r: int)
    ensures r == a || r == b
    ensures r <= a && r <= b
  {
    if a > b then b else a
  }

  function MaxI2(a: int, b: int): (r: int)
    ensures r == a || r == b
    ensures r >= a && r >= b
  {
    if a > b then a else b
  }

  function Max3f(a: real, b: real, c: real): (r: real)
    ensures r == a || r == b || r == c
    ensures r >= a && r >= b && r >= c
  {
    Max2(a, Max2(b, c))
  }

  function Min3f(a: real, b: real, c: real): (r: real)
    ensures r == a || r == b || r == c
    ensures r <= a && r <= b && r <= c
  {
    Min2(a, Min2(b, c))
  }

  /** Clamp `f` into `[lo, hi]`. */
  function Clampf(f: real, lo: real, hi: real): (r: real)
    ensures lo <= hi ==> lo <= r <= hi
    ensures lo <= f <= hi ==> r == f
    ensures lo <= hi && f < lo ==> r == lo
    ensures lo <= hi && f > hi ==> r == hi
  {
    Max2(lo, Min2(f, hi))
  }

  function Lerpf(a: real, b: real, t: real): (r: real)
    ensures t == 0.0 ==> r == a
    ensures t == 1.0 ==> r == b
  {
    a + t * (b - a)
  }

  /** Float division. IEEE division by zero (an infinity or NaN) has no
      counterpart among the reals; the model yields 0 there, and no property
      below depends on that value. */
  function Div(x: real, y: real): (r: real)
    ensures y != 0.0 ==> r * y == x
  {
    if y == 0.0 then 0.0 else x / y
  }

  /** C's conversion of a float to an integer: truncation toward zero. */
  function Trunc(r: real): (t: int)
    ensures r >= 0.0 ==> 0 <= t && t as real <= r < t as real + 1.0
    ensures r < 0.0 ==> t <= 0 && t as real - 1.0 < r <= t as real
  {
    if r >= 0.0 then r.Floor else -((-r).Floor)
  }

  lemma TruncMonotone(a: real, b: real)
    requires a <= b
    ensures Trunc(a) <= Trunc(b)
  {
  }
}
