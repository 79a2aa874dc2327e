/** Scalar conversions used throughout the renderer: the C++ float-to-int cast and the [0,1] clamp. */
module Numeric {

  /** A brightness value after clamping: a real in [0,1]. */
  type Unit = r: real | 0.0 <= r <= 1.0 witness 0.0

  /** C++ `int(f)`: conversion that truncates toward zero (not floor, not round). */
  function Trunc(r: real): (t: int)
    ensures 0.0 <= r ==> 0 <= t && t as real <= r < t as real + 1.0
    ensures r < 0.0 ==> t <= 0 && t as real - 1.0 < r <= t as real
  {
    if r >= 0.0 then r.Floor else -((-r).Floor)
  }

  /** Truncation toward zero never reverses the order of its arguments. */
  lemma TruncMonotone(a: real, b: real)
    requires a <= b
    ensures Trunc(a) <= Trunc(b)
  {
    if 0.0 <= a {
    } else if b < 0.0 {
      assert (-b).Floor <= (-a).Floor;
    } else {
    }
  }

  /** A truncated coordinate falls in [0, n) exactly when n is positive and the coordinate falls in (-1, n). */
  lemma TruncInRange(r: real, n: nat)
    ensures 0 <= Trunc(r) < n <==> 0 < n && -1.0 < r < n as real
  {
    var t := Trunc(r);
    if r >= 0.0 {
      assert t < n <==> r < n as real;
    } else {
      assert 0 <= t <==> -1.0 < r;
    }
  }

  /** `std::min(std::max(x, 0.0f), 1.0f)`. */
  function Clamp01(x: real): (r: Unit)
    ensures 0.0 <= x <= 1.0 ==> r == x
    ensures x < 0.0 ==> r == 0.0
    ensures 1.0 < x ==> r == 1.0
  {
    var lo := if x < 0.0 then 0.0 else x;
    if lo > 1.0 then 1.0 else lo
  }

  lemma Clamp01Monotone(a: real, b: real)
    requires a <= b
    ensures Clamp01(a) <= Clamp01(b)
  {
  }
}
