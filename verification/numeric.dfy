/**
 The small numeric helpers the engine uses: Python's `abs`, `min` and `max` on
 integers, and the two-sided clamp `max(lo, min(hi, v))` applied to depths.
 */
module Numeric {

  function Abs(x: int): (r: nat)
    ensures r == x || r == -x
  {
    if x < 0 then -x else x
  }

  function Min(a: int, b: int): (r: int)
    ensures r <= a && r <= b
    ensures r == a || r == b
  {
    if a <= b then a else b
  }

  function Max(a: int, b: int): (r: int)
    ensures r >= a && r >= b
    ensures r == a || r == b
  {
    if a >= b then a else b
  }

  /** `max(lo, min(hi, v))`, evaluated inner call first as Python does. */
  function Clamp(v: real, lo: real, hi: real): (r: real)
    requires lo <= hi
    ensures lo <= r <= hi
    ensures lo <= v <= hi ==> r == v
    ensures v <= lo ==> r == lo
    ensures hi <= v ==> r == hi
  {
    var capped := if v < hi then v else hi;
    if lo > capped then lo else capped
  }

  /** Clamping preserves the (non-strict) order of its argument. */
  lemma ClampMonotone(u: real, v: real, lo: real, hi: real)
    requires lo <= hi
    requires u <= v
    ensures Clamp(u, lo, hi) <= Clamp(v, lo, hi)
  {
  }

  /** Cancelling a positive factor on both sides of an inequality. */
  lemma CancelPositive(x: real, y: real, b: real)
    requires b > 0.0 && x * b <= y * b
    ensures x <= y
  {
    assert (y - x) * b >= 0.0;
  }
}
