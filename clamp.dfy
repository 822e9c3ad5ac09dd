/** The `clamp` helper shared by the brightness adjustment. */
module Clamping {

  /** `Math.min(hi, Math.max(lo, value))`: bounds `value` to [lo, hi]. */
  function Clamp(value: real, lo: real, hi: real): (r: real)
    ensures r <= hi
    ensures lo <= hi ==> lo <= r
    ensures lo <= value <= hi ==> r == value
    ensures value < lo <= hi ==> r == lo
    ensures value > hi ==> r == hi
  {
    var atLeast := if lo >= value then lo else value;
    if hi <= atLeast then hi else atLeast
  }

  /** Clamping twice to the same bounds is the same as clamping once. */
  lemma ClampIdempotent(value: real, lo: real, hi: real)
    requires lo <= hi
    ensures Clamp(Clamp(value, lo, hi), lo, hi) == Clamp(value, lo, hi)
  {
  }

  /** With inverted bounds the max-then-min order always yields `hi`. */
  lemma ClampInvertedBounds(value: real, lo: real, hi: real)
    requires lo > hi
    ensures Clamp(value, lo, hi) == hi
  {
  }

  /** Clamping preserves the order of its argument. */
  lemma ClampMonotone(v1: real, v2: real, lo: real, hi: real)
    requires v1 <= v2
    ensures Clamp(v1, lo, hi) <= Clamp(v2, lo, hi)
  {
  }

  /** `clamp(10, 0, 5) == 5`, `clamp(-3, 0, 5) == 0`, `clamp(3, 0, 5) == 3`. */
  lemma ClampExamples()
    ensures Clamp(10.0, 0.0, 5.0) == 5.0
    ensures Clamp(-3.0, 0.0, 5.0) == 0.0
    ensures Clamp(3.0, 0.0, 5.0) == 3.0
  {
  }
}
