/** The JavaScript number operations the modelled code relies on, over exact
    reals: `Math.round`, `Math.floor`, `Math.trunc` and the remainder operator
    `%`, which takes the sign of the dividend (unlike Dafny's Euclidean `%`). */
module JsMath {

  /** `Math.floor` */
  function Floor(v: real): int {
    v.Floor
  }

  /** `Math.round`: the nearest integer, halves rounded towards +∞. */
  function Round(v: real): (r: int)
    ensures v - 0.5 < r as real <= v + 0.5
  {
    (v + 0.5).Floor
  }

  /** `Math.trunc`: rounds towards zero. */
  function Trunc(v: real): (r: int)
    ensures v >= 0.0 ==> 0 <= r && r as real <= v < r as real + 1.0
    ensures v < 0.0 ==> r <= 0 && r as real - 1.0 < v <= r as real
  {
    if v >= 0.0 then v.Floor else -((-v).Floor)
  }

  /** `a % b` on numbers: `a - trunc(a / b) * b`. */
  function Rem(a: real, b: real): (r: real)
    requires b != 0.0
  {
    a - (Trunc(a / b) as real) * b
  }

  /** The remainder by 100 (the only divisor the modelled code uses on
      fractional numbers) has the sign of the dividend and is below 100 in
      magnitude. */
  lemma RemHundredBounds(a: real)
    ensures a >= 0.0 ==> 0.0 <= Rem(a, 100.0) < 100.0
    ensures a < 0.0 ==> -100.0 < Rem(a, 100.0) <= 0.0
  {
  }

  /** For a non-negative dividend the truncated remainder agrees with the
      floored one. */
  lemma RemOfNonNegative(a: real, b: real)
    requires a >= 0.0 && b > 0.0
    ensures Rem(a, b) == a - (Floor(a / b) as real) * b
  {
  }
}
