/**
 * The two value types of the pixel library the clamps and the physics
 * record work with, over the reals (float64 rounding and NaN are not
 * modelled).
 */
module Geometry {

  /** `pixel.Vec`: a 2D point or vector. */
  datatype Vec = Vec(x: real, y: real)

  /** `pixel.Rect`: the box between the corners `min` and `max`. */
  datatype Rect = Rect(min: Vec, max: Vec)

  /** A box whose `min` corner is below and left of its `max` corner, as `pixel.R(0, 0, w, h)` is for w, h >= 0. */
  predicate Normalized(r: Rect) {
    r.min.x <= r.max.x && r.min.y <= r.max.y
  }

  /** `v` lies in the closed box `r`. */
  predicate Inside(r: Rect, v: Vec) {
    r.min.x <= v.x <= r.max.x && r.min.y <= v.y <= r.max.y
  }

  /** Distance between two reals on the line. */
  function Abs(a: real): (d: real)
    ensures d >= 0.0 && (d == a || d == -a)
  {
    if a < 0.0 then -a else a
  }
}
