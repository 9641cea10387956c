/**
 * The clamping helpers of maths.go: `LimitWithinBounds` and the two
 * wrappers built on it. Values are reals; NaN, which the source's
 * comparisons would pass through unchanged, is not modelled.
 */
module Maths {
  import opened Geometry

  /**
   * `LimitWithinBounds`: `value` pulled into [min, max]. The result is
   * always one of the three arguments; when the bounds are in order it
   * lies between them and a value already there is returned unchanged.
   */
  function LimitWithinBounds(value: real, min: real, max: real): (r: real)
    ensures r == min || r == max || r == value
    ensures min <= max ==> min <= r <= max
    ensures min <= value <= max ==> r == value
  {
    if value < min then min
    else if value > max then max
    else value
  }

  /** With ordered bounds the clamp is the familiar max(min, min(value, max)). */
  lemma ClampIsMaxOfMin(value: real, min: real, max: real)
    requires min <= max
    ensures LimitWithinBounds(value, min, max)
            == (var low := if value < max then value else max; if min < low then low else min)
  {
  }

  /** With ordered bounds the clamp is the point of [min, max] nearest to `value`. */
  lemma ClampIsNearest(value: real, min: real, max: real, z: real)
    requires min <= max && min <= z <= max
    ensures Abs(LimitWithinBounds(value, min, max) - value) <= Abs(z - value)
  {
  }

  /** With ordered bounds the clamp never reorders two values. */
  lemma ClampIsMonotone(value: real, value': real, min: real, max: real)
    requires min <= max && value <= value'
    ensures LimitWithinBounds(value, min, max) <= LimitWithinBounds(value', min, max)
  {
  }

  /** With ordered bounds clamping twice is clamping once. */
  lemma ClampIsIdempotent(value: real, min: real, max: real)
    requires min <= max
    ensures LimitWithinBounds(LimitWithinBounds(value, min, max), min, max) == LimitWithinBounds(value, min, max)
  {
  }

  /**
   * With the bounds the wrong way round none of the above holds: a value
   * below `min` comes back as `min`, which is above `max`, and clamping
   * that again gives `max`.
   */
  lemma InvertedBoundsAreNotIdempotent()
    ensures LimitWithinBounds(0.0, 2.0, 1.0) == 2.0
    ensures LimitWithinBounds(LimitWithinBounds(0.0, 2.0, 1.0), 2.0, 1.0) == 1.0
  {
  }

  /** `LimitWithinVec`: the clamp with the bounds given as a vector (x the lower, y the upper). */
  function LimitWithinVec(value: real, bounds: Vec): (r: real)
    ensures bounds.x <= bounds.y ==> bounds.x <= r <= bounds.y
    ensures bounds.x <= value <= bounds.y ==> r == value
  {
    LimitWithinBounds(value, bounds.x, bounds.y)
  }

  /** The vector form clamps to the same interval as the three-argument form. */
  lemma LimitWithinVecIsInterval(value: real, bounds: Vec, min: real, max: real)
    requires bounds == Vec(min, max)
    ensures LimitWithinVec(value, bounds) == LimitWithinBounds(value, min, max)
  {
  }

  /**
   * `LimitWithinRect`: each coordinate clamped against the box's extent
   * on that axis. A point of a normalized box lands inside it, and a
   * point already inside is returned unchanged.
   */
  function LimitWithinRect(v: Vec, box: Rect): (r: Vec)
    ensures Normalized(box) ==> Inside(box, r)
    ensures Inside(box, v) ==> r == v
  {
    Vec(LimitWithinBounds(v.x, box.min.x, box.max.x), LimitWithinBounds(v.y, box.min.y, box.max.y))
  }

  /** The axes are clamped independently: each coordinate of the result depends on that coordinate alone. */
  lemma RectAxesAreIndependent(v: Vec, w: Vec, box: Rect)
    ensures v.x == w.x ==> LimitWithinRect(v, box).x == LimitWithinRect(w, box).x
    ensures v.y == w.y ==> LimitWithinRect(v, box).y == LimitWithinRect(w, box).y
  {
  }

  /** In a normalized box the result is the nearest point of the box on each axis. */
  lemma RectClampIsNearest(v: Vec, box: Rect, z: Vec)
    requires Normalized(box) && Inside(box, z)
    ensures Abs(LimitWithinRect(v, box).x - v.x) <= Abs(z.x - v.x)
    ensures Abs(LimitWithinRect(v, box).y - v.y) <= Abs(z.y - v.y)
  {
    ClampIsNearest(v.x, box.min.x, box.max.x, z.x);
    ClampIsNearest(v.y, box.min.y, box.max.y, z.y);
  }

  /** Clamping into a normalized box twice is clamping once. */
  lemma RectClampIsIdempotent(v: Vec, box: Rect)
    requires Normalized(box)
    ensures LimitWithinRect(LimitWithinRect(v, box), box) == LimitWithinRect(v, box)
  {
  }
}
