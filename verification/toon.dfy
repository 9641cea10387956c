/**
 * The player of the appleseed demo (appleseed/objects/toon.go): a
 * physics record and a size that eating apples grows or shrinks within
 * [3, 100]. Sizes are reals; float64 rounding is not modelled. Every
 * size reached from the start size 3 is a multiple of 0.5 between 3 and
 * 100 inclusive, which float64 represents exactly.
 */
module Appleseed {
  import opened Geometry

  /** `games.Physics`. */
  datatype Physics = Physics(position: Vec, velocity: Vec, acceleration: Vec)

  /** `Toon`: the embedded physics record and the radius `Size`. */
  datatype Toon = Toon(physics: Physics, size: real)

  /** The bounds `Grow` and `Shrink` keep `Size` in, and the step they move it by. */
  const MaxSize: real := 100.0
  const MinSize: real := 3.0
  const SizeStep: real := 0.5

  predicate SizeInRange(t: Toon) {
    MinSize <= t.size <= MaxSize
  }

  /** `Grow`: one step larger, capped at 100; the physics record is untouched. */
  function Grow(t: Toon): (r: Toon)
    ensures r.physics == t.physics
    ensures r.size <= MaxSize
    ensures t.size <= MaxSize - SizeStep ==> r.size == t.size + SizeStep
    ensures t.size >= MaxSize - SizeStep ==> r.size == MaxSize
  {
    var grown := t.size + SizeStep;
    t.(size := if MaxSize < grown then MaxSize else grown)
  }

  /** `Shrink`: one step smaller, floored at 3; the physics record is untouched. */
  function Shrink(t: Toon): (r: Toon)
    ensures r.physics == t.physics
    ensures r.size >= MinSize
    ensures t.size >= MinSize + SizeStep ==> r.size == t.size - SizeStep
    ensures t.size <= MinSize + SizeStep ==> r.size == MinSize
  {
    var shrunk := t.size - SizeStep;
    t.(size := if MinSize > shrunk then MinSize else shrunk)
  }

  /** Growing a full-size toon and shrinking a minimum-size one change nothing. */
  lemma CapsAreFixedPoints(t: Toon)
    ensures t.size == MaxSize ==> Grow(t) == t
    ensures t.size == MinSize ==> Shrink(t) == t
  {
  }

  /** Away from the caps the two steps undo each other. */
  lemma GrowShrinkRoundTrip(t: Toon)
    ensures t.size <= MaxSize - SizeStep && t.size >= MinSize ==> Shrink(Grow(t)) == t
    ensures t.size >= MinSize + SizeStep && t.size <= MaxSize ==> Grow(Shrink(t)) == t
  {
  }

  /**
   * The effect of the apples eaten, in order: a grower apple grows the
   * toon and any other apple shrinks it.
   */
  function Eat(t: Toon, growers: seq<bool>): (r: Toon)
    ensures r.physics == t.physics
    decreases |growers|
  {
    if growers == [] then t
    else Eat(if growers[0] then Grow(t) else Shrink(t), growers[1..])
  }

  /** Both steps keep a size that starts in [3, 100] there. */
  lemma StepsKeepSizeInRange(t: Toon)
    requires SizeInRange(t)
    ensures SizeInRange(Grow(t)) && SizeInRange(Shrink(t))
  {
  }

  /** Whatever the apples, a toon whose size starts in [3, 100] stays there. */
  lemma {:induction false} EatingKeepsSizeInRange(t: Toon, growers: seq<bool>)
    requires SizeInRange(t)
    ensures SizeInRange(Eat(t, growers))
    decreases |growers|
  {
    if growers != [] {
      StepsKeepSizeInRange(t);
      EatingKeepsSizeInRange(if growers[0] then Grow(t) else Shrink(t), growers[1..]);
    }
  }

  /**
   * Each apple moves the size by at most one step: after n apples the
   * size is within n half-units of where it started.
   */
  lemma {:induction false} EatingMovesSizeGradually(t: Toon, growers: seq<bool>)
    requires SizeInRange(t)
    ensures Abs(Eat(t, growers).size - t.size) <= SizeStep * (|growers| as real)
    decreases |growers|
  {
    if growers != [] {
      var next := if growers[0] then Grow(t) else Shrink(t);
      StepsKeepSizeInRange(t);
      EatingMovesSizeGradually(next, growers[1..]);
    }
  }
}
