/**
 * The pieces both Game of Life demos share: the cell record, Conway's rule
 * as `checkState` applies it, the edge wrap-around of the `add` closure in
 * `liveNeighbors`, and the eight offsets that closure is called with.
 * life/main.go stores its cells flat (index `x + y*columns`) and main.go
 * nested (`cells[x][y]`); both layouts are modelled on top of this module.
 */
module Conway {

  /** A cell of either demo. The vertex-array handle it is drawn with is not modelled. */
  datatype Cell = Cell(x: int, y: int, alive: bool, aliveNext: bool)

  /**
   * The state `checkState` stages for a cell whose committed state is
   * `alive` and which sees `liveCount` live neighbours: the staged value
   * starts as `alive` and the four rule branches overwrite it in order.
   */
  function NextState(alive: bool, liveCount: int): (next: bool)
    // 1. underpopulation
    ensures alive && liveCount < 2 ==> !next
    // 2. survival
    ensures alive && (liveCount == 2 || liveCount == 3) ==> next
    // 3. overpopulation
    ensures alive && liveCount > 3 ==> !next
    // 4. reproduction; any other dead cell stays dead
    ensures !alive ==> (next <==> liveCount == 3)
    // together: the B3/S23 rule
    ensures next <==> liveCount == 3 || (alive && liveCount == 2)
  {
    var staged := alive;
    var afterUnder := if alive && liveCount < 2 then false else staged;
    var afterSurvive := if alive && (liveCount == 2 || liveCount == 3) then true else afterUnder;
    var afterOver := if alive && liveCount > 3 then false else afterSurvive;
    if !alive && liveCount == 3 then true else afterOver
  }

  /**
   * The edge handling of `add`: a coordinate one past the last row or
   * column continues at 0, and -1 continues at the last one. Neighbour
   * coordinates are at most one step outside the grid, and on that range
   * the wrap is reduction modulo the side length.
   */
  function Wrap(c: int, size: int): (w: int)
    requires size > 0 && -1 <= c <= size
    ensures 0 <= w < size
    ensures c == -1 ==> w == size - 1
    ensures c == size ==> w == 0
    ensures 0 <= c < size ==> w == c
  {
    if c == size then 0 else if c == -1 then size - 1 else c
  }

  /** On the coordinates it is called with, the wrap is reduction modulo the side length. */
  lemma WrapIsModulo(c: int, size: int)
    requires size > 0 && -1 <= c <= size
    ensures Wrap(c, size) == c % size
  {
  }

  /** One step to any of the eight cells around a cell. */
  predicate IsMooreOffset(o: (int, int)) {
    -1 <= o.0 <= 1 && -1 <= o.1 <= 1 && o != (0, 0)
  }

  /**
   * The (dx, dy) steps `liveNeighbors` passes to `add`, in the order of
   * its calls: left, right, up, down, top-left, top-right, bottom-left,
   * bottom-right.
   */
  const NeighbourOffsets: seq<(int, int)> :=
    [(-1, 0), (1, 0), (0, 1), (0, -1), (-1, 1), (1, 1), (-1, -1), (1, -1)]

  /** The eight calls visit every surrounding cell exactly once and nothing else. */
  lemma NeighbourOffsetsAreMooreNeighbourhood()
    ensures |NeighbourOffsets| == 8
    ensures forall i, j :: 0 <= i < j < |NeighbourOffsets| ==> NeighbourOffsets[i] != NeighbourOffsets[j]
    ensures forall o :: o in NeighbourOffsets <==> IsMooreOffset(o)
  {
    forall o | IsMooreOffset(o)
      ensures o in NeighbourOffsets
    {
      if o.0 == -1 {
        if o.1 == -1 { assert o == NeighbourOffsets[6]; }
        else if o.1 == 0 { assert o == NeighbourOffsets[0]; }
        else { assert o == NeighbourOffsets[4]; }
      } else if o.0 == 0 {
        if o.1 == -1 { assert o == NeighbourOffsets[3]; }
        else { assert o == NeighbourOffsets[2]; }
      } else {
        if o.1 == -1 { assert o == NeighbourOffsets[7]; }
        else if o.1 == 0 { assert o == NeighbourOffsets[1]; }
        else { assert o == NeighbourOffsets[5]; }
      }
    }
  }

  /**
   * `a * b` as repeated addition. Slice sizes and flat indices are written
   * with it so that they stay linear for the verifier; ProductIsMultiplication
   * connects it with `*`.
   */
  function Product(a: nat, b: nat): nat {
    if b == 0 then 0 else Product(a, b - 1) + a
  }

  lemma {:induction false} ProductIsMultiplication(a: nat, b: nat)
    ensures Product(a, b) == a * b
  {
    if b > 0 {
      ProductIsMultiplication(a, b - 1);
    }
  }

  lemma {:induction false} ProductMonotone(a: nat, b: nat, b': nat)
    requires b <= b'
    ensures Product(a, b) <= Product(a, b')
    decreases b' - b
  {
    if b < b' {
      ProductMonotone(a, b, b' - 1);
    }
  }

  /** Position of the cell at column `x`, row `y` in a flat slice with `columns` per row. */
  function FlatIndex(x: int, y: nat, columns: nat): int {
    x + Product(columns, y)
  }

  /** In-range coordinates address a slot of a `columns * rows` slice. */
  lemma FlatIndexInRange(x: int, y: nat, columns: nat, rows: nat)
    requires 0 <= x < columns && y < rows
    ensures 0 <= FlatIndex(x, y, columns) < Product(columns, rows)
  {
    ProductMonotone(columns, y + 1, rows);
  }

  /** Distinct in-range coordinates address distinct slots. */
  lemma FlatIndexInjective(x: int, y: nat, x': int, y': nat, columns: nat)
    requires 0 <= x < columns && 0 <= x' < columns
    requires FlatIndex(x, y, columns) == FlatIndex(x', y', columns)
    ensures x == x' && y == y'
  {
    if y < y' {
      ProductMonotone(columns, y + 1, y');
    } else if y' < y {
      ProductMonotone(columns, y' + 1, y);
    }
  }

  /** Every slot of a `columns * rows` slice is addressed by some in-range coordinates. */
  lemma {:induction false} FlatIndexCovers(i: int, columns: nat, rows: nat) returns (x: int, y: nat)
    requires 0 <= i < Product(columns, rows)
    ensures 0 <= x < columns && y < rows
    ensures FlatIndex(x, y, columns) == i
  {
    if i < Product(columns, rows - 1) {
      x, y := FlatIndexCovers(i, columns, rows - 1);
    } else {
      x, y := i - Product(columns, rows - 1), rows - 1;
    }
  }

  /**
   * The `add` closure of `liveNeighbors` as a value: given the coordinates
   * of a neighbour, 1 when it is alive and 0 when it is dead.
   */
  type Probe = (int, int) -> nat

  /** The eight `add` calls of `liveNeighbors` around (x, y), in the source's order. */
  function EightCalls(add: Probe, x: int, y: int): (n: nat)
    ensures (forall p, q :: add(p, q) <= 1) ==> n <= 8
  {
    add(x - 1, y)            // left
    + add(x + 1, y)          // right
    + add(x, y + 1)          // up
    + add(x, y - 1)          // down
    + add(x - 1, y + 1)      // top-left
    + add(x + 1, y + 1)      // top-right
    + add(x - 1, y - 1)      // bottom-left
    + add(x + 1, y - 1)      // bottom-right
  }

  /** `add` summed over the given steps away from (x, y). */
  function CountOver(add: Probe, x: int, y: int, offsets: seq<(int, int)>): nat
    decreases |offsets|
  {
    if offsets == [] then 0 else add(x + offsets[0].0, y + offsets[0].1) + CountOver(add, x, y, offsets[1..])
  }

  /**
   * The eight calls probe the whole Moore neighbourhood of (x, y): by
   * NeighbourOffsetsAreMooreNeighbourhood each of the eight surrounding
   * cells is probed exactly once and nothing else is.
   */
  lemma EightCallsProbeNeighbourhood(add: Probe, x: int, y: int)
    ensures EightCalls(add, x, y) == CountOver(add, x, y, NeighbourOffsets)
  {
    var o := NeighbourOffsets;
    assert CountOver(add, x, y, o[8..]) == 0;
    assert CountOver(add, x, y, o[7..]) == add(x + 1, y - 1);
    assert CountOver(add, x, y, o[6..]) == add(x - 1, y - 1) + add(x + 1, y - 1);
    assert CountOver(add, x, y, o[5..]) == add(x + 1, y + 1) + add(x - 1, y - 1) + add(x + 1, y - 1);
    assert CountOver(add, x, y, o[4..]) == add(x - 1, y + 1) + add(x + 1, y + 1) + add(x - 1, y - 1) + add(x + 1, y - 1);
    assert CountOver(add, x, y, o[3..]) == add(x, y - 1) + add(x - 1, y + 1) + add(x + 1, y + 1) + add(x - 1, y - 1) + add(x + 1, y - 1);
    assert CountOver(add, x, y, o[2..]) == add(x, y + 1) + add(x, y - 1) + add(x - 1, y + 1) + add(x + 1, y + 1) + add(x - 1, y - 1) + add(x + 1, y - 1);
  }
}
