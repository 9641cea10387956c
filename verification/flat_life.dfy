/**
 * The Game of Life demo of life/main.go: the cells live in one flat slice
 * and the cell at column `x`, row `y` sits at index `x + y*columns`.
 *
 * A tick calls `checkState` on every cell in index order, and each call
 * first commits the cell's staged state (`alive := aliveNext`) and only
 * then counts its neighbours. The tick is therefore a left-to-right fold:
 * a cell sees the neighbours visited before it (and itself) in their newly
 * committed state and the neighbours after it in their previous state.
 */
module FlatLife {
  import opened Conway

  /** Grid shape; life/main.go fixes it at 500 columns by 500 rows. */
  datatype Dims = Dims(columns: nat, rows: nat)

  /**
   * What `checkState` needs of the slice to stay in bounds: one slot per
   * cell of the grid, and every cell's coordinates inside the grid.
   */
  predicate Shaped(cells: seq<Cell>, dims: Dims) {
    && |cells| == Product(dims.columns, dims.rows)
    && forall i :: 0 <= i < |cells| ==> 0 <= cells[i].x < dims.columns && 0 <= cells[i].y < dims.rows
  }

  /**
   * The shape `makeCells` builds and every tick keeps: in addition, the
   * cell in each slot carries the coordinates that address it.
   */
  predicate WellFormed(cells: seq<Cell>, dims: Dims) {
    && Shaped(cells, dims)
    && forall i :: 0 <= i < |cells| ==> FlatIndex(cells[i].x, cells[i].y, dims.columns) == i
  }

  /** Two slices whose cells carry the same coordinates slot by slot. */
  predicate SameCoordinates(cells: seq<Cell>, cells': seq<Cell>) {
    && |cells| == |cells'|
    && forall j :: 0 <= j < |cells| ==> cells'[j].x == cells[j].x && cells'[j].y == cells[j].y
  }

  /** What the renderer reads: the committed state of every cell. */
  function AlivePlane(cells: seq<Cell>): (plane: seq<bool>)
    ensures |plane| == |cells|
    ensures forall i :: 0 <= i < |cells| ==> plane[i] == cells[i].alive
  {
    seq(|cells|, i requires 0 <= i < |cells| => cells[i].alive)
  }

  /** The staged state of every cell. */
  function NextPlane(cells: seq<Cell>): (plane: seq<bool>)
    ensures |plane| == |cells|
    ensures forall i :: 0 <= i < |cells| ==> plane[i] == cells[i].aliveNext
  {
    seq(|cells|, i requires 0 <= i < |cells| => cells[i].aliveNext)
  }

  /** The cell at column `x`, row `y`. */
  function CellAt(cells: seq<Cell>, dims: Dims, x: int, y: int): Cell
    requires |cells| == Product(dims.columns, dims.rows)
    requires 0 <= x < dims.columns && 0 <= y < dims.rows
  {
    FlatIndexInRange(x, y, dims.columns, dims.rows);
    cells[FlatIndex(x, y, dims.columns)]
  }

  /**
   * The slot the `add` closure reads for (x, y): each coordinate wrapped
   * onto the torus, then flattened. It is always a slot of the grid.
   */
  function WrappedIndex(dims: Dims, x: int, y: int): (i: int)
    requires dims.columns > 0 && dims.rows > 0
    requires -1 <= x <= dims.columns && -1 <= y <= dims.rows
    ensures 0 <= i < Product(dims.columns, dims.rows)
  {
    var wx := Wrap(x, dims.columns);
    var wy := Wrap(y, dims.rows);
    FlatIndexInRange(wx, wy, dims.columns, dims.rows);
    FlatIndex(wx, wy, dims.columns)
  }

  /** The slot read for a neighbour is the one of its coordinates reduced modulo the sides. */
  lemma WrappedIndexIsToroidal(dims: Dims, x: int, y: int)
    requires dims.columns > 0 && dims.rows > 0
    requires -1 <= x <= dims.columns && -1 <= y <= dims.rows
    ensures WrappedIndex(dims, x, y) == FlatIndex(x % dims.columns, y % dims.rows, dims.columns)
  {
    WrapIsModulo(x, dims.columns);
    WrapIsModulo(y, dims.rows);
  }

  /** The `add` closure of `liveNeighbors`: 1 when the wrapped cell is alive. */
  function Lookup(plane: seq<bool>, dims: Dims, x: int, y: int): (n: nat)
    requires dims.columns > 0 && dims.rows > 0 && |plane| == Product(dims.columns, dims.rows)
    requires -1 <= x <= dims.columns && -1 <= y <= dims.rows
    ensures n <= 1
  {
    if plane[WrappedIndex(dims, x, y)] then 1 else 0
  }

  /**
   * The `add` closure of `liveNeighbors` over the committed states `plane`.
   * It is only ever called at most one step off the grid; beyond that the
   * value 0 is arbitrary.
   */
  function Add(plane: seq<bool>, dims: Dims): (add: Probe)
    requires dims.columns > 0 && dims.rows > 0 && |plane| == Product(dims.columns, dims.rows)
    ensures forall x, y {:trigger add(x, y)} :: -1 <= x <= dims.columns && -1 <= y <= dims.rows ==>
              add(x, y) == Lookup(plane, dims, x, y)
  {
    (x: int, y: int) =>
      if -1 <= x <= dims.columns && -1 <= y <= dims.rows then Lookup(plane, dims, x, y) else 0
  }

  /** `liveNeighbors`: the live cells around (x, y) on the torus. */
  function LiveNeighbors(plane: seq<bool>, dims: Dims, x: int, y: int): (n: nat)
    requires dims.columns > 0 && dims.rows > 0 && |plane| == Product(dims.columns, dims.rows)
    requires 0 <= x < dims.columns && 0 <= y < dims.rows
    ensures n <= 8
  {
    EightCalls(Add(plane, dims), x, y)
  }

  /**
   * The eight calls count the live cells of the Moore neighbourhood of
   * (x, y): by NeighbourOffsetsAreMooreNeighbourhood every surrounding cell
   * is probed once, and by AddIsToroidal each probe reads the cell at its
   * coordinates reduced modulo the sides.
   */
  lemma LiveNeighborsCountsNeighbourhood(plane: seq<bool>, dims: Dims, x: int, y: int)
    requires dims.columns > 0 && dims.rows > 0 && |plane| == Product(dims.columns, dims.rows)
    requires 0 <= x < dims.columns && 0 <= y < dims.rows
    ensures LiveNeighbors(plane, dims, x, y) == CountOver(Add(plane, dims), x, y, NeighbourOffsets)
  {
    EightCallsProbeNeighbourhood(Add(plane, dims), x, y);
  }

  /** A probe one step off the grid reads the slot of its coordinates reduced modulo the sides. */
  lemma AddIsToroidal(plane: seq<bool>, dims: Dims, x: int, y: int)
    requires dims.columns > 0 && dims.rows > 0 && |plane| == Product(dims.columns, dims.rows)
    requires -1 <= x <= dims.columns && -1 <= y <= dims.rows
    ensures 0 <= FlatIndex(x % dims.columns, y % dims.rows, dims.columns) < |plane|
    ensures Add(plane, dims)(x, y) == if plane[FlatIndex(x % dims.columns, y % dims.rows, dims.columns)] then 1 else 0
  {
    WrappedIndexIsToroidal(dims, x, y);
  }

  /**
   * A neighbour count over a plane of committed states, by column and row.
   * The scan below is stated for any count, so that its proof does not
   * depend on how `liveNeighbors` wraps; Tick instantiates it with
   * NeighbourCount.
   */
  type Census = (seq<bool>, int, int) -> nat

  /** `liveNeighbors` on the grid shape `dims` (0 off the grid, where it is never asked). */
  function NeighbourCount(dims: Dims): (count: Census)
    ensures forall plane, x, y {:trigger count(plane, x, y)} ::
              dims.columns > 0 && dims.rows > 0 && |plane| == Product(dims.columns, dims.rows) &&
              0 <= x < dims.columns && 0 <= y < dims.rows ==>
                count(plane, x, y) == LiveNeighbors(plane, dims, x, y)
  {
    (plane: seq<bool>, x: int, y: int) =>
      if dims.columns > 0 && dims.rows > 0 && |plane| == Product(dims.columns, dims.rows) &&
         0 <= x < dims.columns && 0 <= y < dims.rows
      then LiveNeighbors(plane, dims, x, y)
      else 0
  }

  /**
   * `checkState` for the cell in slot `i`: commit the staged state, then
   * stage Conway's rule for the committed state and the neighbours as they
   * now read. No other cell changes.
   */
  function CheckState(cells: seq<Cell>, dims: Dims, count: Census, i: int): (r: seq<Cell>)
    requires Shaped(cells, dims) && 0 <= i < |cells|
    ensures Shaped(r, dims)
    ensures forall j :: 0 <= j < |cells| && j != i ==> r[j] == cells[j]
    ensures r[i].x == cells[i].x && r[i].y == cells[i].y
    ensures r[i].alive == cells[i].aliveNext
    ensures r[i].aliveNext == NextState(r[i].alive, count(AlivePlane(r), r[i].x, r[i].y))
  {
    var c := cells[i];
    var committed := c.(alive := c.aliveNext);
    var restaged := committed.(aliveNext := committed.alive);
    var grid := cells[i := restaged];
    var liveCount := count(AlivePlane(grid), c.x, c.y);
    var r := grid[i := restaged.(aliveNext := NextState(restaged.alive, liveCount))];
    assert AlivePlane(r) == AlivePlane(grid);
    r
  }

  /**
   * What the cell in slot `j` reads during a tick: every slot up to and
   * including `j` has been committed already, every later slot has not.
   */
  function SeenBy(cells: seq<Cell>, j: int): (plane: seq<bool>)
    ensures |plane| == |cells|
    ensures forall m :: 0 <= m <= j && m < |cells| ==> plane[m] == cells[m].aliveNext
    ensures forall m :: j < m < |cells| && 0 <= m ==> plane[m] == cells[m].alive
  {
    seq(|cells|, m requires 0 <= m < |cells| => if m <= j then cells[m].aliveNext else cells[m].alive)
  }

  /**
   * The state the cell in slot `j` stages during a tick: Conway's rule
   * for its freshly committed state and the neighbours as it reads them.
   */
  function StagedDuringTick(cells: seq<Cell>, count: Census, j: int): bool
    requires 0 <= j < |cells|
  {
    NextState(cells[j].aliveNext, count(SeenBy(cells, j), cells[j].x, cells[j].y))
  }

  /**
   * Once the loop has reached slot `i` and `checkState` has committed it,
   * the committed states are exactly what SeenBy says slot `i` reads.
   */
  lemma CommitShowsSeen(cells: seq<Cell>, before: seq<Cell>, dims: Dims, count: Census, i: int)
    requires Shaped(cells, dims) && Shaped(before, dims) && 0 <= i < |cells| == |before|
    requires forall j :: 0 <= j < i ==> before[j].alive == cells[j].aliveNext
    requires forall j :: i <= j < |cells| ==> before[j] == cells[j]
    ensures AlivePlane(CheckState(before, dims, count, i)) == SeenBy(cells, i)
  {
  }

  /**
   * The tick loop after its first `k` iterations. ScanState says what it
   * leaves in each slot.
   */
  function Scan(cells: seq<Cell>, dims: Dims, count: Census, k: nat): (r: seq<Cell>)
    requires Shaped(cells, dims) && k <= |cells|
    ensures Shaped(r, dims) && SameCoordinates(cells, r)
    decreases k
  {
    if k == 0 then cells else CheckState(Scan(cells, dims, count, k - 1), dims, count, k - 1)
  }

  /**
   * After `k` iterations the first `k` cells have committed their staged
   * state and staged a new one from what they saw; the rest are untouched.
   */
  lemma {:induction false} ScanState(cells: seq<Cell>, dims: Dims, count: Census, k: nat)
    requires Shaped(cells, dims) && k <= |cells|
    ensures forall j :: 0 <= j < k ==> Scan(cells, dims, count, k)[j].alive == cells[j].aliveNext
    ensures forall j {:trigger StagedDuringTick(cells, count, j)} :: 0 <= j < k ==>
              Scan(cells, dims, count, k)[j].aliveNext == StagedDuringTick(cells, count, j)
    ensures forall j :: k <= j < |cells| ==> Scan(cells, dims, count, k)[j] == cells[j]
  {
    if k > 0 {
      ScanState(cells, dims, count, k - 1);
      CommitShowsSeen(cells, Scan(cells, dims, count, k - 1), dims, count, k - 1);
    }
  }

  /**
   * One frame of the main loop: `checkState` on every cell in slot order.
   * Afterwards every cell shows the state it had staged before the tick,
   * and has staged Conway's rule for the neighbours as it read them.
   */
  function Tick(cells: seq<Cell>, dims: Dims): (r: seq<Cell>)
    requires Shaped(cells, dims)
    ensures Shaped(r, dims) && SameCoordinates(cells, r)
    ensures AlivePlane(r) == NextPlane(cells)
    ensures forall j {:trigger StagedDuringTick(cells, NeighbourCount(dims), j)} :: 0 <= j < |cells| ==>
              r[j].aliveNext == StagedDuringTick(cells, NeighbourCount(dims), j)
  {
    ScanState(cells, dims, NeighbourCount(dims), |cells|);
    Scan(cells, dims, NeighbourCount(dims), |cells|)
  }

  /** A tick keeps every cell in the slot its coordinates address. */
  lemma TickKeepsWellFormed(cells: seq<Cell>, dims: Dims)
    requires WellFormed(cells, dims)
    ensures WellFormed(Tick(cells, dims), dims)
  {
  }

  /**
   * The two-phase generation: every cell's next state computed from one
   * snapshot of the committed states.
   */
  function SynchronousNext(cells: seq<Cell>, count: Census): (plane: seq<bool>)
    ensures |plane| == |cells|
    ensures forall j :: 0 <= j < |cells| ==>
              plane[j] == NextState(cells[j].alive, count(AlivePlane(cells), cells[j].x, cells[j].y))
  {
    seq(|cells|, j requires 0 <= j < |cells| =>
      NextState(cells[j].alive, count(AlivePlane(cells), cells[j].x, cells[j].y)))
  }

  /** The grid with every staged state committed, as a tick leaves the `alive` fields. */
  function Committed(cells: seq<Cell>): (r: seq<Cell>)
    ensures |r| == |cells|
    ensures forall j :: 0 <= j < |cells| ==> r[j] == cells[j].(alive := cells[j].aliveNext)
  {
    seq(|cells|, j requires 0 <= j < |cells| => cells[j].(alive := cells[j].aliveNext))
  }

  /**
   * On a grid whose staged and committed states agree (as `makeCells`
   * leaves it) the lazy scan commits nothing new, so a tick stages exactly
   * the two-phase generation.
   */
  lemma FirstTickIsSynchronous(cells: seq<Cell>, dims: Dims)
    requires Shaped(cells, dims)
    requires forall j :: 0 <= j < |cells| ==> cells[j].alive == cells[j].aliveNext
    ensures AlivePlane(Tick(cells, dims)) == AlivePlane(cells)
    ensures NextPlane(Tick(cells, dims)) == SynchronousNext(cells, NeighbourCount(dims))
  {
    var r := Tick(cells, dims);
    var count := NeighbourCount(dims);
    var sync := SynchronousNext(cells, count);
    assert NextPlane(cells) == AlivePlane(cells);
    forall j | 0 <= j < |cells|
      ensures NextPlane(r)[j] == sync[j]
    {
      FreshGridSeesItself(cells, j);
      assert r[j].aliveNext == StagedDuringTick(cells, count, j);
    }
  }

  /** When staged and committed states agree, every cell reads the committed states. */
  lemma FreshGridSeesItself(cells: seq<Cell>, j: int)
    requires forall m :: 0 <= m < |cells| ==> cells[m].alive == cells[m].aliveNext
    ensures SeenBy(cells, j) == AlivePlane(cells)
  {
  }

  /** A 3 by 3 grid showing column 0 alive with every cell staged alive. */
  function ColumnExample(): (cells: seq<Cell>)
    ensures WellFormed(cells, Dims(3, 3))
  {
    seq(9, i requires 0 <= i < 9 => Cell(i % 3, i / 3, i % 3 == 0, true))
  }

  /**
   * Once committed and staged states differ, a tick is not the two-phase
   * generation of the grid it commits: in ColumnExample the tick commits
   * an all-alive grid, where every cell has eight live neighbours and the
   * two-phase rule kills slot 0, yet slot 0 still reads slots 1 to 8 in
   * their old state, sees two live neighbours and survives.
   */
  lemma LaterTickIsNotSynchronous()
    ensures NextPlane(Tick(ColumnExample(), Dims(3, 3)))[0]
    ensures !SynchronousNext(Committed(ColumnExample()), NeighbourCount(Dims(3, 3)))[0]
  {
    var cells := ColumnExample();
    TickFirstSlot(cells, Dims(3, 3));
    ColumnSeenCount();
    SynchronousFirstSlot();
  }

  /** The two-phase rule kills slot 0 of the committed ColumnExample. */
  lemma SynchronousFirstSlot()
    ensures !SynchronousNext(Committed(ColumnExample()), NeighbourCount(Dims(3, 3)))[0]
  {
    assert AlivePlane(Committed(ColumnExample())) == [true, true, true, true, true, true, true, true, true];
    AllAliveCount();
  }

  /** What a tick stages in slot 0, for any grid. */
  lemma TickFirstSlot(cells: seq<Cell>, dims: Dims)
    requires Shaped(cells, dims) && |cells| > 0
    ensures NextPlane(Tick(cells, dims))[0] ==
              NextState(cells[0].aliveNext, LiveNeighbors(SeenBy(cells, 0), dims, cells[0].x, cells[0].y))
  {
    assert Tick(cells, dims)[0].aliveNext == StagedDuringTick(cells, NeighbourCount(dims), 0);
  }

  /** Slot 0 of ColumnExample reads its two column neighbours alive and the rest dead. */
  lemma ColumnSeenCount()
    ensures SeenBy(ColumnExample(), 0) == [true, false, false, true, false, false, true, false, false]
    ensures LiveNeighbors(SeenBy(ColumnExample(), 0), Dims(3, 3), 0, 0) == 2
  {
    ColumnSeenPlane();
    var plane := [true, false, false, true, false, false, true, false, false];
    var add := Add(plane, Dims(3, 3));
    ProbeThreeByThree(plane, -1, 0);
    ProbeThreeByThree(plane, 1, 0);
    ProbeThreeByThree(plane, 0, 1);
    ProbeThreeByThree(plane, 0, -1);
    ProbeThreeByThree(plane, -1, 1);
    ProbeThreeByThree(plane, 1, 1);
    ProbeThreeByThree(plane, -1, -1);
    ProbeThreeByThree(plane, 1, -1);
    assert add(-1, 0) == 0 && add(1, 0) == 0 && add(0, 1) == 1 && add(0, -1) == 1;
    assert add(-1, 1) == 0 && add(1, 1) == 0 && add(-1, -1) == 0 && add(1, -1) == 0;
  }

  /** What slot 0 of ColumnExample reads: only column 0 was committed alive before it. */
  lemma ColumnSeenPlane()
    ensures SeenBy(ColumnExample(), 0) == [true, false, false, true, false, false, true, false, false]
  {
  }

  /** On a 3 by 3 torus a probe reads slot `x mod 3 + 3 * (y mod 3)`. */
  lemma ProbeThreeByThree(plane: seq<bool>, x: int, y: int)
    requires |plane| == 9 && -1 <= x <= 3 && -1 <= y <= 3
    ensures 0 <= x % 3 + 3 * (y % 3) < 9
    ensures Add(plane, Dims(3, 3))(x, y) == if plane[x % 3 + 3 * (y % 3)] then 1 else 0
  {
    assert Product(3, 3) == 9;
    AddIsToroidal(plane, Dims(3, 3), x, y);
    ProductIsMultiplication(3, y % 3);
  }

  /** On an all-alive 3 by 3 torus every cell has eight live neighbours. */
  lemma AllAliveCount()
    ensures LiveNeighbors([true, true, true, true, true, true, true, true, true], Dims(3, 3), 0, 0) == 8
  {
    var plane := [true, true, true, true, true, true, true, true, true];
    var add := Add(plane, Dims(3, 3));
    ProbeThreeByThree(plane, -1, 0);
    ProbeThreeByThree(plane, 1, 0);
    ProbeThreeByThree(plane, 0, 1);
    ProbeThreeByThree(plane, 0, -1);
    ProbeThreeByThree(plane, -1, 1);
    ProbeThreeByThree(plane, 1, 1);
    ProbeThreeByThree(plane, -1, -1);
    ProbeThreeByThree(plane, 1, -1);
    assert add(-1, 0) == 1 && add(1, 0) == 1 && add(0, 1) == 1 && add(0, -1) == 1;
    assert add(-1, 1) == 1 && add(1, 1) == 1 && add(-1, -1) == 1 && add(1, -1) == 1;
  }

  /** Which draw ends up in column `x`, row `y`: the closed form of the counter `MakeCells` advances once per cell, column by column. */
  function Draw(seed: seq<bool>, dims: Dims, x: int, y: int): (b: bool)
    requires |seed| == Product(dims.rows, dims.columns)
    requires 0 <= x < dims.columns && 0 <= y < dims.rows
    ensures 0 <= x * dims.rows + y < |seed| && b == seed[x * dims.rows + y]
  {
    ProductIsMultiplication(dims.rows, x);
    FlatIndexInRange(y, x, dims.rows, dims.columns);
    seed[FlatIndex(y, x, dims.rows)]
  }

  /**
   * `makeCells`, with the Bernoulli draws supplied as `seed` and used up one
   * per cell as the nested loops reach it (x outer, y inner). Every slot is
   * filled with the cell its index addresses, alive as drawn and staged the same.
   */
  method MakeCells(dims: Dims, seed: seq<bool>) returns (cells: seq<Cell>)
    requires |seed| == Product(dims.rows, dims.columns)
    ensures WellFormed(cells, dims)
    ensures forall i :: 0 <= i < |cells| ==>
              cells[i].alive == Draw(seed, dims, cells[i].x, cells[i].y) && cells[i].aliveNext == cells[i].alive
  {
    var placeholder := Cell(0, 0, false, false);
    cells := seq(Product(dims.columns, dims.rows), _ => placeholder);
    var x, k := 0, 0;
    while x < dims.columns
      invariant 0 <= x <= dims.columns
      invariant k == Product(dims.rows, x)
      invariant |cells| == Product(dims.columns, dims.rows)
      invariant forall a, b :: 0 <= a < x && 0 <= b < dims.rows ==>
                  CellAt(cells, dims, a, b) == Cell(a, b, Draw(seed, dims, a, b), Draw(seed, dims, a, b))
    {
      var y := 0;
      while y < dims.rows
        invariant 0 <= y <= dims.rows
        invariant k == FlatIndex(y, x, dims.rows)
        invariant |cells| == Product(dims.columns, dims.rows)
        invariant forall a, b :: 0 <= b < dims.rows && (0 <= a < x || (a == x && 0 <= b < y)) ==>
                    CellAt(cells, dims, a, b) == Cell(a, b, Draw(seed, dims, a, b), Draw(seed, dims, a, b))
      {
        FlatIndexInRange(y, x, dims.rows, dims.columns);
        var alive := seed[k];
        k := k + 1;
        var c := Cell(x, y, alive, alive);
        FlatIndexInRange(x, y, dims.columns, dims.rows);
        var before := cells;
        cells := cells[FlatIndex(x, y, dims.columns) := c];
        forall a, b | 0 <= a < dims.columns && 0 <= b < dims.rows && (a, b) != (x, y)
          ensures CellAt(cells, dims, a, b) == CellAt(before, dims, a, b)
        {
          if FlatIndex(a, b, dims.columns) == FlatIndex(x, y, dims.columns) {
            FlatIndexInjective(a, b, x, y, dims.columns);
          }
          FlatIndexInRange(a, b, dims.columns, dims.rows);
          assert CellAt(cells, dims, a, b) == cells[FlatIndex(a, b, dims.columns)];
        }
        y := y + 1;
      }
      x := x + 1;
    }
    forall i | 0 <= i < |cells|
      ensures 0 <= cells[i].x < dims.columns && 0 <= cells[i].y < dims.rows
      ensures FlatIndex(cells[i].x, cells[i].y, dims.columns) == i
      ensures cells[i].alive == Draw(seed, dims, cells[i].x, cells[i].y) && cells[i].aliveNext == cells[i].alive
    {
      var a, b := FlatIndexCovers(i, dims.columns, dims.rows);
      assert cells[i] == CellAt(cells, dims, a, b);
    }
  }
}
