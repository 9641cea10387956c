/**
 * The Game of Life demo of main.go: the cells are kept as `cells[x][y]`,
 * an outer slice of `rows` inner slices of `columns` cells each. A tick
 * visits them slice by slice (x outer, y inner), and `checkState` commits
 * each cell's staged state before it counts the neighbours, as in
 * FlatLife; the visiting order and the wrap-around are the nested ones.
 */
module NestedLife {
  import opened Conway

  /** Grid shape: `rows` outer slices of `columns` cells; main.go fixes both at 100. */
  datatype Shape = Shape(rows: nat, columns: nat)

  type Grid = seq<seq<Cell>>

  /** Committed (or staged) states, indexed like the grid. */
  type Plane = seq<seq<bool>>

  /** `rows` inner slices of `columns` entries each. */
  predicate Rectangular<T>(g: seq<seq<T>>, shape: Shape) {
    && |g| == shape.rows
    && forall x :: 0 <= x < shape.rows ==> |g[x]| == shape.columns
  }

  /**
   * What `checkState` needs of the grid to stay in bounds: a rectangle of
   * the shape, every cell's coordinates inside it.
   */
  predicate Shaped(grid: Grid, shape: Shape) {
    && Rectangular(grid, shape)
    && forall x, y :: 0 <= x < shape.rows && 0 <= y < shape.columns ==>
         0 <= grid[x][y].x < shape.rows && 0 <= grid[x][y].y < shape.columns
  }

  /** The shape `makeCells` builds: in addition, `cells[x][y]` carries the coordinates (x, y). */
  predicate WellFormed(grid: Grid, shape: Shape) {
    && Shaped(grid, shape)
    && forall x, y :: 0 <= x < shape.rows && 0 <= y < shape.columns ==> grid[x][y].x == x && grid[x][y].y == y
  }

  /** Two grids of the same shape whose cells carry the same coordinates. */
  predicate SameCoordinates(grid: Grid, grid': Grid, shape: Shape)
    requires Rectangular(grid, shape) && Rectangular(grid', shape)
  {
    forall x, y :: 0 <= x < shape.rows && 0 <= y < shape.columns ==>
      grid'[x][y].x == grid[x][y].x && grid'[x][y].y == grid[x][y].y
  }

  /** What the renderer reads: the committed state of every cell. */
  function AlivePlane(grid: Grid): (plane: Plane)
    ensures |plane| == |grid|
    ensures forall x :: 0 <= x < |grid| ==> |plane[x]| == |grid[x]|
    ensures forall x, y :: 0 <= x < |grid| && 0 <= y < |grid[x]| ==> plane[x][y] == grid[x][y].alive
  {
    seq(|grid|, x requires 0 <= x < |grid| => seq(|grid[x]|, y requires 0 <= y < |grid[x]| => grid[x][y].alive))
  }

  /** The staged state of every cell. */
  function NextPlane(grid: Grid): (plane: Plane)
    ensures |plane| == |grid|
    ensures forall x :: 0 <= x < |grid| ==> |plane[x]| == |grid[x]|
    ensures forall x, y :: 0 <= x < |grid| && 0 <= y < |grid[x]| ==> plane[x][y] == grid[x][y].aliveNext
  {
    seq(|grid|, x requires 0 <= x < |grid| => seq(|grid[x]|, y requires 0 <= y < |grid[x]| => grid[x][y].aliveNext))
  }

  /**
   * The `add` closure for (x, y): x wraps against the number of slices,
   * then y against the length of the slice x landed in.
   */
  function Lookup(plane: Plane, shape: Shape, x: int, y: int): (n: nat)
    requires Rectangular(plane, shape) && shape.rows > 0 && shape.columns > 0
    requires -1 <= x <= shape.rows && -1 <= y <= shape.columns
    ensures n <= 1
  {
    var wx := Wrap(x, |plane|);
    var wy := Wrap(y, |plane[wx]|);
    if plane[wx][wy] then 1 else 0
  }

  /**
   * The `add` closure of `liveNeighbors` over the committed states `plane`.
   * It is only ever called at most one step off the grid; beyond that the
   * value 0 is arbitrary.
   */
  function Add(plane: Plane, shape: Shape): (add: Probe)
    requires Rectangular(plane, shape) && shape.rows > 0 && shape.columns > 0
    ensures forall x, y {:trigger add(x, y)} :: -1 <= x <= shape.rows && -1 <= y <= shape.columns ==>
              add(x, y) == Lookup(plane, shape, x, y)
  {
    (x: int, y: int) =>
      if -1 <= x <= shape.rows && -1 <= y <= shape.columns then Lookup(plane, shape, x, y) else 0
  }

  /** `liveNeighbors`: the live cells around (x, y) on the torus. */
  function LiveNeighbors(plane: Plane, shape: Shape, x: int, y: int): (n: nat)
    requires Rectangular(plane, shape) && shape.rows > 0 && shape.columns > 0
    requires 0 <= x < shape.rows && 0 <= y < shape.columns
    ensures n <= 8
  {
    EightCalls(Add(plane, shape), x, y)
  }

  /**
   * The eight calls count the live cells of the Moore neighbourhood of
   * (x, y): by NeighbourOffsetsAreMooreNeighbourhood every surrounding cell
   * is probed once, and by AddIsToroidal each probe reads the cell at its
   * coordinates reduced modulo the sides.
   */
  lemma LiveNeighborsCountsNeighbourhood(plane: Plane, shape: Shape, x: int, y: int)
    requires Rectangular(plane, shape) && shape.rows > 0 && shape.columns > 0
    requires 0 <= x < shape.rows && 0 <= y < shape.columns
    ensures LiveNeighbors(plane, shape, x, y) == CountOver(Add(plane, shape), x, y, NeighbourOffsets)
  {
    EightCallsProbeNeighbourhood(Add(plane, shape), x, y);
  }

  /** A probe one step off the grid reads the cell at its coordinates reduced modulo the sides. */
  lemma AddIsToroidal(plane: Plane, shape: Shape, x: int, y: int)
    requires Rectangular(plane, shape) && shape.rows > 0 && shape.columns > 0
    requires -1 <= x <= shape.rows && -1 <= y <= shape.columns
    ensures Add(plane, shape)(x, y) == if plane[x % shape.rows][y % shape.columns] then 1 else 0
  {
    WrapIsModulo(x, shape.rows);
    WrapIsModulo(y, shape.columns);
  }

  /**
   * A neighbour count over a plane of committed states, by coordinates.
   * The scan below is stated for any count, so that its proof does not
   * depend on how `liveNeighbors` wraps; Tick instantiates it with
   * NeighbourCount.
   */
  type Census = (Plane, int, int) -> nat

  /** `liveNeighbors` on grids of the given shape (0 elsewhere, where it is never asked). */
  function NeighbourCount(shape: Shape): (count: Census)
    ensures forall plane, x, y {:trigger count(plane, x, y)} ::
              Rectangular(plane, shape) && shape.rows > 0 && shape.columns > 0 &&
              0 <= x < shape.rows && 0 <= y < shape.columns ==>
                count(plane, x, y) == LiveNeighbors(plane, shape, x, y)
  {
    (plane: Plane, x: int, y: int) =>
      if Rectangular(plane, shape) && shape.rows > 0 && shape.columns > 0 &&
         0 <= x < shape.rows && 0 <= y < shape.columns
      then LiveNeighbors(plane, shape, x, y)
      else 0
  }

  /**
   * `checkState` for `cells[x][y]`: commit the staged state, then stage
   * Conway's rule for the committed state and the neighbours as they now
   * read. No other cell changes.
   */
  function CheckState(grid: Grid, shape: Shape, count: Census, x: int, y: int): (r: Grid)
    requires Shaped(grid, shape) && 0 <= x < shape.rows && 0 <= y < shape.columns
    ensures Shaped(r, shape)
    ensures forall a, b :: 0 <= a < shape.rows && 0 <= b < shape.columns && (a != x || b != y) ==>
              r[a][b] == grid[a][b]
    ensures r[x][y].x == grid[x][y].x && r[x][y].y == grid[x][y].y
    ensures r[x][y].alive == grid[x][y].aliveNext
    ensures r[x][y].aliveNext == NextState(r[x][y].alive, count(AlivePlane(r), r[x][y].x, r[x][y].y))
  {
    var c := grid[x][y];
    var committed := c.(alive := c.aliveNext);
    var restaged := committed.(aliveNext := committed.alive);
    var staging := grid[x := grid[x][y := restaged]];
    var liveCount := count(AlivePlane(staging), c.x, c.y);
    var r := staging[x := staging[x][y := restaged.(aliveNext := NextState(restaged.alive, liveCount))]];
    assert AlivePlane(r) == AlivePlane(staging) by {
      forall a | 0 <= a < |r|
        ensures AlivePlane(r)[a] == AlivePlane(staging)[a]
      {
      }
    }
    r
  }

  /** (a, b) is visited before (x, y): slices in order, cells within a slice in order. */
  predicate Before(a: int, b: int, x: int, y: int) {
    a < x || (a == x && b < y)
  }

  /**
   * What `cells[x][y]` reads during a tick: every cell up to and including
   * it has been committed already, every later one has not.
   */
  function SeenBy(grid: Grid, x: int, y: int): (plane: Plane)
    ensures |plane| == |grid|
    ensures forall a :: 0 <= a < |grid| ==> |plane[a]| == |grid[a]|
    ensures forall a, b :: 0 <= a < |grid| && 0 <= b < |grid[a]| ==>
              plane[a][b] == if Before(a, b, x, y) || (a == x && b == y) then grid[a][b].aliveNext else grid[a][b].alive
  {
    seq(|grid|, a requires 0 <= a < |grid| =>
      seq(|grid[a]|, b requires 0 <= b < |grid[a]| =>
        if Before(a, b, x, y) || (a == x && b == y) then grid[a][b].aliveNext else grid[a][b].alive))
  }

  /**
   * The state `cells[x][y]` stages during a tick: Conway's rule for its
   * freshly committed state and the neighbours as it reads them.
   */
  function StagedDuringTick(grid: Grid, count: Census, x: int, y: int): bool
    requires 0 <= x < |grid| && 0 <= y < |grid[x]|
  {
    NextState(grid[x][y].aliveNext, count(SeenBy(grid, x, y), grid[x][y].x, grid[x][y].y))
  }

  /**
   * `r` is what the loop leaves once it has reached (x, y): every cell
   * visited before (x, y) has committed its staged state and staged a new
   * one from what it saw; the rest are untouched.
   */
  predicate Progressed(grid: Grid, r: Grid, shape: Shape, count: Census, x: int, y: int)
    requires Rectangular(grid, shape) && Rectangular(r, shape)
  {
    forall a, b :: 0 <= a < shape.rows && 0 <= b < shape.columns ==> CellProgressed(grid, r, count, x, y, a, b)
  }

  /** Progressed, for the cell (a, b). */
  predicate CellProgressed(grid: Grid, r: Grid, count: Census, x: int, y: int, a: int, b: int)
    requires 0 <= a < |grid| == |r| && 0 <= b < |grid[a]| == |r[a]|
  {
    if Before(a, b, x, y) then
      r[a][b].alive == grid[a][b].aliveNext && r[a][b].aliveNext == StagedDuringTick(grid, count, a, b)
    else
      r[a][b] == grid[a][b]
  }

  /**
   * Once the loop has reached (x, y) and `checkState` has committed it,
   * the committed states are exactly what SeenBy says (x, y) reads.
   */
  lemma CommitShowsSeen(grid: Grid, before: Grid, shape: Shape, count: Census, x: int, y: int)
    requires Shaped(grid, shape) && Shaped(before, shape)
    requires 0 <= x < shape.rows && 0 <= y < shape.columns
    requires Progressed(grid, before, shape, count, x, y)
    ensures AlivePlane(CheckState(before, shape, count, x, y)) == SeenBy(grid, x, y)
  {
    var r := CheckState(before, shape, count, x, y);
    forall a | 0 <= a < shape.rows
      ensures AlivePlane(r)[a] == SeenBy(grid, x, y)[a]
    {
      forall b | 0 <= b < shape.columns
        ensures AlivePlane(r)[a][b] == SeenBy(grid, x, y)[a][b]
      {
        assert CellProgressed(grid, before, count, x, y, a, b);
      }
    }
  }

  /**
   * The tick loop once it has visited every cell before (x, y); (rows, 0)
   * is the end of the tick. ScanState says what it leaves in each cell.
   */
  function Scan(grid: Grid, shape: Shape, count: Census, x: nat, y: nat): (r: Grid)
    requires Shaped(grid, shape) && x <= shape.rows && y <= shape.columns && (x == shape.rows ==> y == 0)
    ensures Shaped(r, shape) && SameCoordinates(grid, r, shape)
    decreases x, y
  {
    if y == 0 then
      if x == 0 then grid else Scan(grid, shape, count, x - 1, shape.columns)
    else
      CheckState(Scan(grid, shape, count, x, y - 1), shape, count, x, y - 1)
  }

  /** The loop leaves Progressed grids all the way. */
  lemma {:induction false} ScanState(grid: Grid, shape: Shape, count: Census, x: nat, y: nat)
    requires Shaped(grid, shape) && x <= shape.rows && y <= shape.columns && (x == shape.rows ==> y == 0)
    ensures Progressed(grid, Scan(grid, shape, count, x, y), shape, count, x, y)
    decreases x, y, 1
  {
    if y > 0 {
      ScanStep(grid, shape, count, x, y);
    } else if x > 0 {
      ScanRowStart(grid, shape, count, x);
    }
  }

  /** ScanState at the start of slice x > 0. */
  lemma {:induction false} ScanRowStart(grid: Grid, shape: Shape, count: Census, x: nat)
    requires Shaped(grid, shape) && 0 < x <= shape.rows
    ensures Progressed(grid, Scan(grid, shape, count, x, 0), shape, count, x, 0)
    decreases x, 0, 0
  {
    ScanState(grid, shape, count, x - 1, shape.columns);
    var before := Scan(grid, shape, count, x - 1, shape.columns);
    RowEndStartsNextRow(grid, before, shape, count, x - 1, x);
    assert Scan(grid, shape, count, x, 0) == before;
  }

  /** ScanState after the cell (x, y - 1). */
  lemma {:induction false} ScanStep(grid: Grid, shape: Shape, count: Census, x: nat, y: nat)
    requires Shaped(grid, shape) && x < shape.rows && 0 < y <= shape.columns
    ensures Progressed(grid, Scan(grid, shape, count, x, y), shape, count, x, y)
    decreases x, y, 0
  {
    ScanState(grid, shape, count, x, y - 1);
    var before := Scan(grid, shape, count, x, y - 1);
    CheckStateAdvances(grid, before, shape, count, x, y - 1, y);
    assert Scan(grid, shape, count, x, y) == CheckState(before, shape, count, x, y - 1);
  }

  /** Passing the end of slice x is reaching the start of slice x + 1. */
  lemma RowEndStartsNextRow(grid: Grid, r: Grid, shape: Shape, count: Census, x: int, next: int)
    requires Rectangular(grid, shape) && Rectangular(r, shape) && next == x + 1
    requires Progressed(grid, r, shape, count, x, shape.columns)
    ensures Progressed(grid, r, shape, count, next, 0)
  {
    forall a, b | 0 <= a < shape.rows && 0 <= b < shape.columns
      ensures CellProgressed(grid, r, count, next, 0, a, b)
    {
      assert CellProgressed(grid, r, count, x, shape.columns, a, b);
    }
  }

  /**
   * One step of the loop: if `before` is the grid the loop leaves when it
   * reaches (x, y), then `checkState` on (x, y) leaves the grid the loop
   * leaves when it passes it.
   */
  lemma CheckStateAdvances(grid: Grid, before: Grid, shape: Shape, count: Census, x: int, y: int, next: int)
    requires Shaped(grid, shape) && Shaped(before, shape)
    requires 0 <= x < shape.rows && 0 <= y < shape.columns && next == y + 1
    requires Progressed(grid, before, shape, count, x, y)
    ensures Progressed(grid, CheckState(before, shape, count, x, y), shape, count, x, next)
  {
    CommitShowsSeen(grid, before, shape, count, x, y);
    var r := CheckState(before, shape, count, x, y);
    forall a, b | 0 <= a < shape.rows && 0 <= b < shape.columns
      ensures CellProgressed(grid, r, count, x, next, a, b)
    {
      assert CellProgressed(grid, before, count, x, y, a, b);
    }
  }

  /**
   * One frame of the main loop: `checkState` on every cell, slice by
   * slice. Afterwards every cell shows the state it had staged before the
   * tick, and has staged Conway's rule for the neighbours as it read them.
   */
  function Tick(grid: Grid, shape: Shape): (r: Grid)
    requires Shaped(grid, shape)
    ensures Shaped(r, shape) && SameCoordinates(grid, r, shape)
    ensures AlivePlane(r) == NextPlane(grid)
    ensures forall x, y {:trigger StagedDuringTick(grid, NeighbourCount(shape), x, y)} ::
              0 <= x < shape.rows && 0 <= y < shape.columns ==>
                r[x][y].aliveNext == StagedDuringTick(grid, NeighbourCount(shape), x, y)
  {
    var count := NeighbourCount(shape);
    ScanState(grid, shape, count, shape.rows, 0);
    var r := Scan(grid, shape, count, shape.rows, 0);
    forall x, y | 0 <= x < shape.rows && 0 <= y < shape.columns
      ensures r[x][y].alive == grid[x][y].aliveNext
      ensures r[x][y].aliveNext == StagedDuringTick(grid, count, x, y)
    {
      assert CellProgressed(grid, r, count, shape.rows, 0, x, y);
    }
    assert AlivePlane(r) == NextPlane(grid) by {
      forall x | 0 <= x < shape.rows
        ensures AlivePlane(r)[x] == NextPlane(grid)[x]
      {
      }
    }
    r
  }

  /** A tick keeps every cell at the position its coordinates name. */
  lemma TickKeepsWellFormed(grid: Grid, shape: Shape)
    requires WellFormed(grid, shape)
    ensures WellFormed(Tick(grid, shape), shape)
  {
  }

  /**
   * The two-phase generation: every cell's next state computed from one
   * snapshot of the committed states.
   */
  function SynchronousNext(grid: Grid, count: Census): (plane: Plane)
    ensures |plane| == |grid|
    ensures forall x :: 0 <= x < |grid| ==> |plane[x]| == |grid[x]|
    ensures forall x, y :: 0 <= x < |grid| && 0 <= y < |grid[x]| ==>
              plane[x][y] == NextState(grid[x][y].alive, count(AlivePlane(grid), grid[x][y].x, grid[x][y].y))
  {
    seq(|grid|, x requires 0 <= x < |grid| =>
      seq(|grid[x]|, y requires 0 <= y < |grid[x]| =>
        NextState(grid[x][y].alive, count(AlivePlane(grid), grid[x][y].x, grid[x][y].y))))
  }

  /**
   * On a grid whose staged and committed states agree (as `makeCells`
   * leaves it) the lazy scan commits nothing new, so a tick stages exactly
   * the two-phase generation.
   */
  lemma FirstTickIsSynchronous(grid: Grid, shape: Shape)
    requires Shaped(grid, shape)
    requires forall x, y :: 0 <= x < shape.rows && 0 <= y < shape.columns ==> grid[x][y].alive == grid[x][y].aliveNext
    ensures AlivePlane(Tick(grid, shape)) == AlivePlane(grid)
    ensures NextPlane(Tick(grid, shape)) == SynchronousNext(grid, NeighbourCount(shape))
  {
    var r := Tick(grid, shape);
    var count := NeighbourCount(shape);
    forall x | 0 <= x < shape.rows
      ensures AlivePlane(r)[x] == AlivePlane(grid)[x]
      ensures NextPlane(r)[x] == SynchronousNext(grid, count)[x]
    {
      forall y | 0 <= y < shape.columns
        ensures r[x][y].aliveNext == SynchronousNext(grid, count)[x][y]
      {
        assert SeenBy(grid, x, y) == AlivePlane(grid) by {
          forall a | 0 <= a < shape.rows
            ensures SeenBy(grid, x, y)[a] == AlivePlane(grid)[a]
          {
          }
        }
        assert r[x][y].aliveNext == StagedDuringTick(grid, count, x, y);
      }
    }
  }

  /**
   * Which draw ends up in `cells[x][y]`: the closed form of the counter
   * `MakeCells` advances once per cell, slice by slice.
   */
  function Draw(seed: seq<bool>, shape: Shape, x: int, y: int): (b: bool)
    requires |seed| == Product(shape.columns, shape.rows)
    requires 0 <= x < shape.rows && 0 <= y < shape.columns
    ensures 0 <= x * shape.columns + y < |seed| && b == seed[x * shape.columns + y]
  {
    ProductIsMultiplication(shape.columns, x);
    FlatIndexInRange(y, x, shape.columns, shape.rows);
    seed[FlatIndex(y, x, shape.columns)]
  }

  /**
   * `makeCells`, with the Bernoulli draws supplied as `seed` and used up one
   * per cell as the nested loops reach it. Slice x is built by appending the cells
   * (x, 0), (x, 1), ... in turn, each alive as drawn and staged the same.
   */
  method MakeCells(shape: Shape, seed: seq<bool>) returns (cells: Grid)
    requires |seed| == Product(shape.columns, shape.rows)
    ensures WellFormed(cells, shape)
    ensures forall x, y :: 0 <= x < shape.rows && 0 <= y < shape.columns ==>
              cells[x][y].alive == Draw(seed, shape, x, y) && cells[x][y].aliveNext == cells[x][y].alive
  {
    cells := seq(shape.rows, _ => []);
    var x, k := 0, 0;
    while x < shape.rows
      invariant 0 <= x <= shape.rows && |cells| == shape.rows
      invariant k == Product(shape.columns, x)
      invariant forall a :: 0 <= a < x ==> |cells[a]| == shape.columns
      invariant forall a :: x <= a < shape.rows ==> cells[a] == []
      invariant forall a, b :: 0 <= a < x && 0 <= b < shape.columns ==>
                  cells[a][b] == Cell(a, b, Draw(seed, shape, a, b), Draw(seed, shape, a, b))
    {
      var y := 0;
      while y < shape.columns
        invariant 0 <= y <= shape.columns && |cells| == shape.rows
        invariant k == FlatIndex(y, x, shape.columns)
        invariant forall a :: 0 <= a < x ==> |cells[a]| == shape.columns
        invariant |cells[x]| == y
        invariant forall a :: x < a < shape.rows ==> cells[a] == []
        invariant forall a, b :: 0 <= a < x && 0 <= b < shape.columns ==>
                    cells[a][b] == Cell(a, b, Draw(seed, shape, a, b), Draw(seed, shape, a, b))
        invariant forall b :: 0 <= b < y ==> cells[x][b] == Cell(x, b, Draw(seed, shape, x, b), Draw(seed, shape, x, b))
      {
        FlatIndexInRange(y, x, shape.columns, shape.rows);
        var alive := seed[k];
        k := k + 1;
        cells := cells[x := cells[x] + [Cell(x, y, alive, alive)]];
        y := y + 1;
      }
      x := x + 1;
    }
  }
}
