# gogames: the pure logic inside the demos

This project models, in Dafny, the game logic of three graphical demos in
the gogames collection, leaving the graphics aside:

- **Conway's Game of Life**, in its two copies. `life/main.go` keeps the
  500 by 500 cells in one flat slice (cell (x, y) at index `x + y*columns`).
  `main.go` keeps 100 by 100 cells as `cells[x][y]`. Both copies have the same
  `checkState` rule and the same toroidal `liveNeighbors` count. They differ
  in how a neighbour is addressed and in the order in which a tick visits the
  cells. The shared parts live in module `Conway`; the two layouts live in
  `FlatLife` and `NestedLife`.
- **Lights Out** (`lightsout/main.go`), in module `LightsOut`. It covers the
  8 by 8 board, its colouring, and what one frame of `run` does with the
  reset key, a click and the win check.
- **The clamps** of `maths.go`, in module `Maths`, over the `pixel` vector
  and rectangle of module `Geometry`. Also the **size bounds** of the
  appleseed player (`appleseed/objects/toon.go`), in module `Appleseed`.

## How a Life tick works

`checkState` first commits the cell's staged state (`alive = aliveNext`).
It then counts the live neighbours and stages the next state. The tick
calls it on every cell in turn, in place. So the tick is not the usual
two-phase generation:

- neighbours visited earlier in the same tick are seen in their newly
  committed state;
- neighbours not yet visited are seen in their previous state.

The model follows the code. `Scan` is a left-to-right fold of `CheckState`.
`SeenBy` states what each cell reads. `Tick` proves that every cell ends
up showing the state it had staged and staging Conway's rule for what it
saw. The usual two-phase generation, where every cell reads one snapshot
of the committed states, appears twice:

- `FirstTickIsSynchronous` proves the two agree on the first tick after
  `makeCells`, where staged and committed states are equal.
- `LaterTickIsNotSynchronous` gives a 3 by 3 grid on which a later tick does
  not agree with it.

Both Life scans are generic over the neighbour count (`Census`), so they
hold for any counting function. `Tick` instantiates them with
`liveNeighbors`.

## Model

| member | source | states |
|---|---|---|
| Conway.NextState | life/main.go:108-132 | the four rule branches each hold (under 2 dies, 2 or 3 survives, over 3 dies, dead with 3 is born, any other dead cell stays dead), which together are the B3/S23 rule: next iff count is 3, or alive and count is 2 |
| Conway.Wrap | life/main.go:140-149 | a neighbour coordinate -1 goes to size-1, size goes to 0, and in-range ones are kept, so the result is always on the board |
| Conway.WrapIsModulo | main.go:123-132 | on the coordinates the closure receives, the edge wrap is reduction modulo the side length |
| Conway.NeighbourOffsetsAreMooreNeighbourhood | life/main.go:156-163 | the eight `add` calls use eight distinct steps, and these are exactly the steps to the surrounding cells |
| Conway.EightCalls | life/main.go:156-163 | the eight `add` calls of `liveNeighbors` in source order (identical in main.go:139-146); when every probe gives 0 or 1 the count is at most 8 |
| Conway.EightCallsProbeNeighbourhood | main.go:139-146 | the eight calls in source order sum the probe over the Moore-neighbourhood offsets |
| Conway.FlatIndexInRange | life/main.go:151 | an in-range (x, y) addresses a slot of the `rows*columns` slice |
| Conway.FlatIndexInjective | life/main.go:235 | distinct in-range coordinates address distinct slots, so `makeCells` writes each slot at most once |
| Conway.FlatIndexCovers | life/main.go:227-237 | every slot of the slice is addressed by some in-range (x, y), so `makeCells` leaves no slot empty |
| FlatLife.WrappedIndex | life/main.go:138-151 | the slot `add` reads for a neighbour coordinate is always inside the slice |
| FlatLife.WrappedIndexIsToroidal | life/main.go:140-151 | that slot is the one of the coordinates reduced modulo the columns and rows |
| FlatLife.Lookup | life/main.go:151-153 | one probe contributes 0 or 1 |
| FlatLife.AddIsToroidal | life/main.go:138-154 | a probe adds 1 exactly when the cell at the wrapped coordinates is alive |
| FlatLife.LiveNeighbors | life/main.go:136-166 | the count is at most 8 |
| FlatLife.LiveNeighborsCountsNeighbourhood | life/main.go:156-165 | the count is the probe summed over the eight Moore offsets |
| FlatLife.CheckState | life/main.go:107-133 | only the receiving slot changes; its coordinates are kept; it commits `alive := aliveNext`; it stages NextState for the count taken on the grid after the commit |
| FlatLife.CommitShowsSeen | life/main.go:108-111 | once the scan reaches slot i and commits it, the grid's committed states are exactly what SeenBy says slot i reads |
| FlatLife.Scan | life/main.go:206-208 | a partial tick keeps the slice's size, bounds and every cell's coordinates |
| FlatLife.ScanState | life/main.go:206-208 | after k iterations the first k slots are committed and restaged from what they saw, and the rest are untouched |
| FlatLife.Tick | life/main.go:206-208 | after a tick every cell's `alive` is its pre-tick `aliveNext`, and its new `aliveNext` is Conway's rule for the lazily committed neighbours it saw |
| FlatLife.TickKeepsWellFormed | life/main.go:206-208 | a tick keeps every cell in the slot its coordinates address |
| FlatLife.FirstTickIsSynchronous | life/main.go:222-239 | on a grid as `makeCells` leaves it (alive == aliveNext), a tick stages exactly the two-phase generation |
| FlatLife.LaterTickIsNotSynchronous | life/main.go:206-208 | on a 3 by 3 grid with staged and committed states differing, the tick keeps slot 0 alive where the two-phase rule kills it |
| FlatLife.AllAliveCount | life/main.go:136-166 | on an all-alive 3 by 3 torus a cell counts eight live neighbours |
| FlatLife.ColumnSeenCount | life/main.go:206-208 | in the 3 by 3 example slot 0 reads only its own column as alive, because no later slot has committed yet, and counts two live neighbours |
| FlatLife.MakeCells | life/main.go:222-239 | the result is well formed, with every slot holding the cell its index addresses; the loops use up the draws one at a time, x outer and y inner, so the cell at column x, row y is alive as draw number `x*rows + y` says, and is staged the same |
| NestedLife.Lookup | main.go:121-137 | one probe contributes 0 or 1; x is wrapped against the number of slices before y is wrapped against the length of the slice it lands in, so the read is always in range |
| NestedLife.AddIsToroidal | main.go:121-137 | a probe adds 1 exactly when `cells[x mod rows][y mod columns]` is alive |
| NestedLife.LiveNeighbors | main.go:119-149 | the count is at most 8 |
| NestedLife.LiveNeighborsCountsNeighbourhood | main.go:139-148 | the count is the probe summed over the eight Moore offsets |
| NestedLife.CheckState | main.go:90-116 | only `cells[x][y]` changes; its coordinates are kept; it commits `alive := aliveNext`; it stages NextState for the count taken after the commit |
| NestedLife.CommitShowsSeen | main.go:91-94 | once the scan reaches (x, y) and commits it, the grid's committed states are what SeenBy says (x, y) reads |
| NestedLife.Scan | main.go:185-189 | a partial tick keeps the grid's shape and every cell's coordinates |
| NestedLife.ScanState | main.go:185-189 | after the scan reaches (x, y), the cells visited before it are committed and restaged from what they saw, and the rest are untouched |
| NestedLife.RowEndStartsNextRow | main.go:185-186 | finishing slice x is the same progress as starting slice x+1 |
| NestedLife.CheckStateAdvances | main.go:186-188 | one `checkState` call moves the scan's progress from (x, y) to (x, y+1) |
| NestedLife.Tick | main.go:185-189 | after an x-outer, y-inner tick every cell's `alive` is its pre-tick `aliveNext`, and its new `aliveNext` is Conway's rule for the neighbours it saw |
| NestedLife.TickKeepsWellFormed | main.go:185-189 | a tick keeps every cell at the position its coordinates name |
| NestedLife.FirstTickIsSynchronous | main.go:199-216 | on a grid as `makeCells` leaves it, a tick stages exactly the two-phase generation |
| NestedLife.MakeCells | main.go:199-216 | the result has `rows` slices of `columns` cells; the loops use up the draws one at a time, x outer and y inner, so `cells[x][y]` has coordinates (x, y), is alive as draw number `x*columns + y` says, and is staged the same |
| LightsOut.SquareOf | lightsout/main.go:187 | every square index is `x + y*8` for the column and row it lies in |
| LightsOut.SquareColorOn | lightsout/main.go:119-130 | the colour list is cycled with period 3 on even sides and 2 on odd ones |
| LightsOut.SquareColor | lightsout/main.go:119-130 | on the 8 by 8 board square i gets `squareColors[i % 3]` |
| LightsOut.AdjacentSquaresDiffer | lightsout/main.go:119-130 | orthogonally adjacent squares of the 8 by 8 board get different colours |
| LightsOut.SixBySixRepeatsColumns | lightsout/main.go:122 | on a 6 by 6 board each square gets the colour of the one above it, the case the source's comment warns of |
| LightsOut.NewGrid | lightsout/main.go:108-117 | all 64 squares are lit and square i is painted `squareColors[i % 3]` |
| LightsOut.InitialGame | lightsout/main.go:153-167 | the game starts on `newGrid()` with zero moves and `winner` false |
| LightsOut.Toggle | lightsout/main.go:194 | one square flips and no other changes |
| LightsOut.Press | lightsout/main.go:194-210 | a press on an on-board square flips exactly the squares of its cross, i.e. the square itself and its orthogonal neighbours inside the board, with no wrap-around; the pressed square always flips; ToggleAllFlipsCross shows this is what the five toggles do |
| LightsOut.ToggleAllFlips | lightsout/main.go:194-210 | toggling distinct in-range indices in turn flips exactly the squares named, whatever their order |
| LightsOut.PressIndicesAreCross | lightsout/main.go:194-210 | for a square on the board, the guarded indices are in range, distinct, and exactly the square and its in-board orthogonal neighbours |
| LightsOut.ToggleAllFlipsCross | lightsout/main.go:194-210 | on the board the five guarded toggles flip the pressed square and its in-board orthogonal neighbours, with no wrap-around, and change nothing else |
| LightsOut.PressTwiceRestores | lightsout/main.go:194-210 | pressing the same square twice restores the board |
| LightsOut.PressesCommute | lightsout/main.go:194-210 | two presses give the same board in either order |
| LightsOut.WinCheck | lightsout/main.go:214-219 | `winner` becomes true exactly when no square is lit, and is otherwise left as it was |
| LightsOut.AnyLit | lightsout/main.go:214-218 | the scan finds a lit square iff not every square is off |
| LightsOut.Frame | lightsout/main.go:176-219 | one frame, with off-board clicks ignored: it keeps a 64-square board, and the move counter is the post-reset counter plus one exactly when the click is accepted (not won, clicked, on the board); FrameEffect and FramePreservesConsistent give the rest |
| LightsOut.FrameEffect | lightsout/main.go:176-219 | a reset restarts from the initial game; an accepted click adds exactly one move and applies the press; anything else changes neither counter nor board |
| LightsOut.ResetRestartsGame | lightsout/main.go:176-180 | a reset gives a fresh lit board, zero moves and no winner |
| LightsOut.WonGameIsFrozen | lightsout/main.go:182 | once won, every frame without a reset leaves the game as it is |
| LightsOut.InitialGameIsConsistent | lightsout/main.go:166-167 | the starting state has a full board coloured as `newGrid` colours it, and is not won |
| LightsOut.FramePreservesConsistent | lightsout/main.go:176-219 | every frame keeps `winner` true exactly when all lights are out |
| LightsOut.PressIndicesAsWritten | lightsout/main.go:187-210 | the indices the five guarded toggles touch, in source order: one to five of them, the first being `x + y*8` |
| LightsOut.ToggleAll | lightsout/main.go:194-210 | toggling the indices in turn succeeds exactly when all are inside the board; otherwise it stops at an index that is in the list and out of range, the index-out-of-range panic |
| LightsOut.FrameAsWritten | lightsout/main.go:182-219 | the frame as written keeps a 64-square board whenever it does not panic |
| LightsOut.AsWrittenIgnoresHighIndex | lightsout/main.go:187-190 | a click with index 64 or more leaves board, counter and winner flag unchanged |
| LightsOut.AsWrittenAgreesInsideBoard | lightsout/main.go:183-212 | for every cell the cursor can produce except column 8, the frame as written is the corrected frame |
| LightsOut.RightEdgeClickPanics | lightsout/main.go:187-210 | the click at cell (8, 6) passes the guard and toggles index 64, which is out of range |
| LightsOut.RightEdgeClickFlipsOtherRows | lightsout/main.go:187-210 | the click at cell (8, 0) counts a move and flips squares 7, 8 and 16, none of them in the clicked cross |
| LightsOut.FrameIgnoresOffBoardClicks | lightsout/main.go:187-190 | the corrected frame leaves the game unchanged on any off-board click |
| Maths.LimitWithinBounds | maths.go:17-25 | the result is one of the three arguments; with ordered bounds it lies in [min, max]; a value already inside is unchanged |
| Maths.ClampIsMaxOfMin | maths.go:17-25 | with ordered bounds the clamp equals max(min, min(value, max)) |
| Maths.ClampIsNearest | maths.go:17-25 | with ordered bounds the result is the point of [min, max] nearest to the value |
| Maths.ClampIsMonotone | maths.go:17-25 | with ordered bounds the clamp preserves order |
| Maths.ClampIsIdempotent | maths.go:17-25 | with ordered bounds clamping twice is clamping once |
| Maths.InvertedBoundsAreNotIdempotent | maths.go:17-25 | with min > max the clamp returns min for a small value, and clamping that again returns max |
| Maths.LimitWithinVec | maths.go:27-29 | the value is clamped into [vec.x, vec.y] and is unchanged when already inside |
| Maths.LimitWithinVecIsInterval | maths.go:27-29 | the vector form is the three-argument clamp with bounds vec.x and vec.y |
| Maths.LimitWithinRect | maths.go:31-36 | a point lands inside a normalized box, and a point already inside is unchanged |
| Maths.RectAxesAreIndependent | maths.go:31-36 | each coordinate of the result depends only on the same coordinate of the input |
| Maths.RectClampIsNearest | maths.go:31-36 | in a normalized box each coordinate of the result is the nearest in the box's extent on that axis |
| Maths.RectClampIsIdempotent | maths.go:31-36 | clamping into a normalized box twice is clamping once |
| Appleseed.Grow | appleseed/objects/toon.go:33-35 | size never exceeds 100; it grows by exactly 0.5 up to 99.5 and otherwise becomes 100; the physics record is unchanged |
| Appleseed.Shrink | appleseed/objects/toon.go:37-39 | size never falls below 3; it shrinks by exactly 0.5 down to 3.5 and otherwise becomes 3; the physics record is unchanged |
| Appleseed.CapsAreFixedPoints | appleseed/objects/toon.go:33-39 | Grow at 100 and Shrink at 3 change nothing |
| Appleseed.GrowShrinkRoundTrip | appleseed/objects/toon.go:33-39 | away from the caps a shrink undoes a grow and a grow undoes a shrink |
| Appleseed.Eat | appleseed/main.go:122-126 | eating apples, grower or not, never changes the physics record |
| Appleseed.StepsKeepSizeInRange | appleseed/objects/toon.go:33-39 | one Grow or Shrink keeps a size in [3, 100] there |
| Appleseed.EatingKeepsSizeInRange | appleseed/objects/toon.go:33-39 | any sequence of grows and shrinks keeps a size that starts in [3, 100] there |
| Appleseed.EatingMovesSizeGradually | appleseed/objects/toon.go:33-39 | after n apples the size is within n half-steps of where it started |

## Left out

- Rendering is not modelled, because it is foreign graphics code. This covers OpenGL, GLFW and `pixel`, shaders, vertex arrays, every `draw`/`Draw`, window setup, the Lights Out star and the cell's `drawable` handle.
- `rand.Seed` and `rand.Float64() < threshold` are not modelled, because they are randomness. `makeCells` takes a caller-supplied boolean `seed` instead, consumed one draw per cell in loop order (see `MakeCells`). The threshold 0.15 and the seed 100 are not modelled.
- Frame-rate limiting and clocks are not modelled (`fpslimiter.go`, `time.Sleep`, `glfw.GetTime`). Neither is the colour shift, which depends on time.
- The grid size is a parameter instead of the source's constants (500 by 500 in life/main.go, 100 by 100 in main.go). The properties hold for every size of at least one by one.
- The float conversion from cursor pixel to cell in Lights Out is not modelled (lightsout/main.go:183-186). The frame takes the cell (x, y) as integers. With 87.5 pixels per cell, y == 8 is the top pixel row, because the Y axis points up. x == 8 needs a cursor X of 700 or more, one past the last pixel column; whether a click can report such a position is decided by the windowing library, which is not part of this model. `AsWrittenAgreesInsideBoard` covers 0 <= x < 8 and 0 <= y <= 8.
- The move counter is unbounded, because Go's 64-bit `int` cannot overflow at one move per frame.
- Physics integration, `Distance`, `Near`, `SignedSqrt`, `Toon.Move`, apple collisions and particles are not modelled, because they are float arithmetic with square roots and randomness. Only the physics record's presence is modelled, to show that Grow and Shrink leave it alone.
- Reals replace float64 in `Maths` and `Appleseed`. NaN, infinities and rounding are not modelled. Every size Grow and Shrink produce from the start size 3 is a multiple of 0.5 between 3 and 100 inclusive, which float64 holds exactly.
- Maths.ClampIsIdempotent: proved only for ordered bounds. The source does not order its arguments, and `InvertedBoundsAreNotIdempotent` shows the property fails otherwise.
- Maths.ClampIsMonotone, Maths.ClampIsMaxOfMin and Maths.ClampIsNearest: also stated only for ordered bounds, for the same reason.
- Appleseed.EatingMovesSizeGradually: requires a start size in [3, 100]. From above 100 a single Grow drops the size straight to 100.
- Game of Life: the model's cells are values, not pointers. The source's `[]*cell` aliases each cell once, so updating a value in place is the same thing.

## Findings

| source | as written | input that shows it | evidently intended | confidence | as-written member | corrected member |
|---|---|---|---|---|---|---|
| lightsout/main.go:187-210 | the only guard on a click is `i >= 64`, so a cell with x == 8 passes it whenever 0 <= y < 7; x == 8 needs a cursor X of 700 or more, one past the last pixel column (87.5 pixels per cell); the guarded neighbour toggles then index past the end of the board or into other rows | click at cell (8, 6): index 56 passes, and the toggle of the square above indexes 64, an index-out-of-range panic; click at cell (8, 0): flips squares 8, 7 and 16, which are in rows 1, 0 and 2 and none is the clicked cell | a click outside the 8 by 8 board is ignored | not executed; low, since it needs a click reported at X >= 700, and whether the windowing library reports one is outside this code | LightsOut.FrameAsWritten, LightsOut.RightEdgeClickPanics, LightsOut.RightEdgeClickFlipsOtherRows | LightsOut.Frame, LightsOut.FrameIgnoresOffBoardClicks, LightsOut.FramePreservesConsistent |
