/**
 * The board logic of the Lights Out demo (lightsout/main.go): an 8 by 8
 * board of squares kept row by row in one 64-entry array (square
 * `x + y*8` is column x, row y), the colour each square is painted, and
 * what one frame of the main loop does with the reset key and a mouse
 * click. The click arrives as the cell coordinates `run` computes from
 * the cursor; each frame either continues with a new game state or, as
 * written, can stop on an out-of-range array index.
 */
module LightsOut {

  /** `gridSideLength` and `gridSquares`. */
  const SideLength: int := 8
  const GridSquares: int := 64

  /** A colour as `pixel.RGB` builds it (alpha 1, not modelled). */
  datatype Rgb = Rgb(r: real, g: real, b: real)

  /** `squareColors`: red, blue and olive. */
  const SquareColors: seq<Rgb> := [Rgb(1.0, 0.1, 0.1), Rgb(0.3, 0.3, 1.0), Rgb(0.4, 0.5, 0.2)]

  /** `Grid`: which squares are lit, and the colour of each. */
  datatype Grid = Grid(squares: seq<bool>, colors: seq<Rgb>)

  /** The state `run` keeps across frames. */
  datatype Game = Game(grid: Grid, moves: nat, winner: bool)

  /** One frame's input: the R key and the left mouse button just pressed, and the cell under the cursor. */
  datatype Input = Input(reset: bool, clicked: bool, x: int, y: int)

  /** How a frame ends: with the next state, or with a Go index-out-of-range panic. */
  datatype Outcome = Continue(game: Game) | IndexOutOfRange(index: int)

  /** Column and row of square `i`. */
  function Column(i: int): int { i % SideLength }
  function Row(i: int): int { i / SideLength }

  /** Every square is addressed by its column and row, both on the board. */
  lemma SquareOf(i: int)
    requires 0 <= i < GridSquares
    ensures 0 <= Column(i) < SideLength && 0 <= Row(i) < SideLength
    ensures i == Column(i) + Row(i) * SideLength
  {
  }

  /** Square `i` is (x, y) itself or one of its four orthogonal neighbours. */
  predicate InCross(x: int, y: int, i: int) {
    var dx := Column(i) - x;
    var dy := Row(i) - y;
    (dx == 0 && -1 <= dy <= 1) || (dy == 0 && -1 <= dx <= 1)
  }

  /** Every square lit. */
  predicate AllOn(s: seq<bool>) {
    forall i :: 0 <= i < |s| ==> s[i]
  }

  /** No square lit. */
  predicate AllOff(s: seq<bool>) {
    forall i :: 0 <= i < |s| ==> !s[i]
  }

  /**
   * `squareColor` for a board of the given side: the colour list is
   * cycled with period 3 on even sides and 2 on odd ones.
   */
  function SquareColorOn(side: int, index: nat): (c: Rgb)
    ensures c in SquareColors
    ensures side % 2 == 0 ==> c == SquareColors[index % 3]
    ensures side % 2 != 0 ==> c == SquareColors[index % 2]
  {
    var mod := if side % 2 == 0 then 3 else 2;
    SquareColors[index % mod]
  }

  /** `squareColor` on the 8 by 8 board. */
  function SquareColor(index: nat): (c: Rgb)
    ensures c == SquareColors[index % 3]
  {
    SquareColorOn(SideLength, index)
  }

  /**
   * On the 8 by 8 board no two orthogonally adjacent squares share a
   * colour: squares side by side are one apart, squares one above the
   * other are eight apart, and neither distance is a multiple of 3.
   */
  lemma AdjacentSquaresDiffer(i: nat, j: nat)
    requires i < j < GridSquares
    requires (j == i + 1 && Row(i) == Row(j)) || j == i + SideLength
    ensures SquareColor(i) != SquareColor(j)
  {
  }

  /**
   * What the comment in `squareColor` warns of: on an even side that is a
   * multiple of 3 (6 by 6, say) the period-3 colouring paints each square
   * like the one above it.
   */
  lemma SixBySixRepeatsColumns(i: nat)
    ensures SquareColorOn(6, i) == SquareColorOn(6, i + 6)
  {
  }

  /** `newGrid`: every square lit and painted by `squareColor`. */
  function NewGrid(): (g: Grid)
    ensures |g.squares| == GridSquares && AllOn(g.squares)
    ensures |g.colors| == GridSquares
    ensures forall i :: 0 <= i < GridSquares ==> g.colors[i] == SquareColors[i % 3]
  {
    Grid(seq(GridSquares, _ => true), seq(GridSquares, i requires 0 <= i => SquareColor(i)))
  }

  /** The state `run` starts in and a reset returns to. */
  function InitialGame(): (g: Game)
    ensures g.grid == NewGrid() && g.moves == 0 && !g.winner
  {
    Game(NewGrid(), 0, false)
  }

  /** `grid.squares[i] = !grid.squares[i]`. */
  function Toggle(s: seq<bool>, i: int): (r: seq<bool>)
    requires 0 <= i < |s|
    ensures |r| == |s| && r[i] == !s[i]
    ensures forall j :: 0 <= j < |s| && j != i ==> r[j] == s[j]
  {
    s[i := !s[i]]
  }

  /**
   * A press on square (x, y) of the board: the square and its orthogonal
   * neighbours flip, with no wrap-around at the edges. ToggleAllFlipsCross
   * shows that the source's five guarded toggles do exactly this.
   */
  function Press(s: seq<bool>, x: int, y: int): (r: seq<bool>)
    requires |s| == GridSquares && 0 <= x < SideLength && 0 <= y < SideLength
    ensures |r| == GridSquares
    ensures forall i :: 0 <= i < GridSquares ==> r[i] == (s[i] != InCross(x, y, i))
    ensures r[x + y * SideLength] == !s[x + y * SideLength]
    ensures forall i :: 0 <= i < GridSquares && r[i] != s[i] ==>
              (Column(i) == x && (Row(i) == y - 1 || Row(i) == y || Row(i) == y + 1)) ||
              (Row(i) == y && (Column(i) == x - 1 || Column(i) == x + 1))
  {
    seq(GridSquares, i requires 0 <= i < GridSquares => s[i] != InCross(x, y, i))
  }

  /** Pressing the same square twice leaves the board as it was. */
  lemma PressTwiceRestores(s: seq<bool>, x: int, y: int)
    requires |s| == GridSquares && 0 <= x < SideLength && 0 <= y < SideLength
    ensures Press(Press(s, x, y), x, y) == s
  {
    var r := Press(Press(s, x, y), x, y);
    assert forall i :: 0 <= i < GridSquares ==> r[i] == s[i];
  }

  /** Presses commute, so only which squares were pressed an odd number of times matters. */
  lemma PressesCommute(s: seq<bool>, x: int, y: int, x': int, y': int)
    requires |s| == GridSquares
    requires 0 <= x < SideLength && 0 <= y < SideLength
    requires 0 <= x' < SideLength && 0 <= y' < SideLength
    ensures Press(Press(s, x, y), x', y') == Press(Press(s, x', y'), x, y)
  {
    var a := Press(Press(s, x, y), x', y');
    var b := Press(Press(s, x', y'), x, y);
    assert forall i :: 0 <= i < GridSquares ==> a[i] == b[i];
  }

  /**
   * The win check after the input is handled: `winner` is set as soon as
   * no square is lit, and otherwise left as it was.
   */
  function WinCheck(g: Game): (r: Game)
    ensures r.grid == g.grid && r.moves == g.moves
    ensures r.winner == (g.winner || AllOff(g.grid.squares))
  {
    if AnyLit(g.grid.squares) then g else g.(winner := true)
  }

  /** The `range grid.squares` scan of the win check: is some square lit? */
  function AnyLit(s: seq<bool>): (lit: bool)
    ensures lit <==> !AllOff(s)
  {
    if s == [] then false else s[0] || AnyLit(s[1..])
  }

  /**
   * One frame: the reset key, then a click (only while the game is not
   * won), then the win check. A click whose cell is off the board is
   * ignored and skips the win check, as the source's `goto update` does;
   * the source's own guard lets some off-board clicks through, see
   * FrameAsWritten.
   */
  function Frame(g: Game, input: Input): (r: Game)
    requires |g.grid.squares| == GridSquares
    ensures |r.grid.squares| == GridSquares
    ensures r.moves == (if input.reset then 0 else g.moves) + (if Accepts(g, input) then 1 else 0)
  {
    var current := if input.reset then InitialGame() else g;
    if !current.winner && input.clicked then
      var x, y := input.x, input.y;
      if x < 0 || x >= SideLength || y < 0 || y >= SideLength then
        current
      else
        var pressed := current.(grid := current.grid.(squares := Press(current.grid.squares, x, y)),
                                moves := current.moves + 1);
        WinCheck(pressed)
    else
      WinCheck(current)
  }

  /** Whether a frame applies a press: a click on the board while the game (after any reset) is not won. */
  predicate Accepts(g: Game, input: Input) {
    && !(if input.reset then false else g.winner)
    && input.clicked
    && 0 <= input.x < SideLength && 0 <= input.y < SideLength
  }

  /**
   * A frame's effect on the counter and the board: a reset restarts from
   * the initial game, an accepted press adds exactly one move and flips
   * the cross around its square, and anything else changes neither.
   */
  lemma FrameEffect(g: Game, input: Input)
    requires |g.grid.squares| == GridSquares
    ensures var start := if input.reset then InitialGame() else g;
            var r := Frame(g, input);
            && r.grid.colors == start.grid.colors
            && (Accepts(g, input) ==>
                  r.moves == start.moves + 1 &&
                  r.grid.squares == Press(start.grid.squares, input.x, input.y))
            && (!Accepts(g, input) ==> r.moves == start.moves && r.grid.squares == start.grid.squares)
  {
  }

  /** Once the game is won, every frame without a reset leaves it exactly as it is. */
  lemma WonGameIsFrozen(g: Game, input: Input)
    requires |g.grid.squares| == GridSquares && g.winner && !input.reset
    ensures Frame(g, input) == g
  {
  }

  /** A reset without a click restarts the game: a fresh board, no moves, not won. */
  lemma ResetRestartsGame(g: Game, x: int, y: int)
    requires |g.grid.squares| == GridSquares
    ensures Frame(g, Input(true, false, x, y)) == InitialGame()
  {
    assert NewGrid().squares[0];
  }

  /**
   * What `run` keeps true from frame to frame: a full board painted as
   * `newGrid` paints it, and `winner` set exactly when no square is lit.
   */
  predicate Consistent(g: Game) {
    && |g.grid.squares| == GridSquares
    && g.grid.colors == NewGrid().colors
    && (g.winner <==> AllOff(g.grid.squares))
  }

  lemma InitialGameIsConsistent()
    ensures Consistent(InitialGame())
  {
    assert NewGrid().squares[0];
  }

  /** Every frame keeps the game Consistent: the player has won exactly when all lights are out. */
  lemma FramePreservesConsistent(g: Game, input: Input)
    requires Consistent(g)
    ensures Consistent(Frame(g, input))
  {
    InitialGameIsConsistent();
  }

  /**
   * The press at (x, y) as written: the square `x + y*8` and then each
   * neighbour the four guards admit, in the source's order. The guards
   * only look at x and y separately, so for a cell off the board these
   * indices can leave the array or land in another row.
   */
  function PressIndicesAsWritten(x: int, y: int): (indices: seq<int>)
    ensures 1 <= |indices| <= 5 && indices[0] == x + y * SideLength
  {
    [x + y * SideLength]
    + (if x > 0 then [(x - 1) + y * SideLength] else [])
    + (if x < SideLength - 1 then [(x + 1) + y * SideLength] else [])
    + (if y > 0 then [x + (y - 1) * SideLength] else [])
    + (if y < SideLength - 1 then [x + (y + 1) * SideLength] else [])
  }

  /** The board after toggling `indices` in turn, or the first index that is out of range. */
  datatype Toggled = Toggled(squares: seq<bool>) | Panicked(index: int)

  function ToggleAll(s: seq<bool>, indices: seq<int>): (t: Toggled)
    ensures t.Toggled? ==> |t.squares| == |s|
    ensures t.Toggled? <==> forall k :: 0 <= k < |indices| ==> 0 <= indices[k] < |s|
    ensures t.Panicked? ==> t.index in indices && !(0 <= t.index < |s|)
    decreases |indices|
  {
    if indices == [] then Toggled(s)
    else if !(0 <= indices[0] < |s|) then Panicked(indices[0])
    else
      var rest := ToggleAll(Toggle(s, indices[0]), indices[1..]);
      assert forall k :: 1 <= k < |indices| ==> indices[k] == indices[1..][k - 1];
      rest
  }

  /**
   * One frame as written: the only guard on a click is `i >= 64`, which
   * lets through cells with x == 8 (a cursor X of 700 or more, one past
   * the last pixel column) and, for negative coordinates, indices below
   * zero.
   */
  function FrameAsWritten(g: Game, input: Input): (o: Outcome)
    requires |g.grid.squares| == GridSquares
    ensures o.Continue? ==> |o.game.grid.squares| == GridSquares
  {
    var current := if input.reset then InitialGame() else g;
    if !current.winner && input.clicked then
      var x, y := input.x, input.y;
      var i := x + y * SideLength;
      if i >= GridSquares then
        Continue(current)
      else
        var counted := current.(moves := current.moves + 1);
        match ToggleAll(counted.grid.squares, PressIndicesAsWritten(x, y))
        case Panicked(index) => IndexOutOfRange(index)
        case Toggled(squares) => Continue(WinCheck(counted.(grid := counted.grid.(squares := squares))))
    else
      Continue(WinCheck(current))
  }

  /**
   * As written, a click whose index `x + y*8` is 64 or more changes
   * nothing: the board, the counter and the winner flag stay as they were
   * (after any reset), and the win check is skipped.
   */
  lemma AsWrittenIgnoresHighIndex(g: Game, input: Input)
    requires |g.grid.squares| == GridSquares
    requires input.clicked && input.x + input.y * SideLength >= GridSquares
    ensures var start := if input.reset then InitialGame() else g;
            FrameAsWritten(g, input) == Continue(start)
  {
  }

  /**
   * Toggling distinct in-range indices in turn flips exactly the squares
   * they name, whatever their order.
   */
  lemma {:induction false} ToggleAllFlips(s: seq<bool>, indices: seq<int>)
    requires forall k :: 0 <= k < |indices| ==> 0 <= indices[k] < |s|
    requires forall k, l :: 0 <= k < l < |indices| ==> indices[k] != indices[l]
    ensures ToggleAll(s, indices).Toggled?
    ensures forall j :: 0 <= j < |s| ==> ToggleAll(s, indices).squares[j] == (s[j] != (j in indices))
    decreases |indices|
  {
    if indices != [] {
      var rest := indices[1..];
      assert forall k, l :: 0 <= k < l < |rest| ==> rest[k] != rest[l] by {
        forall k, l | 0 <= k < l < |rest|
          ensures rest[k] != rest[l]
        {
          assert rest[k] == indices[k + 1] && rest[l] == indices[l + 1];
        }
      }
      ToggleAllFlips(Toggle(s, indices[0]), rest);
      forall j | 0 <= j < |s|
        ensures (j in indices) == (j == indices[0] || j in rest)
      {
        assert indices == [indices[0]] + rest;
      }
      assert indices[0] !in rest by {
        forall k | 0 <= k < |rest|
          ensures rest[k] != indices[0]
        {
          assert rest[k] == indices[k + 1];
        }
      }
    }
  }

  /**
   * For a square (x, y) of the board the indices as written are the
   * squares of its cross, each once.
   */
  lemma PressIndicesAreCross(x: int, y: int)
    requires 0 <= x < SideLength && 0 <= y < SideLength
    ensures forall k :: 0 <= k < |PressIndicesAsWritten(x, y)| ==> 0 <= PressIndicesAsWritten(x, y)[k] < GridSquares
    ensures forall k, l :: 0 <= k < l < |PressIndicesAsWritten(x, y)| ==>
              PressIndicesAsWritten(x, y)[k] != PressIndicesAsWritten(x, y)[l]
    ensures forall j :: 0 <= j < GridSquares ==> ((j in PressIndicesAsWritten(x, y)) == InCross(x, y, j))
  {
    var indices := PressIndicesAsWritten(x, y);
    forall j | 0 <= j < GridSquares
      ensures (j in indices) == InCross(x, y, j)
    {
      SquareOf(j);
    }
  }

  /** On the board the five guarded toggles as written are the press. */
  lemma ToggleAllFlipsCross(s: seq<bool>, x: int, y: int)
    requires |s| == GridSquares && 0 <= x < SideLength && 0 <= y < SideLength
    ensures ToggleAll(s, PressIndicesAsWritten(x, y)) == Toggled(Press(s, x, y))
  {
    var indices := PressIndicesAsWritten(x, y);
    PressIndicesAreCross(x, y);
    ToggleAllFlips(s, indices);
    var toggled := ToggleAll(s, indices).squares;
    var pressed := Press(s, x, y);
    forall j | 0 <= j < GridSquares
      ensures toggled[j] == pressed[j]
    {
    }
    assert toggled == pressed;
  }

  /**
   * On the pixels of the window the cursor's cell has 0 <= x < 8 and
   * 0 <= y <= 8, and there the frame as written is the frame: row 8 (the top pixel
   * row, as the Y axis points up) is stopped by the `i >= 64` guard.
   */
  lemma AsWrittenAgreesInsideBoard(g: Game, input: Input)
    requires |g.grid.squares| == GridSquares
    requires 0 <= input.x < SideLength && 0 <= input.y <= SideLength
    ensures FrameAsWritten(g, input) == Continue(Frame(g, input))
  {
    var current := if input.reset then InitialGame() else g;
    if !current.winner && input.clicked && input.y < SideLength {
      ToggleAllFlipsCross(current.grid.squares, input.x, input.y);
    }
  }

  /**
   * A click reported at cursor X >= 700 (cell x == 8, one past the last
   * pixel column) in row 6 passes the `i >= 64` guard (8 + 6*8 == 56) and the last
   * toggle, for the square above, indexes 8 + 7*8 == 64: the frame panics.
   */
  lemma RightEdgeClickPanics()
    ensures FrameAsWritten(InitialGame(), Input(false, true, 8, 6)) == IndexOutOfRange(64)
  {
    var s := InitialGame().grid.squares;
    assert PressIndicesAsWritten(8, 6) == [56, 55, 48, 64];
    var t := Toggle(Toggle(Toggle(s, 56), 55), 48);
    assert ToggleAll(t, [64]) == Panicked(64);
    assert ToggleAll(s, [56, 55, 48, 64]) == ToggleAll(t, [64]);
  }

  /**
   * In a lower row the same click does not panic but flips squares of the
   * wrong rows: at (8, 0) it flips square 8 (column 0, row 1) with 7, 0's
   * row neighbour at the far right, and 16 (column 0, row 2).
   */
  lemma RightEdgeClickFlipsOtherRows()
    ensures var o := FrameAsWritten(InitialGame(), Input(false, true, 8, 0));
            && o.Continue?
            && o.game.moves == 1
            && forall i :: 0 <= i < GridSquares ==> (o.game.grid.squares[i] <==> i !in {7, 8, 16})
  {
    var s := InitialGame().grid.squares;
    assert PressIndicesAsWritten(8, 0) == [8, 7, 16];
    var t := Toggle(Toggle(Toggle(s, 8), 7), 16);
    assert ToggleAll(s, [8, 7, 16]) == Toggled(t) by {
      assert ToggleAll(Toggle(Toggle(s, 8), 7), [16]) == Toggled(t);
      assert ToggleAll(Toggle(s, 8), [7, 16]) == ToggleAll(Toggle(Toggle(s, 8), 7), [16]);
    }
  }

  /** The corrected frame ignores every click off the board and leaves the game as it was. */
  lemma FrameIgnoresOffBoardClicks(g: Game, input: Input)
    requires |g.grid.squares| == GridSquares && !input.reset && input.clicked
    requires !(0 <= input.x < SideLength && 0 <= input.y < SideLength)
    ensures Frame(g, input) == g
  {
  }
}
