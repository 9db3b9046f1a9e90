/** The placement and line-clear engine: a piece with a shape, an anchor
    (x, y), a hotbar of shapes for the game-over test and a score, acting on a
    grid whose rows it reads and rewrites in place. */
module Placement {
  import opened Matrices
  import opened Board
  import opened InPlaceRotation

  /** What set_in_place led to: the piece was written and lines cleared, the
      game is over, or the piece could not be set and the game goes on. */
  datatype Outcome = Placed | GameOver | Blocked

  /** The anchor change (dx, dy) player_move applies for a direction; any other string moves nothing. */
  function Delta(direction: string): (int, int) {
    if direction == "left" then (-1, 0)
    else if direction == "right" then (1, 0)
    else if direction == "up" then (0, 1)
    else if direction == "down" then (0, -1)
    else (0, 0)
  }

  /** The indices of the full rows, as the first pass of handle_line_clears collects them. */
  method FullRowIndices(grid: array<seq<int>>) returns (rowsToClear: set<int>)
    ensures rowsToClear == set k | 0 <= k < grid.Length && IsFull(grid[k])
    ensures |rowsToClear| == FullCount(grid[..])
  {
    ghost var g := grid[..];
    rowsToClear := {};
    for i := 0 to grid.Length
      invariant rowsToClear == set k | 0 <= k < i && IsFull(g[k])
    {
      if IsFull(grid[i]) {
        rowsToClear := rowsToClear + {i};
      }
    }
    assert rowsToClear == set k | 0 <= k < |g| && IsFull(g[k]);
    FullRowsCount(g);
  }

  /** The rows whose index is not among the full ones, in their order. */
  method KeptRows(grid: array<seq<int>>, rowsToClear: set<int>) returns (kept: Matrix)
    requires rowsToClear == set k | 0 <= k < grid.Length && IsFull(grid[k])
    ensures kept == Kept(grid[..])
  {
    ghost var g := grid[..];
    kept := [];
    for i := 0 to grid.Length
      invariant kept == Kept(g[..i])
    {
      assert g[..i + 1][..i] == g[..i];
      if i !in rowsToClear {
        kept := kept + [grid[i]];
      }
    }
    assert g[..grid.Length] == g;
  }

  /** Copies the rows of newGrid over those of grid (len(newGrid) == len(grid)). */
  method Overwrite(grid: array<seq<int>>, newGrid: Matrix)
    requires |newGrid| == grid.Length
    modifies grid
    ensures grid[..] == newGrid
  {
    for i := 0 to grid.Length
      invariant grid[..i] == newGrid[..i]
    {
      grid[i] := newGrid[i];
      assert grid[..i + 1] == newGrid[..i + 1];
    }
    assert grid[..] == grid[..grid.Length];
  }

  class Tetromino {
    var shape: Matrix
    var x: int
    var y: int
    var hotbar: seq<Matrix>
    var score: int

    constructor (shape: Matrix, x: int, y: int, hotbar: seq<Matrix>)
      ensures this.shape == shape && this.x == x && this.y == y && this.hotbar == hotbar
      ensures score == 0
    {
      this.shape := shape;
      this.x := x;
      this.y := y;
      this.hotbar := hotbar;
      score := 0;
    }

    /** is_valid_move: whether every filled cell of newShape at anchor (x, y)
        lies above the floor, between the walls and on an empty grid cell. */
    method IsValidMove(newShape: Matrix, x: int, y: int, grid: array<seq<int>>) returns (valid: bool)
      requires WellFormed(grid[..]) && y >= -grid.Length
      ensures valid <==> ValidAt(newShape, x, y, grid[..])
    {
      var gridHeight := grid.Length;
      var gridWidth := |grid[0]|;
      for i := 0 to |newShape|
        invariant forall i', j :: Filled(newShape, i', j) && i' < i ==> CellFree(x, y, grid[..], i', j)
      {
        for j := 0 to |newShape[i]|
          invariant forall i', j' :: Filled(newShape, i', j') && (i' < i || (i' == i && j' < j)) ==> CellFree(x, y, grid[..], i', j')
        {
          if newShape[i][j] != 0 {
            if i + y >= gridHeight || j + x < 0 || j + x >= gridWidth || grid[PyIndex(i + y, gridHeight)][j + x] != 0 {
              assert Filled(newShape, i, j) && !CellFree(x, y, grid[..], i, j);
              return false;
            }
          }
        }
      }
      return true;
    }

    /** player_move: move the anchor by Delta(direction) when the shape is valid there. */
    method PlayerMove(direction: string, grid: array<seq<int>>)
      requires WellFormed(grid[..]) && y + Delta(direction).1 >= -grid.Length
      modifies this`x, this`y
      ensures var (dx, dy) := Delta(direction);
              if ValidAt(shape, old(x) + dx, old(y) + dy, grid[..])
              then x == old(x) + dx && y == old(y) + dy
              else x == old(x) && y == old(y)
      ensures ValidAt(shape, old(x), old(y), grid[..]) ==> ValidAt(shape, x, y, grid[..])
    {
      var (dx, dy) := Delta(direction);
      var valid := IsValidMove(shape, x + dx, y + dy, grid);
      if valid {
        x := x + dx;
        y := y + dy;
      }
    }

    /** rotate_shape: a copy of the square shape, turned clockwise for "cw",
        counter-clockwise for "ccw", and unchanged for any other argument. */
    method RotateShape(rotationType: string) returns (newShape: Matrix)
      requires IsSquare(shape, |shape|)
      ensures newShape == if rotationType == "cw" then Clockwise(shape)
                          else if rotationType == "ccw" then CounterClockwise(shape)
                          else shape
    {
      var a := FromMatrix(shape);
      if rotationType == "cw" {
        RotateClockwiseInPlace(a);
      } else if rotationType == "ccw" {
        RotateCounterClockwiseInPlace(a);
      }
      newShape := Contents(a);
    }

    /** rotate_cw: adopt the clockwise turn when it is valid at the unchanged anchor. */
    method RotateCw(grid: array<seq<int>>)
      requires IsSquare(shape, |shape|) && WellFormed(grid[..]) && y >= -grid.Length
      modifies this`shape
      ensures shape == if ValidAt(Clockwise(old(shape)), x, y, grid[..]) then Clockwise(old(shape)) else old(shape)
      ensures IsSquare(shape, |shape|) && FilledCount(shape) == FilledCount(old(shape))
      ensures ValidAt(old(shape), x, y, grid[..]) ==> ValidAt(shape, x, y, grid[..])
    {
      var newShape := RotateShape("cw");
      ClockwiseKeepsFilledCount(shape);
      var valid := IsValidMove(newShape, x, y, grid);
      if valid {
        shape := newShape;
      }
    }

    /** rotate_ccw: adopt the counter-clockwise turn when it is valid at the unchanged anchor. */
    method RotateCcw(grid: array<seq<int>>)
      requires IsSquare(shape, |shape|) && WellFormed(grid[..]) && y >= -grid.Length
      modifies this`shape
      ensures shape == if ValidAt(CounterClockwise(old(shape)), x, y, grid[..]) then CounterClockwise(old(shape)) else old(shape)
      ensures IsSquare(shape, |shape|) && FilledCount(shape) == FilledCount(old(shape))
      ensures ValidAt(old(shape), x, y, grid[..]) ==> ValidAt(shape, x, y, grid[..])
    {
      var newShape := RotateShape("ccw");
      CounterClockwiseKeepsFilledCount(shape);
      var valid := IsValidMove(newShape, x, y, grid);
      if valid {
        shape := newShape;
      }
    }

    /** update_grid as written: grid[i + y] is read for every shape row, also
        for rows without a filled cell, so every such row must exist. */
    method UpdateGridAsWritten(grid: array<seq<int>>)
      requires WellFormed(grid[..]) && Fits(shape, x, y, grid[..]) && RowsIndexable(shape, y, grid[..])
      modifies grid
      ensures grid[..] == Stamp(old(grid[..]), shape, x, y)
    {
      ghost var g := grid[..];
      StampedNone(g, shape, x, y);
      for i := 0 to |shape|
        invariant grid[..] == Stamped(g, shape, x, y, i, 0)
      {
        var row := PyIndex(i + y, grid.Length);
        StampRowAt(grid, g, i, row);
      }
    }

    /** One round of update_grid as written: row i of the shape is written into
        the grid row fetched before its cells are visited. */
    method StampRowAt(grid: array<seq<int>>, ghost g: Matrix, i: int, row: int)
      requires WellFormed(g) && Fits(shape, x, y, g) && grid.Length == |g|
      requires 0 <= i < |shape| && -|g| <= i + y < |g| && row == PyIndex(i + y, |g|)
      requires grid[..] == Stamped(g, shape, x, y, i, 0)
      modifies grid
      ensures grid[..] == Stamped(g, shape, x, y, i + 1, 0)
    {
      var width := |grid[0]|;
      for j := 0 to |shape[i]|
        invariant grid[..] == Stamped(g, shape, x, y, i, j)
      {
        if shape[i][j] != 0 {
          assert Filled(shape, i, j);
          StampedWrite(g, shape, x, y, i, j);
          grid[row] := grid[row][PyIndex(x + j, width) := 1];
        } else {
          StampedSkip(g, shape, x, y, i, j);
        }
      }
      StampedNextRow(g, shape, x, y, i);
    }

    /** update_grid corrected: a grid row is looked up only for a filled cell,
        so every placement whose filled cells fit can be written. */
    method UpdateGrid(grid: array<seq<int>>)
      requires WellFormed(grid[..]) && Fits(shape, x, y, grid[..])
      modifies grid
      ensures grid[..] == Stamp(old(grid[..]), shape, x, y)
    {
      ghost var g := grid[..];
      StampedNone(g, shape, x, y);
      for i := 0 to |shape|
        invariant grid[..] == Stamped(g, shape, x, y, i, 0)
      {
        StampRow(grid, g, i);
      }
    }

    /** One round of the corrected update_grid: each filled cell of shape row i
        sets its grid cell to 1. */
    method StampRow(grid: array<seq<int>>, ghost g: Matrix, i: int)
      requires WellFormed(g) && Fits(shape, x, y, g) && grid.Length == |g|
      requires 0 <= i < |shape|
      requires grid[..] == Stamped(g, shape, x, y, i, 0)
      modifies grid
      ensures grid[..] == Stamped(g, shape, x, y, i + 1, 0)
    {
      var width := |grid[0]|;
      for j := 0 to |shape[i]|
        invariant grid[..] == Stamped(g, shape, x, y, i, j)
      {
        if shape[i][j] != 0 {
          assert Filled(shape, i, j);
          StampedWrite(g, shape, x, y, i, j);
          var row := PyIndex(i + y, grid.Length);
          grid[row] := grid[row][PyIndex(x + j, width) := 1];
        } else {
          StampedSkip(g, shape, x, y, i, j);
        }
      }
      StampedNextRow(g, shape, x, y, i);
    }

    /** handle_line_clears: drop the full rows, add as many empty rows on top,
        and score 10 points per cleared row. */
    method HandleLineClears(grid: array<seq<int>>)
      requires WellFormed(grid[..])
      modifies grid, this`score
      ensures grid[..] == ClearLines(old(grid[..]))
      ensures score == old(score) + 10 * FullCount(old(grid[..]))
    {
      var rowsToClear := FullRowIndices(grid);
      var kept := KeptRows(grid, rowsToClear);
      KeptSize(grid[..]);
      var newGrid := ZeroRows(|rowsToClear|, |grid[0]|) + kept;
      Overwrite(grid, newGrid);
      score := score + |rowsToClear| * 10;
    }

    /** is_game_over as written: for each hotbar shape only anchor (0, 0) is tried,
        because both loops break after their first round. */
    method IsGameOver(grid: array<seq<int>>) returns (over: bool)
      requires WellFormed(grid[..])
      ensures over <==> GameOverAsWritten(hotbar, grid[..])
    {
      for k := 0 to |hotbar|
        invariant forall k' :: 0 <= k' < k ==> !(Width(grid[..]) > 0 && ValidAt(hotbar[k'], 0, 0, grid[..]))
      {
        var tetrominoShape := hotbar[k];
        for y := 0 to grid.Length
          invariant y == 0
        {
          for x := 0 to |grid[0]|
            invariant x == 0
          {
            var valid := IsValidMove(tetrominoShape, x, y, grid);
            if valid {
              return false;
            }
            if y == 0 && x == 0 {
              break;
            }
          }
          assert Width(grid[..]) == 0 || !ValidAt(tetrominoShape, 0, 0, grid[..]);
          if y == 0 {
            break;
          }
        }
      }
      return true;
    }

    /** is_game_over corrected: the game is over when no hotbar shape is valid
        at any anchor. Each shape is tried on every row from -height to
        height - 1 and every column from -MaxRowLength(shape) to width, the
        window ScanWindowSuffices shows to hold a valid anchor whenever one exists. */
    method IsGameOverExhaustive(grid: array<seq<int>>) returns (over: bool)
      requires WellFormed(grid[..])
      ensures over <==> NoPlacementLeft(hotbar, grid[..])
    {
      ghost var g := grid[..];
      for k := 0 to |hotbar|
        invariant forall k', y', x' :: 0 <= k' < k && y' >= -|g| ==> !ValidAt(hotbar[k'], x', y', g)
      {
        var reach: int := MaxRowLength(hotbar[k]);
        for y := -grid.Length to grid.Length
          invariant forall y', x' :: -|g| <= y' < y && -reach <= x' <= Width(g) ==> !ValidAt(hotbar[k], x', y', g)
        {
          for x := -reach to |grid[0]| + 1
            invariant forall x' :: -reach <= x' < x ==> !ValidAt(hotbar[k], x', y, g)
          {
            var valid := IsValidMove(hotbar[k], x, y, grid);
            if valid {
              return false;
            }
          }
        }
        ScanWindowSuffices(hotbar[k], g);
      }
      return true;
    }

    /** set_in_place: a piece valid at its anchor is written into the grid and
        full lines are cleared; otherwise the grid and score stay as they are and
        the outcome says whether any placement is left. */
    method SetInPlace(grid: array<seq<int>>) returns (outcome: Outcome)
      requires WellFormed(grid[..]) && y >= -grid.Length
      modifies grid, this`score
      ensures var g := old(grid[..]);
              if ValidAt(shape, x, y, g) then
                outcome == Placed &&
                grid[..] == ClearLines(Stamp(g, shape, x, y)) &&
                score == old(score) + 10 * FullCount(Stamp(g, shape, x, y))
              else
                grid[..] == g && score == old(score) &&
                outcome == if NoPlacementLeft(hotbar, g) then GameOver else Blocked
      ensures WellFormed(grid[..]) && Width(grid[..]) == Width(old(grid[..]))
    {
      ghost var g := grid[..];
      var valid := IsValidMove(shape, x, y, grid);
      if valid {
        ValidFits(shape, x, y, g);
        UpdateGrid(grid);
        StampKeepsShape(g, shape, x, y);
        ghost var stamped := grid[..];
        HandleLineClears(grid);
        ClearLinesShape(stamped);
        outcome := Placed;
      } else {
        var over := IsGameOverExhaustive(grid);
        outcome := if over then GameOver else Blocked;
      }
    }

    /** set_in_place as written: the write is update_grid as written, which
        needs a grid row for every shape row, and the game-over decision is
        is_game_over as written. */
    method SetInPlaceAsWritten(grid: array<seq<int>>) returns (outcome: Outcome)
      requires WellFormed(grid[..]) && y >= -grid.Length
      requires ValidAt(shape, x, y, grid[..]) ==> RowsIndexable(shape, y, grid[..])
      modifies grid, this`score
      ensures var g := old(grid[..]);
              if ValidAt(shape, x, y, g) then
                outcome == Placed &&
                grid[..] == ClearLines(Stamp(g, shape, x, y)) &&
                score == old(score) + 10 * FullCount(Stamp(g, shape, x, y))
              else
                grid[..] == g && score == old(score) &&
                outcome == if GameOverAsWritten(hotbar, g) then GameOver else Blocked
    {
      ghost var g := grid[..];
      var valid := IsValidMove(shape, x, y, grid);
      if valid {
        ValidFits(shape, x, y, g);
        UpdateGridAsWritten(grid);
        StampKeepsShape(g, shape, x, y);
        HandleLineClears(grid);
        outcome := Placed;
      } else {
        var over := IsGameOver(grid);
        outcome := if over then GameOver else Blocked;
      }
    }
  }
}
