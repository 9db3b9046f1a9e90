# Tetrominoes core in Dafny

This project models the core of the Tetrominoes puzzle game and proves properties of the model. The core has two parts:

- **The shape generator** (`Tetrominoes_Project/src/shape_generation.py`). It lists the three-cell shapes of a 3x3 window as 9-bit masks. Cell (r, c) is bit 3r+c. A mask is kept when its cells form one 4-connected region. The generator also turns a mask into a 3x3 matrix and rotates a shape by quarter turns.
- **The placement engine** (`Tetrominoes_Project/src/tetromino_functionality.py`). A `Tetromino` has a shape, an anchor (x, y), a hotbar of shapes and a score. It does the following:
  - tests whether a shape fits the grid at an anchor;
  - moves and rotates the piece, keeping each change only when the result still fits;
  - writes a piece into the grid in place;
  - clears full rows, scoring 10 points per row;
  - decides whether the game is over.

Modules:

- `Matrices` (`matrices.dfy`): the shared matrix vocabulary. It defines square and 0/1 matrices, the clockwise and counter-clockwise quarter turns as functions, their powers, and filled-cell counts.
- `Bitmasks` (`bitmasks.dfy`): Python's `>>`, `& 1` and `bin(b).count('1')` on non-negative integers, and the mask-to-matrix decoding with its inverse.
- `ShapeGeneration` (`shape_generation.dfy`): connectivity as a specification, the worklist search of `is_connected` as a method proved against it, and the catalog. The `ShapeGenerator` class holds the catalog.
- `Board` (`board.dfy`): the grid as a value. It defines the validity test, writing a piece (`Stamp`), clearing lines (`ClearLines`), the game-over predicates and their lemmas.
- `InPlaceRotation` (`rotation.dfy`): the swap-based in-place rotation of `rotate_shape` on a 2-D array. It is proved equal to the functional quarter turns.
- `Placement` (`placement.dfy`): the `Tetromino` class. The grid is an array of rows that the methods update in place. Each method is proved against the `Board` functions.

Points where the code is followed:

- The row index `grid[i + y]` follows Python: a negative index counts from the bottom. `PyIndex` models this.
- `"up"` adds 1 to y and `"down"` subtracts 1, as in the code. Rows are numbered from the top, so `"down"` moves the piece towards row 0.
- The score grows by 10 points per cleared row, as the code does. It does not grow by the bare number of rows.
- The game-over test and `update_grid` are both modelled as written and corrected (see "## Findings"). `set_in_place` is modelled both ways too. `SetInPlaceAsWritten` uses the calls as written. `SetInPlace` uses the corrected `UpdateGrid` and `IsGameOverExhaustive`.

## Model

| member | source | states |
|---|---|---|
| `Matrices.QuarterTurnsCancel` | Tetrominoes_Project/src/tetromino_functionality.py:96-115 | The clockwise and counter-clockwise turns undo each other, in both orders. |
| `Matrices.ThreeClockwise` | Tetrominoes_Project/src/tetromino_functionality.py:96-115 | Three clockwise turns equal one counter-clockwise turn. |
| `Matrices.ClockwiseOrderFour` | Tetrominoes_Project/src/shape_generation.py:90-93 | Three turns of the rotation loop give the counter-clockwise turn; four give back the shape. |
| `Matrices.ClockwisePowerModFour` | Tetrominoes_Project/src/shape_generation.py:90-93 | Only the number of turns modulo 4 matters. |
| `Matrices.ClockwisePowerAdd` | Tetrominoes_Project/src/shape_generation.py:90-93 | Four more turns change nothing. |
| `Matrices.ClockwiseFilledCells` | Tetrominoes_Project/src/shape_generation.py:92 | A clockwise turn sends filled cell (r, c) to (c, n-1-r). The filled cells after the turn are exactly these images. |
| `Matrices.ClockwiseKeepsFilledCount` | Tetrominoes_Project/src/tetromino_functionality.py:96-105 | A clockwise turn keeps the number of filled cells. |
| `Matrices.CounterClockwiseKeepsFilledCount` | Tetrominoes_Project/src/tetromino_functionality.py:106-115 | A counter-clockwise turn keeps the number of filled cells. |
| `Matrices.ClockwisePowerKeepsFilledCount` | Tetrominoes_Project/src/shape_generation.py:90-93 | Any number of turns keeps the number of filled cells. |
| `Matrices.ClockwisePowerKeepsBinary` | Tetrominoes_Project/src/shape_generation.py:90-93 | Any number of turns keeps a 0/1 shape 0/1. |
| `Bitmasks.PopCountSplit` | Tetrominoes_Project/src/shape_generation.py:19 | The set-bit count of a mask equals the number of set bits among its n lowest bits plus the set-bit count of `b >> n`. |
| `Bitmasks.BitSetCount` | Tetrominoes_Project/src/shape_generation.py:19 | The set bits among the n lowest bits are bit 0, if it is set, plus the set bits among the n - 1 lowest bits of `b >> 1`. |
| `Bitmasks.CellCount` | Tetrominoes_Project/src/shape_generation.py:18-19 | For any mask below 2**9, `bin(b).count('1')` equals the number of filled window cells. |
| `Bitmasks.EncodeDecode` | Tetrominoes_Project/src/shape_generation.py:66-76 | Decoding a mask below 512 and encoding the matrix again gives back the mask. |
| `Bitmasks.DecodeEncode` | Tetrominoes_Project/src/shape_generation.py:66-76 | Every 3x3 0/1 matrix is the decoding of exactly the mask it encodes to, and that mask is below 512. |
| `Bitmasks.DecodeInjective` | Tetrominoes_Project/src/shape_generation.py:66-76 | Two masks below 512 decode to the same matrix if and only if they are equal. |
| `Bitmasks.DecodeIsBinary` | Tetrominoes_Project/src/shape_generation.py:66-76 | A decoded mask holds only 0 and 1. |
| `Bitmasks.DecodeFilledCount` | Tetrominoes_Project/src/shape_generation.py:66-76 | The decoded matrix has as many filled cells as the mask has window bits set. |
| `ShapeGeneration.SearchDecides` | Tetrominoes_Project/src/shape_generation.py:40-56 | A closed set of reached cells decides connectivity: the region is connected if and only if the search reached all of it. |
| `ShapeGeneration.FillGrid` | Tetrominoes_Project/src/shape_generation.py:27-34 | The grid holds bit 3i+j of the mask at (i, j). No first filled cell is found exactly when the window is empty. A cell that is found is filled, and no cell before it in row-major order is. |
| `ShapeGeneration.PushNeighbours` | Tetrominoes_Project/src/shape_generation.py:49-54 | The worklist gains exactly the filled cells adjacent to the current cell. |
| `ShapeGeneration.Explore` | Tetrominoes_Project/src/shape_generation.py:40-55 | The visited set holds the seed, lies inside the filled cells and is closed under adjacency. Every visited cell is reachable from the seed. |
| `ShapeGeneration.IsConnected` | Tetrominoes_Project/src/shape_generation.py:25-56 | Returns true if and only if the filled window cells form one non-empty 4-connected region and are all the set bits of the mask. |
| `ShapeGeneration.GenerateShapes` | Tetrominoes_Project/src/shape_generation.py:14-22 | The result is exactly the set of masks 1..511 with three set bits whose cells are connected. |
| `ShapeGeneration.BitmaskTo2D` | Tetrominoes_Project/src/shape_generation.py:66-76 | Building the matrix row by row gives the decoding of the mask, whose inverse is `Encode`. |
| `ShapeGeneration.QuarterTurn` | Tetrominoes_Project/src/shape_generation.py:92 | The comprehension `shape[2 - j][i]` is the clockwise quarter turn, the same turn `rotate_shape('cw')` makes. |
| `ShapeGeneration.ApplyRotation` | Tetrominoes_Project/src/shape_generation.py:79-93 | k turns of the loop give `ClockwisePower(shape, k)`. |
| `ShapeGeneration.CatalogHasTopRow` | Tetrominoes_Project/src/test_shape_gen.py:27-30 | The catalog is not empty: the three-cell top row, mask 7, is in it. |
| `ShapeGeneration.TopRowConnected` | Tetrominoes_Project/src/shape_generation.py:18-20 | The top row, mask 7, is connected. |
| `ShapeGeneration.CatalogHasCorner` | Tetrominoes_Project/src/shape_generation.py:18-20 | The corner L, mask 11, is in the catalog. |
| `ShapeGeneration.SquareIsConnected` | Tetrominoes_Project/src/test_shape_gen.py:10-11 | The 2x2 square 0b000110110 is accepted: its cells are connected and are all the set bits of the mask. |
| `ShapeGeneration.SplitIsNotConnected` | Tetrominoes_Project/src/test_shape_gen.py:13-14 | Mask 0b100001001 is not connected. |
| `ShapeGeneration.EmptyIsNotConnected` | Tetrominoes_Project/src/shape_generation.py:36-38 | The empty window is not connected. |
| `ShapeGeneration.CatalogShapeCells` | Tetrominoes_Project/src/test_shape_gen.py:31-32 | Every catalog mask is connected and decodes to a 3x3 0/1 matrix with exactly three filled cells. |
| `ShapeGeneration.ShapeGenerator.constructor` | Tetrominoes_Project/src/shape_generation.py:10-11 | The generator holds the full catalog. |
| `ShapeGeneration.ShapeGenerator.GetShape` | Tetrominoes_Project/src/shape_generation.py:60-63 | For the chosen catalog mask the result is its 3x3 decoding, a 0/1 matrix with three filled cells. |
| `ShapeGeneration.ShapeGenerator.GetRotatedShape` | Tetrominoes_Project/src/shape_generation.py:95-98 | The chosen shape turned k times, still 3x3 and 0/1 with three filled cells. |
| `Board.ValidFits` | Tetrominoes_Project/src/tetromino_functionality.py:151-152 | Every filled cell of a valid placement has a grid index Python can write, so the corrected write (`UpdateGrid`) can happen. The write as written also needs `RowsIndexable`. |
| `Board.StampKeepsShape` | Tetrominoes_Project/src/tetromino_functionality.py:188-192 | Writing a piece keeps the height, the width and the 0/1 property of the grid. |
| `Board.StampOnlyFills` | Tetrominoes_Project/src/tetromino_functionality.py:188-192 | Writing a piece never empties an occupied cell. |
| `Board.StampOccupies` | Tetrominoes_Project/src/tetromino_functionality.py:188-192 | After a valid placement is written, each filled shape cell occupies its grid cell. A shape with a filled cell is then no longer valid at the same anchor. |
| `Board.StampFilledCells` | Tetrominoes_Project/src/tetromino_functionality.py:188-192 | After a valid placement is written, the occupied cells are the old ones plus the piece's footprint, and none of the footprint was occupied before. |
| `Board.StampAddsShapeCells` | Tetrominoes_Project/src/tetromino_functionality.py:188-192 | At an anchor with y >= 0, a valid placement adds exactly as many occupied cells as the shape has filled cells. |
| `Board.KeptIsFilter` | Tetrominoes_Project/src/tetromino_functionality.py:163 | The kept rows are the non-full rows of the grid, in their original order. |
| `Board.FullRowsCount` | Tetrominoes_Project/src/tetromino_functionality.py:160 | The set of full-row indices has `FullCount` elements. |
| `Board.KeptHasNoFullRow` | Tetrominoes_Project/src/tetromino_functionality.py:163 | No kept row is full. |
| `Board.ClearLinesRow` | Tetrominoes_Project/src/tetromino_functionality.py:163 | The first `FullCount` rows of the cleared grid are empty. Each row after them is the next kept row. |
| `Board.ClearLinesShape` | Tetrominoes_Project/src/tetromino_functionality.py:159-167 | Clearing keeps the height, the width and the 0/1 property of the grid. |
| `Board.ClearLinesNoFullRow` | Tetrominoes_Project/src/tetromino_functionality.py:159-167 | With at least one column, no row of the cleared grid is full. |
| `Board.ClearLinesIdempotent` | Tetrominoes_Project/src/tetromino_functionality.py:159-167 | Clearing twice is the same as clearing once. |
| `Board.ClearLinesWithoutFullRows` | Tetrominoes_Project/src/tetromino_functionality.py:159-167 | A grid without full rows is left unchanged. |
| `Board.MaxRowLength` | Tetrominoes_Project/src/tetromino_functionality.py:57-59 | No shape row is longer than the result, and some row, if there is one, is exactly that long. |
| `Board.ValidAnchorInWindow` | Tetrominoes_Project/src/tetromino_functionality.py:57-62 | If a shape is valid at an anchor with row at least -height, it is also valid at an anchor in the finite window: rows -height to height - 1, columns -MaxRowLength(shape) to width. |
| `Board.ScanWindowSuffices` | Tetrominoes_Project/src/tetromino_functionality.py:57-62 | A shape invalid at every anchor of that window is invalid at every anchor whose row is at least -height. |
| `Board.NegativeColumnPlacement` | Tetrominoes_Project/src/tetromino_functionality.py:204-206 | The vertical bar [[0, 1, 0], [0, 1, 0], [0, 1, 0]] on [[0, 1, 1], [0, 1, 1], [0, 1, 1]] is valid at (-1, 0) but at no anchor of `range(len(grid))` × `range(len(grid[0]))`. A placement is left that the loops' ranges never try. |
| `Board.NoPlacementLeftIsGameOver` | Tetrominoes_Project/src/tetromino_functionality.py:194-213 | When no placement is left, `is_game_over` as written also reports the game over. |
| `Board.GameOverTooEarly` | Tetrominoes_Project/src/tetromino_functionality.py:204-213 | The converse fails. Hotbar [[[1]]] on grid [[1, 0]] has a placement at (1, 0), yet the test as written reports the game over. |
| `Board.UpdateGridOverrun` | Tetrominoes_Project/src/tetromino_functionality.py:188-189 | The bar shape (mask 7) on grid [[0, 0, 0]] is valid at anchor (0, 0). Its empty second row still asks for a grid row that does not exist. |
| `InPlaceRotation.FromMatrix` | Tetrominoes_Project/src/tetromino_functionality.py:94 | The copy is a fresh array holding the shape. |
| `InPlaceRotation.ClockwiseCycle` | Tetrominoes_Project/src/tetromino_functionality.py:101-105 | One four-way swap turns its four cells clockwise and leaves every other cell as it was. |
| `InPlaceRotation.CounterClockwiseCycle` | Tetrominoes_Project/src/tetromino_functionality.py:111-115 | One four-way swap turns its four cells counter-clockwise and leaves every other cell as it was. |
| `InPlaceRotation.ClockwiseRing` | Tetrominoes_Project/src/tetromino_functionality.py:100-105 | The j loop turns ring i clockwise. |
| `InPlaceRotation.CounterClockwiseRing` | Tetrominoes_Project/src/tetromino_functionality.py:110-115 | The j loop turns ring i counter-clockwise. |
| `InPlaceRotation.RotateClockwiseInPlace` | Tetrominoes_Project/src/tetromino_functionality.py:96-105 | The array ends holding the clockwise quarter turn of what it held. |
| `InPlaceRotation.RotateCounterClockwiseInPlace` | Tetrominoes_Project/src/tetromino_functionality.py:106-115 | The array ends holding the counter-clockwise quarter turn of what it held. |
| `Placement.FullRowIndices` | Tetrominoes_Project/src/tetromino_functionality.py:160 | The result is the set of indices of full rows, with `FullCount` elements. |
| `Placement.KeptRows` | Tetrominoes_Project/src/tetromino_functionality.py:163 | The rows whose index is not in that set, in their order. |
| `Placement.Overwrite` | Tetrominoes_Project/src/tetromino_functionality.py:166-167 | The grid ends holding the new rows. |
| `Placement.Tetromino.constructor` | Tetrominoes_Project/src/tetromino_functionality.py:7-21 | The fields hold the arguments and the score is 0. |
| `Placement.Tetromino.IsValidMove` | Tetrominoes_Project/src/tetromino_functionality.py:54-63 | True if and only if every filled shape cell at the anchor is above the floor, between the walls and on an empty cell. |
| `Placement.Tetromino.PlayerMove` | Tetrominoes_Project/src/tetromino_functionality.py:67-80 | The anchor moves by the direction's offset if and only if the shape is valid there; otherwise it stays. A valid piece stays valid. |
| `Placement.Tetromino.RotateShape` | Tetrominoes_Project/src/tetromino_functionality.py:83-117 | The result is the clockwise turn for "cw", the counter-clockwise turn for "ccw" and an unchanged copy otherwise. |
| `Placement.Tetromino.RotateCw` | Tetrominoes_Project/src/tetromino_functionality.py:120-129 | The shape becomes its clockwise turn if and only if the turn is valid at the anchor. The filled-cell count is kept, and a valid piece stays valid. |
| `Placement.Tetromino.RotateCcw` | Tetrominoes_Project/src/tetromino_functionality.py:132-141 | The same for the counter-clockwise turn. |
| `Placement.Tetromino.UpdateGridAsWritten` | Tetrominoes_Project/src/tetromino_functionality.py:181-192 | When every shape row has a grid row, the grid ends as the piece written in. |
| `Placement.Tetromino.UpdateGrid` | Tetrominoes_Project/src/tetromino_functionality.py:181-192 | When every filled cell has a grid cell, the grid ends as the piece written in; rows without a filled cell are not looked up. |
| `Placement.Tetromino.HandleLineClears` | Tetrominoes_Project/src/tetromino_functionality.py:159-170 | The grid ends as `ClearLines` of the old grid, and the score grows by 10 per full row. |
| `Placement.Tetromino.IsGameOver` | Tetrominoes_Project/src/tetromino_functionality.py:194-213 | Matches the loops as written: on a grid with at least one column, true if and only if no hotbar shape is valid at anchor (0, 0), the only anchor they reach. On a grid with no column, always true. |
| `Placement.Tetromino.IsGameOverExhaustive` | Tetrominoes_Project/src/tetromino_functionality.py:194-213 | True if and only if no hotbar shape is valid at any anchor whose row is at least -height, negative columns and wrapped rows included. The scan tries rows -height to height - 1 and columns -MaxRowLength(shape) to width. |
| `Placement.Tetromino.SetInPlace` | Tetrominoes_Project/src/tetromino_functionality.py:144-155 | A valid piece is written, full rows are cleared and the score grows by 10 per cleared row, with outcome `Placed`. Otherwise the grid and score are unchanged, and the outcome is `GameOver` exactly when no hotbar shape is valid at any anchor whose row is at least -height. |
| `Placement.Tetromino.SetInPlaceAsWritten` | Tetrominoes_Project/src/tetromino_functionality.py:144-155 | Follows the calls as written: `update_grid` as written, then the line clear, for a valid piece. Such a piece must have a grid row for each shape row. When the piece is not valid, the outcome is `GameOver` exactly when the (0, 0)-only test says so. |

## Left out

- `visualization.py`, `grid.py` and `tetromino.py` are not part of this model. Drawing, the game loop and the grid helper outside the placement engine are left out.
- Event dispatch through `setattr`/`getattr` (`event_handler`, `trigger_event`) is left out; `set_in_place` calls the handlers directly. `handle_set_in_place_failure` takes no grid argument, so dispatching it would raise `TypeError`. The model returns the `GameOver` outcome instead.
- Randomness: `random.choice` and `random.randint(0, 3)` become the parameters `choice` and `rotationsNum`.
- Row aliasing: `[[0] * w] * k` in `handle_line_clears` makes the k new empty rows one shared list, so a later write into one of them shows in all. Rows here are values, so the model does not show that sharing.
- Negative masks are left out: the masks are natural numbers, as `range(1, 2 ** 9)` produces.
- A row anchor below `-height`, where Python may raise `IndexError` (it does once a filled cell lands there), is excluded by `requires`. A grid with no rows, or with rows of different lengths, is excluded too: the code reads `grid[0]` and assumes a rectangle.
- `Placement.Tetromino.RotateShape`: requires a square shape for every argument. For "cw" and "ccw" on a non-square shape, the Python swap loop scrambles the cells or raises `IndexError`. A one-row shape is returned unturned. The requires also covers the copy-only path for other arguments, which copies any shape; the callers `rotate_cw` and `rotate_ccw` never take it.
- The canonical form, isomorphism checks and bitmask rotation in the tests have no function in the source and are not modelled. Neither are `print`, `__str__` or the `__main__` block.
- `Placement.Tetromino.IsGameOverExhaustive`: anchors whose row is below -height are not scanned, and `NoPlacementLeft` does not count them. Python's `is_valid_move` can accept such an anchor when the shape's top rows are empty. `IsValidMove` requires a row of at least -height, so no move of the model reaches those anchors.
- `Placement.Tetromino.IsGameOver`, `Placement.Tetromino.IsGameOverExhaustive`: a grid with no rows is excluded. On it `is_game_over` as written reads `grid[0]` only inside the row loop and would return True.
- `Placement.Tetromino.SetInPlace`: combines the corrected `UpdateGrid` and `IsGameOverExhaustive`. `set_in_place` as written differs in two ways.
  - A valid piece whose empty shape rows hang below the floor makes `update_grid` raise `IndexError` after a partial write. Mask 7 at (0, 7) on an 8x8 grid is one such piece. There is then no line clear and no score.
  - The game-over decision comes from the (0, 0)-only test, and it then hits the `TypeError` of `handle_set_in_place_failure`.
- `Placement.Tetromino.SetInPlaceAsWritten`: follows the source's calls, but requires every needed shape row to exist. It therefore does not model the `IndexError` path or the partial write that comes before it.
- `Board.StampAddsShapeCells`: proved only for y >= 0. With a negative anchor, Python's wrap-around can send two shape rows onto one grid row.
- The `set_in_place` flag of `is_valid_move` is unused in the source and is not modelled.

## Findings

| source | as written | input that shows it | evidently intended | confidence | as-written member | corrected member |
|---|---|---|---|---|---|---|
| Tetrominoes_Project/src/tetromino_functionality.py:204-213 | Both loops break after their first round, so each hotbar shape is tried only at anchor (0, 0). | Hotbar [[[1]]], grid [[1, 0]]: the piece fits at (1, 0), yet `is_game_over` returns True. | The game is over only when no hotbar shape fits at any anchor. Negative anchors count, since `is_valid_move` accepts them for shapes with empty left columns or top rows. The corrected scan tries every anchor whose row is at least -height. | not executed | `Placement.Tetromino.IsGameOver`, `Board.GameOverTooEarly`, `Board.NegativeColumnPlacement` | `Placement.Tetromino.IsGameOverExhaustive`, `Board.NoPlacementLeftIsGameOver`, `Board.ScanWindowSuffices` |
| Tetrominoes_Project/src/tetromino_functionality.py:188-189 | `grid[i + self.y]` is fetched for every shape row, including rows with no filled cell. | The bar [[1, 1, 1], [0, 0, 0], [0, 0, 0]] at (0, 0) on grid [[0, 0, 0]]: `is_valid_move` accepts it, and `update_grid` then indexes `grid[1]`, which does not exist. | Only rows holding a filled cell are looked up, so every valid placement can be written. | not executed | `Placement.Tetromino.UpdateGridAsWritten`, `Board.UpdateGridOverrun` | `Placement.Tetromino.UpdateGrid` |
