/** The playing field as the placement engine sees it: a grid of rows of
    cells (0 empty, non-zero occupied), indexed grid[row][column], with the
    piece anchored at column x and row y. Python's negative row and column
    indices count from the end; PyIndex models that wrap-around. */
module Board {
  import opened Matrices

  /** The grid has at least one row (the engine reads grid[0]) and all rows are as wide as the first. */
  predicate WellFormed(g: Matrix) {
    |g| > 0 && forall r :: 0 <= r < |g| ==> |g[r]| == |g[0]|
  }

  function Width(g: Matrix): int
    requires |g| > 0
  {
    |g[0]|
  }

  /** The position Python's seq[k] reads for -len <= k < len. */
  function PyIndex(k: int, len: int): int {
    if k < 0 then k + len else k
  }

  /** (i, j) is a filled cell of the shape s. */
  predicate Filled(s: Matrix, i: int, j: int) {
    0 <= i < |s| && 0 <= j < |s[i]| && s[i][j] != 0
  }

  /** The test is_valid_move makes for the filled shape cell (i, j): its grid cell
      lies above the floor, between the walls, and is empty. A row index below
      -height would make Python raise IndexError; callers keep y >= -height. */
  predicate CellFree(x: int, y: int, g: Matrix, i: int, j: int)
    requires WellFormed(g)
  {
    -|g| <= i + y < |g| && 0 <= j + x < Width(g) && g[PyIndex(i + y, |g|)][j + x] == 0
  }

  /** is_valid_move(s, x, y, g): every filled cell of s, shifted by (x, y), is free. */
  ghost predicate ValidAt(s: Matrix, x: int, y: int, g: Matrix)
    requires WellFormed(g)
  {
    forall i, j :: Filled(s, i, j) ==> CellFree(x, y, g, i, j)
  }

  /** Every filled cell of s at (x, y) has a grid cell Python can index: the precondition of a write. */
  ghost predicate Fits(s: Matrix, x: int, y: int, g: Matrix)
    requires WellFormed(g)
  {
    forall i, j :: Filled(s, i, j) ==> -|g| <= i + y < |g| && -Width(g) <= j + x < Width(g)
  }

  /** Cell (r, c) is written by one of the filled shape cells visited before
      position (n, m) of update_grid's row-major loop. */
  ghost predicate CoveredBefore(s: Matrix, x: int, y: int, h: int, w: int, n: int, m: int, r: int, c: int) {
    exists i, j :: Filled(s, i, j) && (i < n || (i == n && j < m)) && PyIndex(i + y, h) == r && PyIndex(j + x, w) == c
  }

  /** The grid after update_grid has visited the shape up to position (n, m). */
  ghost function Stamped(g: Matrix, s: Matrix, x: int, y: int, n: int, m: int): (r: Matrix)
    requires WellFormed(g)
    ensures |r| == |g| && forall k :: 0 <= k < |g| ==> |r[k]| == |g[k]|
  {
    seq(|g|, r requires 0 <= r < |g| => seq(|g[r]|, c requires 0 <= c < |g[r]| =>
      if CoveredBefore(s, x, y, |g|, Width(g), n, m, r, c) then 1 else g[r][c]))
  }

  /** The grid with the piece s written in at (x, y): each cell a filled shape cell lands on becomes 1. */
  ghost function Stamp(g: Matrix, s: Matrix, x: int, y: int): Matrix
    requires WellFormed(g)
  {
    Stamped(g, s, x, y, |s|, 0)
  }

  /** Before the loop nothing is written. */
  lemma StampedNone(g: Matrix, s: Matrix, x: int, y: int)
    requires WellFormed(g)
    ensures Stamped(g, s, x, y, 0, 0) == g
  {
    var t := Stamped(g, s, x, y, 0, 0);
    forall r | 0 <= r < |g| ensures t[r] == g[r] {
      forall c | 0 <= c < |g[r]| ensures t[r][c] == g[r][c] {
        assert !CoveredBefore(s, x, y, |g|, Width(g), 0, 0, r, c);
      }
    }
  }

  /** Passing an empty shape cell writes nothing. */
  lemma StampedSkip(g: Matrix, s: Matrix, x: int, y: int, n: int, m: int)
    requires WellFormed(g) && 0 <= n < |s| && 0 <= m < |s[n]| && s[n][m] == 0
    ensures Stamped(g, s, x, y, n, m + 1) == Stamped(g, s, x, y, n, m)
  {
    var a := Stamped(g, s, x, y, n, m + 1);
    var b := Stamped(g, s, x, y, n, m);
    forall r | 0 <= r < |g| ensures a[r] == b[r] {
      forall c | 0 <= c < |g[r]| ensures a[r][c] == b[r][c] {
        if CoveredBefore(s, x, y, |g|, Width(g), n, m + 1, r, c) {
          var i, j :| Filled(s, i, j) && (i < n || (i == n && j < m + 1)) && PyIndex(i + y, |g|) == r && PyIndex(j + x, Width(g)) == c;
          assert (i, j) != (n, m);
        }
      }
    }
  }

  /** Passing a filled shape cell sets its grid cell to 1 and nothing else. */
  lemma StampedWrite(g: Matrix, s: Matrix, x: int, y: int, n: int, m: int)
    requires WellFormed(g) && Filled(s, n, m)
    requires -|g| <= n + y < |g| && -Width(g) <= m + x < Width(g)
    ensures var b := Stamped(g, s, x, y, n, m);
            var r, c := PyIndex(n + y, |g|), PyIndex(m + x, Width(g));
            Stamped(g, s, x, y, n, m + 1) == b[r := b[r][c := 1]]
  {
    var a := Stamped(g, s, x, y, n, m + 1);
    var b := Stamped(g, s, x, y, n, m);
    var r0, c0 := PyIndex(n + y, |g|), PyIndex(m + x, Width(g));
    var e := b[r0 := b[r0][c0 := 1]];
    forall r | 0 <= r < |g| ensures a[r] == e[r] {
      forall c | 0 <= c < |g[r]| ensures a[r][c] == e[r][c] {
        if r == r0 && c == c0 {
          assert CoveredBefore(s, x, y, |g|, Width(g), n, m + 1, r, c);
        } else if CoveredBefore(s, x, y, |g|, Width(g), n, m + 1, r, c) {
          var i, j :| Filled(s, i, j) && (i < n || (i == n && j < m + 1)) && PyIndex(i + y, |g|) == r && PyIndex(j + x, Width(g)) == c;
          assert (i, j) != (n, m);
          assert CoveredBefore(s, x, y, |g|, Width(g), n, m, r, c);
        }
      }
    }
  }

  /** The end of one shape row is the start of the next. */
  lemma StampedNextRow(g: Matrix, s: Matrix, x: int, y: int, n: int)
    requires WellFormed(g) && 0 <= n < |s|
    ensures Stamped(g, s, x, y, n + 1, 0) == Stamped(g, s, x, y, n, |s[n]|)
  {
    var a := Stamped(g, s, x, y, n + 1, 0);
    var b := Stamped(g, s, x, y, n, |s[n]|);
    forall r | 0 <= r < |g| ensures a[r] == b[r] {
      forall c | 0 <= c < |g[r]| ensures a[r][c] == b[r][c] {
        if CoveredBefore(s, x, y, |g|, Width(g), n + 1, 0, r, c) {
          var i, j :| Filled(s, i, j) && (i < n + 1 || (i == n + 1 && j < 0)) && PyIndex(i + y, |g|) == r && PyIndex(j + x, Width(g)) == c;
          assert CoveredBefore(s, x, y, |g|, Width(g), n, |s[n]|, r, c);
        }
      }
    }
  }

  /** A valid placement fits, so the corrected update_grid can write it. */
  lemma ValidFits(s: Matrix, x: int, y: int, g: Matrix)
    requires WellFormed(g) && ValidAt(s, x, y, g)
    ensures Fits(s, x, y, g)
  {
    forall i, j | Filled(s, i, j) ensures -|g| <= i + y < |g| && -Width(g) <= j + x < Width(g) {
      assert CellFree(x, y, g, i, j);
    }
  }

  /** Writing a piece keeps the grid's dimensions, and keeps a 0/1 grid 0/1. */
  lemma StampKeepsShape(g: Matrix, s: Matrix, x: int, y: int)
    requires WellFormed(g)
    ensures WellFormed(Stamp(g, s, x, y)) && |Stamp(g, s, x, y)| == |g| && Width(Stamp(g, s, x, y)) == Width(g)
    ensures IsBinary(g) ==> IsBinary(Stamp(g, s, x, y))
  {
    var t := Stamp(g, s, x, y);
    if IsBinary(g) {
      forall r, c | 0 <= r < |t| && 0 <= c < |t[r]| ensures t[r][c] == 0 || t[r][c] == 1 {
        assert t[r][c] == 1 || t[r][c] == g[r][c];
      }
    }
  }

  /** Writing a piece only adds occupied cells: nothing occupied becomes empty. */
  lemma StampOnlyFills(g: Matrix, s: Matrix, x: int, y: int)
    requires WellFormed(g)
    ensures forall r, c :: 0 <= r < |g| && 0 <= c < |g[r]| && g[r][c] != 0 ==> Stamp(g, s, x, y)[r][c] != 0
  {
  }

  /** After a valid placement is written, each of its filled cells occupies its grid cell,
      so the same placement is no longer valid (when the shape has a filled cell). */
  lemma StampOccupies(g: Matrix, s: Matrix, x: int, y: int)
    requires WellFormed(g) && ValidAt(s, x, y, g)
    ensures forall i, j :: Filled(s, i, j) ==> Stamp(g, s, x, y)[PyIndex(i + y, |g|)][j + x] == 1
    ensures (exists i, j :: Filled(s, i, j)) ==> !ValidAt(s, x, y, Stamp(g, s, x, y))
  {
    var t := Stamp(g, s, x, y);
    StampKeepsShape(g, s, x, y);
    forall i, j | Filled(s, i, j) ensures t[PyIndex(i + y, |g|)][j + x] == 1 {
      assert CellFree(x, y, g, i, j);
      assert PyIndex(j + x, Width(g)) == j + x;
      assert CoveredBefore(s, x, y, |g|, Width(g), |s|, 0, PyIndex(i + y, |g|), j + x);
    }
    if exists i, j :: Filled(s, i, j) {
      var i, j :| Filled(s, i, j);
      assert !CellFree(x, y, t, i, j);
    }
  }

  /** The filled cells of a shape are the positions Filled names. */
  lemma InFilledCells(s: Matrix, p: (int, int))
    ensures p in FilledCells(s) <==> Filled(s, p.0, p.1)
  {
    if Filled(s, p.0, p.1) {
      assert (p.0, p.1) == p;
    }
  }

  /** The grid cells a valid placement covers. */
  ghost function Footprint(s: Matrix, x: int, y: int, h: int): set<(int, int)> {
    set p | p in FilledCells(s) :: (PyIndex(p.0 + y, h), p.1 + x)
  }

  /** At a row anchor y >= 0 the footprint of a valid placement has one grid cell per
      filled shape cell. (With y < 0, Python's wrap can send two shape rows onto one
      grid row.) */
  lemma FootprintSize(g: Matrix, s: Matrix, x: int, y: int)
    requires WellFormed(g) && ValidAt(s, x, y, g) && y >= 0
    ensures |Footprint(s, x, y, |g|)| == FilledCount(s)
  {
    var h := |g|;
    var f := (p: (int, int)) => (PyIndex(p.0 + y, h), p.1 + x);
    forall p, q | p in FilledCells(s) && q in FilledCells(s) && f(p) == f(q) ensures p == q {
      InFilledCells(s, p);
      InFilledCells(s, q);
    }
    var image := InjectiveImageSize(FilledCells(s), f);
    assert image == Footprint(s, x, y, h);
  }

  /** The occupied cells after a valid placement is written are the occupied cells
      before it plus its footprint, which was empty. */
  lemma StampFilledCells(g: Matrix, s: Matrix, x: int, y: int)
    requires WellFormed(g) && ValidAt(s, x, y, g)
    ensures FilledCells(Stamp(g, s, x, y)) == FilledCells(g) + Footprint(s, x, y, |g|)
    ensures FilledCells(g) * Footprint(s, x, y, |g|) == {}
  {
    var h := |g|;
    var t := Stamp(g, s, x, y);
    var fp := Footprint(s, x, y, h);
    StampKeepsShape(g, s, x, y);
    StampOccupies(g, s, x, y);
    forall q | q in fp ensures q in FilledCells(t) && q !in FilledCells(g) {
      var p :| p in FilledCells(s) && q == (PyIndex(p.0 + y, h), p.1 + x);
      InFilledCells(s, p);
      assert CellFree(x, y, g, p.0, p.1);
    }
    forall q | q in FilledCells(t) ensures q in FilledCells(g) + fp {
      if q !in FilledCells(g) {
        assert t[q.0][q.1] != g[q.0][q.1];
        var i, j :| Filled(s, i, j) && (i < |s| || (i == |s| && j < 0)) && PyIndex(i + y, h) == q.0 && PyIndex(j + x, Width(g)) == q.1;
        assert CellFree(x, y, g, i, j);
        InFilledCells(s, (i, j));
      }
    }
    StampOnlyFills(g, s, x, y);
  }

  /** Writing a valid placement at a row anchor y >= 0 adds exactly as many occupied
      cells as the shape has. */
  lemma StampAddsShapeCells(g: Matrix, s: Matrix, x: int, y: int)
    requires WellFormed(g) && ValidAt(s, x, y, g) && y >= 0
    ensures FilledCount(Stamp(g, s, x, y)) == FilledCount(g) + FilledCount(s)
  {
    StampFilledCells(g, s, x, y);
    FootprintSize(g, s, x, y);
  }

  // ---------------------------------------------------------------------------
  // Line clears

  /** all(cell == 1 for cell in row). */
  predicate IsFull(row: seq<int>) {
    forall c :: 0 <= c < |row| ==> row[c] == 1
  }

  /** The rows of g that are not full, in their order. */
  function Kept(g: Matrix): Matrix {
    if g == [] then [] else Kept(g[..|g| - 1]) + (if IsFull(g[|g| - 1]) then [] else [g[|g| - 1]])
  }

  /** The number of full rows of g. */
  function FullCount(g: Matrix): nat {
    if g == [] then 0 else FullCount(g[..|g| - 1]) + (if IsFull(g[|g| - 1]) then 1 else 0)
  }

  /** The indices of the rows of g that are not full, in increasing order. */
  function KeptIndices(g: Matrix): seq<int> {
    if g == [] then [] else KeptIndices(g[..|g| - 1]) + (if IsFull(g[|g| - 1]) then [] else [|g| - 1])
  }

  /** [0] * w. */
  function ZeroRow(w: nat): seq<int> {
    seq(w, _ => 0)
  }

  /** k empty rows of width w. */
  function ZeroRows(k: nat, w: nat): Matrix {
    seq(k, _ => ZeroRow(w))
  }

  /** handle_line_clears on the grid: as many empty rows as there were full rows,
      then the rows that were not full. */
  function ClearLines(g: Matrix): Matrix
    requires |g| > 0
  {
    ZeroRows(FullCount(g), |g[0]|) + Kept(g)
  }

  /** Every row is either kept or counted as full. */
  lemma {:induction false} KeptSize(g: Matrix)
    ensures |Kept(g)| + FullCount(g) == |g|
    ensures |KeptIndices(g)| == |Kept(g)|
  {
    if g != [] {
      KeptSize(g[..|g| - 1]);
    }
  }

  /** Kept(g) lists g's non-full rows in their original order: KeptIndices(g) is
      strictly increasing, holds exactly the indices of the non-full rows, and
      Kept(g)[t] is row KeptIndices(g)[t] of g. */
  lemma {:induction false} KeptIsFilter(g: Matrix)
    ensures |KeptIndices(g)| == |Kept(g)|
    ensures forall t :: 0 <= t < |Kept(g)| ==> 0 <= KeptIndices(g)[t] < |g| && Kept(g)[t] == g[KeptIndices(g)[t]]
    ensures forall t, u :: 0 <= t < u < |KeptIndices(g)| ==> KeptIndices(g)[t] < KeptIndices(g)[u]
    ensures forall i :: 0 <= i < |g| ==> (i in KeptIndices(g) <==> !IsFull(g[i]))
  {
    KeptSize(g);
    if g != [] {
      var p := g[..|g| - 1];
      KeptIsFilter(p);
      KeptSize(p);
      var last := |g| - 1;
      assert forall i :: 0 <= i < |p| ==> p[i] == g[i];
      forall i | 0 <= i < |g| ensures i in KeptIndices(g) <==> !IsFull(g[i]) {
        if i < last {
          assert i in KeptIndices(g) <==> i in KeptIndices(p);
        }
      }
    }
  }

  /** The set of full-row indices that handle_line_clears collects has FullCount elements. */
  lemma {:induction false} FullRowsCount(g: Matrix)
    ensures |set i | 0 <= i < |g| && IsFull(g[i])| == FullCount(g)
  {
    if g != [] {
      var p := g[..|g| - 1];
      FullRowsCount(p);
      var before := set i | 0 <= i < |p| && IsFull(p[i]);
      var after := set i | 0 <= i < |g| && IsFull(g[i]);
      if IsFull(g[|g| - 1]) {
        assert after == before + {|g| - 1};
      } else {
        assert after == before;
      }
    }
  }

  /** A stack of rows none of which is full is kept whole. */
  lemma {:induction false} NoFullRowKeptWhole(g: Matrix)
    requires forall r :: 0 <= r < |g| ==> !IsFull(g[r])
    ensures FullCount(g) == 0 && Kept(g) == g
  {
    if g != [] {
      NoFullRowKeptWhole(g[..|g| - 1]);
    }
  }

  /** No kept row is full. */
  lemma KeptHasNoFullRow(g: Matrix)
    ensures forall t :: 0 <= t < |Kept(g)| ==> !IsFull(Kept(g)[t])
  {
    KeptIsFilter(g);
    forall t | 0 <= t < |Kept(g)| ensures !IsFull(Kept(g)[t]) {
      assert KeptIndices(g)[t] in KeptIndices(g);
    }
  }

  /** Row t of the cleared grid: an empty row for the first FullCount(g), then the kept rows. */
  lemma ClearLinesRow(g: Matrix, t: int)
    requires |g| > 0 && 0 <= t < |g|
    ensures |ClearLines(g)| == |g|
    ensures ClearLines(g)[t] == if t < FullCount(g) then ZeroRow(|g[0]|) else Kept(g)[t - FullCount(g)]
  {
    KeptSize(g);
  }

  /** Clearing lines keeps the height and width of a well-formed grid and keeps it 0/1. */
  lemma ClearLinesShape(g: Matrix)
    requires WellFormed(g)
    ensures |ClearLines(g)| == |g| && WellFormed(ClearLines(g)) && Width(ClearLines(g)) == Width(g)
    ensures IsBinary(g) ==> IsBinary(ClearLines(g))
  {
    var k := FullCount(g);
    KeptIsFilter(g);
    KeptSize(g);
    var cl := ClearLines(g);
    assert |cl| == |g|;
    forall t | 0 <= t < |g| ensures |cl[t]| == Width(g) && (IsBinary(g) ==> forall c :: 0 <= c < |cl[t]| ==> cl[t][c] == 0 || cl[t][c] == 1) {
      ClearLinesRow(g, t);
      if t >= k {
        assert cl[t] == g[KeptIndices(g)[t - k]];
      }
    }
    ClearLinesRow(g, 0);
  }

  /** With at least one column, no row of the cleared grid is full. */
  lemma ClearLinesNoFullRow(g: Matrix)
    requires WellFormed(g) && Width(g) > 0
    ensures forall r :: 0 <= r < |ClearLines(g)| ==> !IsFull(ClearLines(g)[r])
    ensures FullCount(ClearLines(g)) == 0
  {
    var cl := ClearLines(g);
    KeptSize(g);
    KeptHasNoFullRow(g);
    forall r | 0 <= r < |cl| ensures !IsFull(cl[r]) {
      ClearLinesRow(g, r);
      if r < FullCount(g) {
        assert cl[r][0] == 0;
      }
    }
    NoFullRowKeptWhole(cl);
  }

  /** Clearing lines twice is clearing them once (for a grid with at least one column). */
  lemma ClearLinesIdempotent(g: Matrix)
    requires WellFormed(g) && Width(g) > 0
    ensures ClearLines(ClearLines(g)) == ClearLines(g)
  {
    ClearLinesShape(g);
    ClearLinesNoFullRow(g);
    NoFullRowKeptWhole(ClearLines(g));
  }

  /** A full row, once cleared, leaves the grid: a grid without full rows is unchanged. */
  lemma ClearLinesWithoutFullRows(g: Matrix)
    requires |g| > 0 && forall r :: 0 <= r < |g| ==> !IsFull(g[r])
    ensures ClearLines(g) == g
  {
    NoFullRowKeptWhole(g);
  }

  // ---------------------------------------------------------------------------
  // Game over

  /** is_game_over as written: only anchor (0, 0) is tried for each hotbar shape,
      and none at all when the grid has no column. */
  ghost predicate GameOverAsWritten(hotbar: seq<Matrix>, g: Matrix)
    requires WellFormed(g)
  {
    forall k :: 0 <= k < |hotbar| ==> !(Width(g) > 0 && ValidAt(hotbar[k], 0, 0, g))
  }

  /** The length of the longest row of s: a filled cell (i, j) has j < MaxRowLength(s). */
  function MaxRowLength(s: Matrix): (r: nat)
    ensures forall i :: 0 <= i < |s| ==> |s[i]| <= r
    ensures |s| > 0 ==> exists i :: 0 <= i < |s| && |s[i]| == r
  {
    if |s| == 0 then 0
    else
      var t := MaxRowLength(s[1..]);
      assert forall i :: 1 <= i < |s| ==> s[i] == s[1..][i - 1];
      if |s[0]| > t then |s[0]| else t
  }

  /** No hotbar shape has a valid placement at any anchor whose row is not
      below -height, the anchors Python's row index can reach. */
  ghost predicate NoPlacementLeft(hotbar: seq<Matrix>, g: Matrix)
    requires WellFormed(g)
  {
    forall k, y, x :: 0 <= k < |hotbar| && y >= -|g| ==> !ValidAt(hotbar[k], x, y, g)
  }

  /** A finite window of anchors holds a valid one whenever any anchor is valid:
      rows -height <= y < height and columns -MaxRowLength(s) <= x <= width. A
      piece with a filled cell (i, j) at a valid anchor has i + y < height and
      0 <= j + x < width; a piece without one is valid at (0, 0). */
  lemma ValidAnchorInWindow(s: Matrix, x: int, y: int, g: Matrix)
    requires WellFormed(g) && y >= -|g| && ValidAt(s, x, y, g)
    ensures exists y', x' :: -|g| <= y' < |g| && -(MaxRowLength(s) as int) <= x' <= Width(g) && ValidAt(s, x', y', g)
  {
    if i, j :| Filled(s, i, j) {
      assert CellFree(x, y, g, i, j);
      assert -|g| <= y < |g| && -(MaxRowLength(s) as int) <= x <= Width(g) && ValidAt(s, x, y, g);
    } else {
      assert -|g| <= 0 < |g| && -(MaxRowLength(s) as int) <= 0 <= Width(g) && ValidAt(s, 0, 0, g);
    }
  }

  /** So trying the window is enough to rule out every anchor. */
  lemma ScanWindowSuffices(s: Matrix, g: Matrix)
    requires WellFormed(g)
    requires forall y, x :: -|g| <= y < |g| && -(MaxRowLength(s) as int) <= x <= Width(g) ==> !ValidAt(s, x, y, g)
    ensures forall y, x :: y >= -|g| ==> !ValidAt(s, x, y, g)
  {
    forall y, x | y >= -|g| ensures !ValidAt(s, x, y, g) {
      if ValidAt(s, x, y, g) {
        ValidAnchorInWindow(s, x, y, g);
      }
    }
  }

  /** Whenever no placement is left, is_game_over as written also says the game is over. */
  lemma NoPlacementLeftIsGameOver(hotbar: seq<Matrix>, g: Matrix)
    requires WellFormed(g) && NoPlacementLeft(hotbar, g)
    ensures GameOverAsWritten(hotbar, g)
  {
    forall k | 0 <= k < |hotbar| ensures !(Width(g) > 0 && ValidAt(hotbar[k], 0, 0, g)) {
      assert 0 >= -|g|;
    }
  }

  /** The converse fails: a 1x1 piece whose only free cell is (1, 0) still has a
      placement, yet is_game_over as written reports the game over. */
  lemma GameOverTooEarly()
    ensures WellFormed([[1, 0]])
    ensures GameOverAsWritten([[[1]]], [[1, 0]])
    ensures !NoPlacementLeft([[[1]]], [[1, 0]])
  {
    var g: Matrix := [[1, 0]];
    var s: Matrix := [[1]];
    assert Filled(s, 0, 0) && !CellFree(0, 0, g, 0, 0);
    forall i, j | Filled(s, i, j) ensures CellFree(1, 0, g, i, j) {
      assert i == 0 && j == 0;
    }
    assert ValidAt([[[1]]][0], 1, 0, [[1, 0]]);
  }

  /** A valid placement outside the anchors the source's loops visit: the
      vertical bar of the generator, mask 146, fits only at column -1 of a
      grid whose left column alone is empty, because its own left column is
      empty. No shape is valid at any in-grid anchor, yet a placement is left. */
  lemma NegativeColumnPlacement()
    ensures WellFormed([[0, 1, 1], [0, 1, 1], [0, 1, 1]])
    ensures ValidAt([[0, 1, 0], [0, 1, 0], [0, 1, 0]], -1, 0, [[0, 1, 1], [0, 1, 1], [0, 1, 1]])
    ensures forall y, x :: 0 <= y < 3 && 0 <= x < 3 ==>
              !ValidAt([[0, 1, 0], [0, 1, 0], [0, 1, 0]], x, y, [[0, 1, 1], [0, 1, 1], [0, 1, 1]])
    ensures !NoPlacementLeft([[[0, 1, 0], [0, 1, 0], [0, 1, 0]]], [[0, 1, 1], [0, 1, 1], [0, 1, 1]])
  {
    var s: Matrix := [[0, 1, 0], [0, 1, 0], [0, 1, 0]];
    var g: Matrix := [[0, 1, 1], [0, 1, 1], [0, 1, 1]];
    forall i, j | Filled(s, i, j) ensures CellFree(-1, 0, g, i, j) {
      assert j == 1;
    }
    forall y, x | 0 <= y < 3 && 0 <= x < 3 ensures !ValidAt(s, x, y, g) {
      if y == 0 {
        assert Filled(s, 0, 1) && !CellFree(x, y, g, 0, 1);
      } else {
        assert Filled(s, 2, 1) && !CellFree(x, y, g, 2, 1);
      }
    }
    assert ValidAt([[[0, 1, 0], [0, 1, 0], [0, 1, 0]]][0], -1, 0, g);
  }

  /** update_grid as written reads grid[i + y] for every shape row, filled or not. */
  predicate RowsIndexable(s: Matrix, y: int, g: Matrix) {
    |s| > 0 ==> -|g| <= y && y + |s| <= |g|
  }

  /** A valid placement whose empty bottom rows hang below the floor: the horizontal
      bar of the generator, mask 7, on a one-row grid. update_grid as written
      indexes a row that does not exist. */
  lemma UpdateGridOverrun()
    ensures WellFormed([[0, 0, 0]])
    ensures ValidAt([[1, 1, 1], [0, 0, 0], [0, 0, 0]], 0, 0, [[0, 0, 0]])
    ensures !RowsIndexable([[1, 1, 1], [0, 0, 0], [0, 0, 0]], 0, [[0, 0, 0]])
  {
    var s: Matrix := [[1, 1, 1], [0, 0, 0], [0, 0, 0]];
    var g: Matrix := [[0, 0, 0]];
    forall i, j | Filled(s, i, j) ensures CellFree(0, 0, g, i, j) {
      assert i == 0;
    }
    assert !(-|g| <= 1 + 0 < |g|);
  }
}
