/** The shape generator: enumerates the connected three-cell shapes of the
    3x3 window as bitmasks, decodes a mask into a matrix and turns a shape
    by quarter turns. */
module ShapeGeneration {
  import opened Matrices
  import opened Bitmasks

  datatype Option<T> = None | Some(value: T)

  /** Row and column of the window cell with bit index p. */
  function Row(p: int): int { p / 3 }
  function Col(p: int): int { p % 3 }

  /** p and q are window cells that share an edge. */
  predicate Adjacent(p: int, q: int) {
    0 <= p < 9 && 0 <= q < 9 &&
    ((Row(p) == Row(q) && (Col(p) - Col(q) == 1 || Col(q) - Col(p) == 1)) ||
     (Col(p) == Col(q) && (Row(p) - Row(q) == 1 || Row(q) - Row(p) == 1)))
  }

  /** No edge leads from s to a cell of f outside s. */
  ghost predicate Closed(s: set<int>, f: set<int>) {
    forall p, q :: p in s && q in f && Adjacent(p, q) ==> q in s
  }

  /** f is non-empty and forms a single 4-connected region: the only non-empty
      part of f closed under adjacency is f itself. */
  ghost predicate Connected(f: set<int>) {
    f != {} && forall s :: s <= f && s != {} && Closed(s, f) ==> s == f
  }

  /** The steps of the search, as (row, column) offsets. */
  const Steps: seq<(int, int)> := [(-1, 0), (1, 0), (0, -1), (0, 1)]

  /** The cell reached from p by step e, when it lies in the window. */
  predicate StepInWindow(p: int, e: int)
    requires 0 <= e < 4
  {
    0 <= Row(p) + Steps[e].0 < 3 && 0 <= Col(p) + Steps[e].1 < 3
  }

  function StepTarget(p: int, e: int): int
    requires 0 <= e < 4
  {
    3 * (Row(p) + Steps[e].0) + (Col(p) + Steps[e].1)
  }

  /** The four steps reach exactly the adjacent cells. */
  lemma StepsReachNeighbours(p: int, q: int)
    requires 0 <= p < 9
    ensures Adjacent(p, q) <==> exists e :: 0 <= e < 4 && StepInWindow(p, e) && q == StepTarget(p, e)
  {
    if Adjacent(p, q) {
      var e := if Row(q) == Row(p) - 1 then 0 else if Row(q) == Row(p) + 1 then 1
               else if Col(q) == Col(p) - 1 then 2 else 3;
      assert StepInWindow(p, e) && q == StepTarget(p, e);
    }
  }

  /** Adjacency is symmetric. */
  lemma AdjacentSymmetric(p: int, q: int)
    ensures Adjacent(p, q) <==> Adjacent(q, p)
  {
  }

  /** What the search leaves behind decides connectivity: visited is a closed
      part of f that holds the seed and lies inside every closed set holding the seed. */
  lemma SearchDecides(f: set<int>, visited: set<int>, seed: int)
    requires seed in visited && visited <= f && Closed(visited, f)
    requires forall s :: Closed(s, f) && seed in s ==> visited <= s
    ensures Connected(f) <==> visited == f
  {
    if visited == f {
      forall s | s <= f && s != {} && Closed(s, f) ensures s == f {
        ComplementClosed(s, f);
        assert seed in s;
      }
    }
  }

  /** The rest of f outside a closed part is closed too, since adjacency is symmetric. */
  lemma ComplementClosed(s: set<int>, f: set<int>)
    requires Closed(s, f)
    ensures Closed(f - s, f)
  {
    forall p, q | p in f - s && q in f && Adjacent(p, q) ensures q in f - s {
      AdjacentSymmetric(p, q);
    }
  }

  /** The elements of a worklist. */
  ghost function Elems(s: seq<int>): set<int> {
    set x | x in s
  }

  lemma ElemsSnoc(s: seq<int>, x: int)
    ensures Elems(s + [x]) == Elems(s) + {x}
  {
  }

  /** The cells of f adjacent to p. */
  ghost function Neighbours(p: int, f: set<int>): set<int> {
    set q | q in f && Adjacent(p, q)
  }

  /** Every closed part of f that holds the seed holds t: t is reachable from the seed. */
  ghost predicate Reached(t: set<int>, f: set<int>, seed: int) {
    forall s :: Closed(s, f) && seed in s ==> t <= s
  }

  /** Every edge from a visited cell ends in a visited or a pending cell. */
  ghost predicate Frontier(visited: set<int>, pending: set<int>, f: set<int>) {
    forall p, q :: p in visited && q in f && Adjacent(p, q) ==> q in visited || q in pending
  }

  /** The neighbours of a reached cell are reached. */
  lemma ReachedStep(t: set<int>, f: set<int>, seed: int, p: int)
    requires Reached(t, f, seed) && p in t
    ensures Reached(t + Neighbours(p, f), f, seed)
  {
    forall s | Closed(s, f) && seed in s ensures t + Neighbours(p, f) <= s {
      assert p in s;
    }
  }

  /** Row-major fill of the 3x3 grid with the bits of the mask, noting the first filled cell. */
  method FillGrid(bitmask: nat) returns (grid: array2<int>, firstFilledCell: Option<int>)
    ensures fresh(grid) && grid.Length0 == 3 && grid.Length1 == 3
    ensures forall i, j :: 0 <= i < 3 && 0 <= j < 3 ==> grid[i, j] == Bit(bitmask, 3 * i + j)
    ensures firstFilledCell.None? <==> Cells(bitmask) == {}
    ensures firstFilledCell.Some? ==> firstFilledCell.value in Cells(bitmask)
    ensures firstFilledCell.Some? ==> forall k :: 0 <= k < firstFilledCell.value ==> k !in Cells(bitmask)
  {
    grid := new int[3, 3];
    firstFilledCell := None;
    for i := 0 to 3
      invariant forall i', j' :: 0 <= i' < i && 0 <= j' < 3 ==> grid[i', j'] == Bit(bitmask, 3 * i' + j')
      invariant firstFilledCell.None? <==> forall k :: 0 <= k < 3 * i ==> Bit(bitmask, k) != 1
      invariant firstFilledCell.Some? ==> 0 <= firstFilledCell.value < 9 && Bit(bitmask, firstFilledCell.value) == 1
      invariant firstFilledCell.Some? ==> forall k :: 0 <= k < firstFilledCell.value ==> Bit(bitmask, k) != 1
    {
      for j := 0 to 3
        invariant forall i', j' :: 0 <= i' < i && 0 <= j' < 3 ==> grid[i', j'] == Bit(bitmask, 3 * i' + j')
        invariant forall j' :: 0 <= j' < j ==> grid[i, j'] == Bit(bitmask, 3 * i + j')
        invariant firstFilledCell.None? <==> forall k :: 0 <= k < 3 * i + j ==> Bit(bitmask, k) != 1
        invariant firstFilledCell.Some? ==> 0 <= firstFilledCell.value < 9 && Bit(bitmask, firstFilledCell.value) == 1
        invariant firstFilledCell.Some? ==> forall k :: 0 <= k < firstFilledCell.value ==> Bit(bitmask, k) != 1
      {
        var cellValue := Bit(bitmask, 3 * i + j);
        grid[i, j] := cellValue;
        if cellValue == 1 && firstFilledCell.None? {
          firstFilledCell := Some(3 * i + j);
        }
      }
    }
    if firstFilledCell.None? {
      forall k | 0 <= k < 9 ensures k !in Cells(bitmask) {
      }
    } else {
      assert firstFilledCell.value in Cells(bitmask);
    }
  }

  /** The inner loop of is_connected: push every filled in-window neighbour of current. */
  method PushNeighbours(grid: array2<int>, ghost bitmask: nat, current: int, toVisit: seq<int>)
    returns (result: seq<int>)
    requires grid.Length0 == 3 && grid.Length1 == 3 && 0 <= current < 9
    requires forall i, j :: 0 <= i < 3 && 0 <= j < 3 ==> grid[i, j] == Bit(bitmask, 3 * i + j)
    ensures |toVisit| <= |result| && result[..|toVisit|] == toVisit
    ensures Elems(result) == Elems(toVisit) + Neighbours(current, Cells(bitmask))
  {
    result := toVisit;
    var x, y := current / 3, current % 3;
    for e := 0 to 4
      invariant |toVisit| <= |result| && result[..|toVisit|] == toVisit
      invariant forall k :: |toVisit| <= k < |result| ==> result[k] in Cells(bitmask) && Adjacent(current, result[k])
      invariant forall e' :: 0 <= e' < e && StepInWindow(current, e') && StepTarget(current, e') in Cells(bitmask) ==>
                  StepTarget(current, e') in result
    {
      var (dx, dy) := Steps[e];
      var newX, newY := x + dx, y + dy;
      if 0 <= newX < 3 && 0 <= newY < 3 && grid[newX, newY] == 1 {
        assert StepTarget(current, e) == 3 * newX + newY;
        result := result + [3 * newX + newY];
      }
    }
    forall q | q in Neighbours(current, Cells(bitmask)) ensures q in result {
      StepsReachNeighbours(current, q);
    }
    forall q | q in result ensures q in toVisit || q in Neighbours(current, Cells(bitmask)) {
      var k :| 0 <= k < |result| && result[k] == q;
      if k < |toVisit| {
        assert toVisit[k] == q;
      }
    }
    forall q | q in toVisit ensures q in result {
      var k :| 0 <= k < |toVisit| && toVisit[k] == q;
      assert result[k] == q;
    }
  }

  /** The worklist search of is_connected from the seed: it ends with a closed
      part of the filled cells, every cell of which is reachable from the seed. */
  method Explore(grid: array2<int>, ghost bitmask: nat, seed: int) returns (visited: set<int>)
    requires grid.Length0 == 3 && grid.Length1 == 3 && seed in Cells(bitmask)
    requires forall i, j :: 0 <= i < 3 && 0 <= j < 3 ==> grid[i, j] == Bit(bitmask, 3 * i + j)
    ensures seed in visited && visited <= Cells(bitmask)
    ensures Closed(visited, Cells(bitmask)) && Reached(visited, Cells(bitmask), seed)
  {
    ghost var filled := Cells(bitmask);
    visited := {};
    var toVisit := [seed];
    assert Elems(toVisit) == {seed};
    while toVisit != []
      invariant visited <= filled && Elems(toVisit) <= filled
      invariant seed in visited + Elems(toVisit)
      invariant Frontier(visited, Elems(toVisit), filled)
      invariant Reached(visited + Elems(toVisit), filled, seed)
      decreases filled - visited, |toVisit|
    {
      var current := toVisit[|toVisit| - 1];
      ghost var pending := Elems(toVisit);
      ghost var before := toVisit;
      toVisit := toVisit[..|toVisit| - 1];
      assert before == toVisit + [current];
      ElemsSnoc(toVisit, current);
      if current in visited {
        continue;
      }
      ghost var t := visited + pending;
      ReachedStep(t, filled, seed, current);
      visited := visited + {current};
      toVisit := PushNeighbours(grid, bitmask, current, toVisit);
      assert visited + Elems(toVisit) == t + Neighbours(current, filled);
    }
  }

  /** is_connected: whether the filled cells of the window form one 4-connected
      region and are all the set bits of the mask (the search compares the
      number of cells it reaches with bin(bitmask).count('1')). */
  method IsConnected(bitmask: nat) returns (connected: bool)
    ensures connected <==> Connected(Cells(bitmask)) && |Cells(bitmask)| == PopCount(bitmask)
  {
    var grid, firstFilledCell := FillGrid(bitmask);
    if firstFilledCell.None? {
      return false;
    }
    var seed := firstFilledCell.value;
    var visited := Explore(grid, bitmask, seed);
    ghost var filled := Cells(bitmask);
    SearchDecides(filled, visited, seed);
    PopCountSplit(bitmask, 9);
    assert filled == visited + (filled - visited);
    connected := |visited| == PopCount(bitmask);
  }

  /** The shapes the generator keeps: masks 1..511 with three set bits whose cells are connected. */
  ghost function ShapeCatalog(): set<nat> {
    set b: nat | 1 <= b < 512 && PopCount(b) == 3 && Connected(Cells(b))
  }

  /** generate_shapes: every mask in 1..511 with three set bits that is_connected accepts. */
  method GenerateShapes() returns (uniqueShapes: set<nat>)
    ensures uniqueShapes == ShapeCatalog()
  {
    uniqueShapes := {};
    for bitmask := 1 to 512
      invariant uniqueShapes == set b: nat | 1 <= b < bitmask && PopCount(b) == 3 && Connected(Cells(b))
    {
      if PopCount(bitmask) == 3 {
        var connected := IsConnected(bitmask);
        CellCount(bitmask);
        if connected {
          uniqueShapes := uniqueShapes + {bitmask};
        }
      }
    }
  }

  /** bitmask_to_2D: the 3x3 matrix of the mask, built row by row. */
  method BitmaskTo2D(bitmask: nat) returns (shape2D: Matrix)
    ensures shape2D == Decode(bitmask)
  {
    shape2D := [];
    for row := 0 to 3
      invariant |shape2D| == row
      invariant forall r :: 0 <= r < row ==> shape2D[r] == Decode(bitmask)[r]
    {
      var shapeRow := [];
      for col := 0 to 3
        invariant shapeRow == Decode(bitmask)[row][..col]
      {
        var bitPosition := 3 * row + col;
        var cellValue := Bit(bitmask, bitPosition);
        shapeRow := shapeRow + [cellValue];
      }
      shape2D := shape2D + [shapeRow];
    }
  }

  /** The rotation step of apply_random_rotation; for a 3x3 shape it is the clockwise quarter turn. */
  function QuarterTurn(shape: Matrix): (r: Matrix)
    requires IsSquare(shape, 3)
    ensures r == Clockwise(shape)
  {
    seq(3, i requires 0 <= i < 3 => seq(3, j requires 0 <= j < 3 => shape[2 - j][i]))
  }

  /** apply_random_rotation with the drawn number of rotations passed in. */
  method ApplyRotation(shape: Matrix, rotationsNum: nat) returns (rotated: Matrix)
    requires IsSquare(shape, 3)
    ensures rotated == ClockwisePower(shape, rotationsNum)
  {
    rotated := shape;
    for k := 0 to rotationsNum
      invariant rotated == ClockwisePower(shape, k)
    {
      rotated := QuarterTurn(rotated);
    }
  }

  /** The catalog is not empty: the top row, mask 0b000000111, is one of its shapes. */
  lemma CatalogHasTopRow()
    ensures 7 in ShapeCatalog()
  {
    TopRowConnected();
  }

  /** Mask 0b000000111 fills the top row, cells 0, 1 and 2. */
  lemma TopRowCells()
    ensures Cells(7) == {0, 1, 2}
  {
    assert Bit(7, 0) == 1 && Bit(7, 1) == 1 && Bit(7, 2) == 1 && Bit(7, 3) == 0 && Bit(7, 4) == 0 && Bit(7, 5) == 0 && Bit(7, 6) == 0 && Bit(7, 7) == 0 && Bit(7, 8) == 0;
    forall k | 0 <= k < 9 ensures k in Cells(7) <==> k in {0, 1, 2} {
      assert k == 0 || k == 1 || k == 2 || k == 3 || k == 4 || k == 5 || k == 6 || k == 7 || k == 8;
    }
  }

  /** The top row is connected. */
  lemma TopRowConnected()
    ensures Connected(Cells(7))
  {
    TopRowCells();
    RowIsConnected();
  }

  /** Cells 0, 1 and 2 form a connected region. */
  lemma RowIsConnected()
    ensures Connected({0, 1, 2})
  {
    var f := {0, 1, 2};
    forall s | s <= f && s != {} && Closed(s, f) ensures s == f {
      var x :| x in s;
      if x == 0 {
        ClosedStep(s, f, 0, 1);
      } else if x == 2 {
        ClosedStep(s, f, 2, 1);
      }
      ClosedStep(s, f, 1, 0);
      ClosedStep(s, f, 1, 2);
      AllThree(s, 0, 1, 2);
    }
  }

  /** Mask 0b000001011 fills cells 0, 1 and 3, an L in the top-left corner. */
  lemma CornerCells()
    ensures Cells(11) == {0, 1, 3}
  {
    assert Bit(11, 0) == 1 && Bit(11, 1) == 1 && Bit(11, 2) == 0 && Bit(11, 3) == 1 && Bit(11, 4) == 0 && Bit(11, 5) == 0 && Bit(11, 6) == 0 && Bit(11, 7) == 0 && Bit(11, 8) == 0;
    forall k | 0 <= k < 9 ensures k in Cells(11) <==> k in {0, 1, 3} {
      assert k == 0 || k == 1 || k == 2 || k == 3 || k == 4 || k == 5 || k == 6 || k == 7 || k == 8;
    }
  }

  /** The corner L is connected, so it is in the catalog as well. */
  lemma CatalogHasCorner()
    ensures 11 in ShapeCatalog()
  {
    CornerCells();
    CornerIsConnected();
  }

  /** Cells 0, 1 and 3 form a connected region around cell 0. */
  lemma CornerIsConnected()
    ensures Connected({0, 1, 3})
  {
    var f := {0, 1, 3};
    forall s | s <= f && s != {} && Closed(s, f) ensures s == f {
      var x :| x in s;
      if x == 1 {
        ClosedStep(s, f, 1, 0);
      } else if x == 3 {
        ClosedStep(s, f, 3, 0);
      }
      ClosedStep(s, f, 0, 1);
      ClosedStep(s, f, 0, 3);
      AllThree(s, 0, 1, 3);
    }
  }

  /** Mask 0b000110110 fills cells 1, 2, 4 and 5: a 2x2 square. */
  lemma SquareCells()
    ensures Cells(54) == {1, 2, 4, 5}
  {
    assert Bit(54, 0) == 0 && Bit(54, 1) == 1 && Bit(54, 2) == 1 && Bit(54, 3) == 0 && Bit(54, 4) == 1 && Bit(54, 5) == 1 && Bit(54, 6) == 0 && Bit(54, 7) == 0 && Bit(54, 8) == 0;
    forall k | 0 <= k < 9 ensures k in Cells(54) <==> k in {1, 2, 4, 5} {
      assert k == 0 || k == 1 || k == 2 || k == 3 || k == 4 || k == 5 || k == 6 || k == 7 || k == 8;
    }
  }

  /** Cells 1, 2, 4 and 5 form a connected region. */
  lemma SquareRegionConnected()
    ensures Connected({1, 2, 4, 5})
  {
    var f := {1, 2, 4, 5};
    forall s | s <= f && s != {} && Closed(s, f) ensures s == f {
      var x :| x in s;
      if x == 2 {
        ClosedStep(s, f, 2, 1);
      } else if x == 4 {
        ClosedStep(s, f, 4, 1);
      } else if x == 5 {
        ClosedStep(s, f, 5, 2);
        ClosedStep(s, f, 2, 1);
      }
      ClosedStep(s, f, 1, 2);
      ClosedStep(s, f, 1, 4);
      ClosedStep(s, f, 2, 5);
      AllFour(s, 1, 2, 4, 5);
    }
  }

  /** The 2x2 square 0b000110110 is what is_connected accepts: its cells are
      connected and are all the set bits of the mask. */
  lemma SquareIsConnected()
    ensures Connected(Cells(54)) && |Cells(54)| == PopCount(54)
  {
    SquareCells();
    SquareRegionConnected();
    CellCount(54);
  }

  /** A part of {a, b, c} that holds a, b and c is the whole set. */
  lemma AllThree(s: set<int>, a: int, b: int, c: int)
    requires s <= {a, b, c} && a in s && b in s && c in s
    ensures s == {a, b, c}
  {
  }

  /** A subset of four values that holds all four is the whole set. */
  lemma AllFour(s: set<int>, a: int, b: int, c: int, d: int)
    requires s <= {a, b, c, d} && a in s && b in s && c in s && d in s
    ensures s == {a, b, c, d}
  {
  }

  /** A closed part holding p holds p's neighbours in f. */
  lemma ClosedStep(s: set<int>, f: set<int>, p: int, q: int)
    requires Closed(s, f) && p in s && q in f && Adjacent(p, q)
    ensures q in s
  {
  }

  /** Mask 0b100001001 fills cells 0, 3 and 8. */
  lemma SplitCells()
    ensures Cells(265) == {0, 3, 8}
  {
    assert Bit(265, 0) == 1 && Bit(265, 1) == 0 && Bit(265, 2) == 0 && Bit(265, 3) == 1 && Bit(265, 4) == 0 && Bit(265, 5) == 0 && Bit(265, 6) == 0 && Bit(265, 7) == 0 && Bit(265, 8) == 1;
    forall k | 0 <= k < 9 ensures k in Cells(265) <==> k in {0, 3, 8} {
      assert k == 0 || k == 1 || k == 2 || k == 3 || k == 4 || k == 5 || k == 6 || k == 7 || k == 8;
    }
  }

  /** 0b100001001 is not connected: cell 8 touches neither of the others. */
  lemma SplitIsNotConnected()
    ensures !Connected(Cells(265))
  {
    SplitCells();
    var f := {0, 3, 8};
    var part := {0, 3};
    assert Closed(part, f);
    assert 8 !in part;
  }

  /** The empty mask has no filled cell, so it is not connected. */
  lemma EmptyIsNotConnected()
    ensures Cells(0) == {}
    ensures !Connected(Cells(0))
  {
    forall k | 0 <= k < 9 ensures k !in Cells(0) {
      ZeroHasNoBits(k);
    }
  }

  /** Every catalog shape decodes to a 3x3 0/1 matrix with exactly three filled cells. */
  lemma CatalogShapeCells(b: nat)
    requires b in ShapeCatalog()
    ensures IsSquare(Decode(b), 3) && IsBinary(Decode(b))
    ensures FilledCount(Decode(b)) == 3
    ensures Connected(Cells(b))
  {
    DecodeIsBinary(b);
    DecodeFilledCount(b);
    CellCount(b);
  }

  /** The state of ShapeGenerator: the catalog computed at construction. */
  class ShapeGenerator {
    var uniqueShapes: set<nat>

    ghost predicate Valid()
      reads this
    {
      uniqueShapes == ShapeCatalog()
    }

    constructor ()
      ensures Valid()
    {
      var shapes := GenerateShapes();
      uniqueShapes := shapes;
    }

    /** get_random_shape with the random choice passed in as the chosen mask. */
    method GetShape(choice: nat) returns (shape2D: Matrix)
      requires Valid() && choice in uniqueShapes
      ensures shape2D == Decode(choice)
      ensures IsSquare(shape2D, 3) && IsBinary(shape2D) && FilledCount(shape2D) == 3
    {
      shape2D := BitmaskTo2D(choice);
      CatalogShapeCells(choice);
    }

    /** get_random_rotated_shape with the chosen mask and the number of turns passed in. */
    method GetRotatedShape(choice: nat, rotationsNum: nat) returns (rotated: Matrix)
      requires Valid() && choice in uniqueShapes
      ensures rotated == ClockwisePower(Decode(choice), rotationsNum)
      ensures IsSquare(rotated, 3) && IsBinary(rotated) && FilledCount(rotated) == 3
    {
      var shape := GetShape(choice);
      rotated := ApplyRotation(shape, rotationsNum);
      ClockwisePowerKeepsFilledCount(shape, rotationsNum);
      ClockwisePowerKeepsBinary(shape, rotationsNum);
    }
  }
}
