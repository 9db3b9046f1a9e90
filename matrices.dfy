/** Shapes and grids are matrices of cells, stored as sequences of rows.
    This module holds the quarter-turn rotations that both the placement
    engine and the shape generator use, and the count of filled cells. */
module Matrices {

  type Matrix = seq<seq<int>>

  /** m has n rows of n cells each. */
  predicate IsSquare(m: Matrix, n: nat) {
    |m| == n && forall i :: 0 <= i < n ==> |m[i]| == n
  }

  /** Every cell of m is 0 or 1. */
  predicate IsBinary(m: Matrix) {
    forall i, j :: 0 <= i < |m| && 0 <= j < |m[i]| ==> m[i][j] == 0 || m[i][j] == 1
  }

  /** Clockwise quarter turn: row i of the result is column i of m read from the bottom up. */
  function Clockwise(m: Matrix): (r: Matrix)
    requires IsSquare(m, |m|)
    ensures IsSquare(r, |m|)
  {
    var n := |m|;
    seq(n, i requires 0 <= i < n => seq(n, j requires 0 <= j < n => m[n - 1 - j][i]))
  }

  /** Counter-clockwise quarter turn: row i of the result is column n-1-i of m read top down. */
  function CounterClockwise(m: Matrix): (r: Matrix)
    requires IsSquare(m, |m|)
    ensures IsSquare(r, |m|)
  {
    var n := |m|;
    seq(n, i requires 0 <= i < n => seq(n, j requires 0 <= j < n => m[j][n - 1 - i]))
  }

  /** k successive clockwise quarter turns. */
  function ClockwisePower(m: Matrix, k: nat): (r: Matrix)
    requires IsSquare(m, |m|)
    ensures IsSquare(r, |m|)
  {
    if k == 0 then m else Clockwise(ClockwisePower(m, k - 1))
  }

  /** The positions (row, column) of the non-zero cells. */
  ghost function FilledCells(m: Matrix): set<(int, int)> {
    set i, j | 0 <= i < |m| && 0 <= j < |m[i]| && m[i][j] != 0 :: (i, j)
  }

  /** The number of non-zero cells. */
  ghost function FilledCount(m: Matrix): nat {
    |FilledCells(m)|
  }

  /** An injective map does not change the size of a finite set; returns the image. */
  lemma InjectiveImageSize<A, B>(s: set<A>, f: A -> B) returns (image: set<B>)
    requires forall a, b :: a in s && b in s && f(a) == f(b) ==> a == b
    ensures image == set a | a in s :: f(a)
    ensures |image| == |s|
  {
    image := set a | a in s :: f(a);
    if s != {} {
      var a :| a in s;
      var rest := s - {a};
      var restImage := InjectiveImageSize(rest, f);
      assert image == restImage + {f(a)};
    }
  }

  /** The two quarter turns undo each other. */
  lemma QuarterTurnsCancel(m: Matrix)
    requires IsSquare(m, |m|)
    ensures CounterClockwise(Clockwise(m)) == m
    ensures Clockwise(CounterClockwise(m)) == m
  {
    var n := |m|;
    var a := CounterClockwise(Clockwise(m));
    var b := Clockwise(CounterClockwise(m));
    forall i | 0 <= i < n ensures a[i] == m[i] && b[i] == m[i] {
      assert a[i] == m[i];
      assert b[i] == m[i];
    }
  }

  /** Three clockwise quarter turns make one counter-clockwise turn. */
  lemma ThreeClockwise(m: Matrix)
    requires IsSquare(m, |m|)
    ensures Clockwise(Clockwise(Clockwise(m))) == CounterClockwise(m)
  {
    var n := |m|;
    var c1 := Clockwise(m);
    var c2 := Clockwise(c1);
    var c3 := Clockwise(c2);
    var ccw := CounterClockwise(m);
    forall i | 0 <= i < n ensures c3[i] == ccw[i] {
      forall j | 0 <= j < n ensures c3[i][j] == ccw[i][j] {
        calc {
          c3[i][j];
          c2[n - 1 - j][i];
          c1[n - 1 - i][n - 1 - j];
          m[j][n - 1 - i];
        }
      }
    }
  }

  /** Four clockwise quarter turns give back the matrix; three give the counter-clockwise turn. */
  lemma ClockwiseOrderFour(m: Matrix)
    requires IsSquare(m, |m|)
    ensures ClockwisePower(m, 3) == CounterClockwise(m)
    ensures ClockwisePower(m, 4) == m
  {
    assert ClockwisePower(m, 1) == Clockwise(m);
    assert ClockwisePower(m, 2) == Clockwise(ClockwisePower(m, 1));
    ThreeClockwise(m);
    assert ClockwisePower(m, 4) == Clockwise(ClockwisePower(m, 3));
    QuarterTurnsCancel(m);
  }

  /** Only the number of turns modulo four matters. */
  lemma {:induction false} ClockwisePowerModFour(m: Matrix, k: nat)
    requires IsSquare(m, |m|)
    ensures ClockwisePower(m, k) == ClockwisePower(m, k % 4)
  {
    if k >= 4 {
      ClockwisePowerModFour(m, k - 4);
      ClockwisePowerAdd(m, k - 4);
    }
  }

  /** Four more turns change nothing. */
  lemma {:induction false} ClockwisePowerAdd(m: Matrix, k: nat)
    requires IsSquare(m, |m|)
    ensures ClockwisePower(m, k + 4) == ClockwisePower(m, k)
  {
    if k == 0 {
      ClockwiseOrderFour(m);
    } else {
      ClockwisePowerAdd(m, k - 1);
    }
  }

  /** A clockwise turn moves the filled cell (r, c) to (c, n-1-r) and nothing else. */
  lemma ClockwiseFilledCells(m: Matrix)
    requires IsSquare(m, |m|)
    ensures FilledCells(Clockwise(m)) == set p | p in FilledCells(m) :: (p.1, |m| - 1 - p.0)
  {
    var n := |m|;
    var r := Clockwise(m);
    var image := set p | p in FilledCells(m) :: (p.1, n - 1 - p.0);
    forall q | q in FilledCells(r) ensures q in image {
      var p := (n - 1 - q.1, q.0);
      assert p in FilledCells(m);
    }
    forall q | q in image ensures q in FilledCells(r) {
      var p :| p in FilledCells(m) && q == (p.1, n - 1 - p.0);
      assert r[q.0][q.1] == m[p.0][p.1];
    }
  }

  /** A clockwise turn keeps the number of filled cells. */
  lemma ClockwiseKeepsFilledCount(m: Matrix)
    requires IsSquare(m, |m|)
    ensures FilledCount(Clockwise(m)) == FilledCount(m)
  {
    var n := |m|;
    var f := (p: (int, int)) => (p.1, n - 1 - p.0);
    ClockwiseFilledCells(m);
    var image := InjectiveImageSize(FilledCells(m), f);
    assert image == set p | p in FilledCells(m) :: (p.1, n - 1 - p.0);
  }

  /** A counter-clockwise turn keeps the number of filled cells. */
  lemma CounterClockwiseKeepsFilledCount(m: Matrix)
    requires IsSquare(m, |m|)
    ensures FilledCount(CounterClockwise(m)) == FilledCount(m)
  {
    QuarterTurnsCancel(m);
    ClockwiseKeepsFilledCount(CounterClockwise(m));
  }

  /** Any number of clockwise turns keeps the number of filled cells. */
  lemma {:induction false} ClockwisePowerKeepsFilledCount(m: Matrix, k: nat)
    requires IsSquare(m, |m|)
    ensures FilledCount(ClockwisePower(m, k)) == FilledCount(m)
  {
    if k > 0 {
      ClockwisePowerKeepsFilledCount(m, k - 1);
      ClockwiseKeepsFilledCount(ClockwisePower(m, k - 1));
    }
  }

  /** A quarter turn keeps a 0/1 matrix 0/1. */
  lemma {:induction false} ClockwisePowerKeepsBinary(m: Matrix, k: nat)
    requires IsSquare(m, |m|) && IsBinary(m)
    ensures IsBinary(ClockwisePower(m, k))
  {
    if k > 0 {
      ClockwisePowerKeepsBinary(m, k - 1);
    }
  }
}
