/** rotate_shape's in-place quarter turn of an n x n matrix: ring by ring from
    the outside in, each orbit of four cells is rotated by one 4-cycle swap. */
module InPlaceRotation {
  import opened Matrices

  function Min(a: int, b: int): int {
    if a <= b then a else b
  }

  /** The ring of the n x n square that cell (p, q) lies on: its distance to the nearest edge. */
  function Layer(n: int, p: int, q: int): int {
    Min(Min(p, q), Min(n - 1 - p, n - 1 - q))
  }

  /** The column j of the top-row cell (Layer, j) whose 4-cycle moves cell (p, q). */
  function RingIndex(n: int, p: int, q: int): int {
    var l := Layer(n, p, q);
    if p == l && q < n - 1 - l then q
    else if q == n - 1 - l && p < n - 1 - l then p
    else if p == n - 1 - l && q > l then n - 1 - q
    else if q == l && p > l then n - 1 - p
    else l
  }

  /** The swap loop, now at step (i, j), has already moved cell (p, q). */
  predicate Swapped(n: int, p: int, q: int, i: int, j: int) {
    Layer(n, p, q) < i || (Layer(n, p, q) == i && RingIndex(n, p, q) < j)
  }

  /** The cells moved by step (i, j) are exactly the four the swap touches. */
  lemma Orbit(n: int, i: int, j: int, p: int, q: int)
    requires 0 <= i && 2 * i + 2 <= n && i <= j < n - 1 - i
    requires 0 <= p < n && 0 <= q < n
    ensures (Layer(n, p, q) == i && RingIndex(n, p, q) == j) <==>
            ((p == i && q == j) || (p == n - 1 - j && q == i) ||
             (p == n - 1 - i && q == n - 1 - j) || (p == j && q == n - 1 - i))
  {
  }

  /** Ring indices of ring l run from l up to, but excluding, n - 1 - l. */
  lemma RingBounds(n: int, p: int, q: int)
    requires 0 <= p < n && 0 <= q < n
    ensures Layer(n, p, q) <= RingIndex(n, p, q)
    ensures 2 * Layer(n, p, q) < n - 1 ==> RingIndex(n, p, q) < n - 1 - Layer(n, p, q)
  {
  }

  /** When ring i is done, the loop stands at the start of ring i + 1. */
  lemma RingDone(n: int, i: int, p: int, q: int)
    requires 0 <= i && 2 * i + 2 <= n && 0 <= p < n && 0 <= q < n
    ensures Swapped(n, p, q, i, n - 1 - i) <==> Swapped(n, p, q, i + 1, i + 1)
  {
    RingBounds(n, p, q);
  }

  /** After the last ring only the centre of an odd-sized square is left alone. */
  lemma AllRingsDone(n: int, p: int, q: int)
    requires 0 <= p < n && 0 <= q < n
    ensures Swapped(n, p, q, n / 2, n / 2) || (p == q && 2 * p == n - 1)
  {
    RingBounds(n, p, q);
  }

  /** The n x n matrix held by the array. */
  function Contents(a: array2<int>): Matrix
    reads a
  {
    seq(a.Length0, i requires 0 <= i < a.Length0 reads a =>
      seq(a.Length1, j requires 0 <= j < a.Length1 reads a => a[i, j]))
  }

  /** [list(row) for row in shape]: a fresh array holding the square matrix m. */
  method FromMatrix(m: Matrix) returns (a: array2<int>)
    requires IsSquare(m, |m|)
    ensures fresh(a) && a.Length0 == |m| && a.Length1 == |m|
    ensures Contents(a) == m
  {
    var n := |m|;
    a := new int[n, n];
    for i := 0 to n
      invariant forall p, q :: 0 <= p < i && 0 <= q < n ==> a[p, q] == m[p][q]
    {
      for j := 0 to n
        invariant forall p, q :: 0 <= p < i && 0 <= q < n ==> a[p, q] == m[p][q]
        invariant forall q :: 0 <= q < j ==> a[i, q] == m[i][q]
      {
        a[i, j] := m[i][j];
      }
    }
    forall p | 0 <= p < n ensures Contents(a)[p] == m[p] {
    }
  }

  /** The cells the swap loop has moved by the time it reaches step (i, j). */
  ghost function Moved(n: int, i: int, j: int): set<(int, int)> {
    set p, q | 0 <= p < n && 0 <= q < n && Swapped(n, p, q, i, j) :: (p, q)
  }

  /** The four cells of the orbit that step (i, j) rotates. */
  function Cycle(n: int, i: int, j: int): set<(int, int)> {
    {(i, j), (n - 1 - j, i), (n - 1 - i, n - 1 - j), (j, n - 1 - i)}
  }

  /** Membership in Moved, spelled out. */
  lemma InMoved(n: int, i: int, j: int, p: int, q: int)
    ensures (p, q) in Moved(n, i, j) <==> 0 <= p < n && 0 <= q < n && Swapped(n, p, q, i, j)
  {
  }

  /** Step (i, j) moves its four cells, none of them moved before. */
  lemma MovedStep(n: int, i: int, j: int)
    requires 0 <= i && 2 * i + 2 <= n && i <= j < n - 1 - i
    ensures Moved(n, i, j + 1) == Moved(n, i, j) + Cycle(n, i, j)
    ensures Moved(n, i, j) !! Cycle(n, i, j)
  {
    var before, after, cycle := Moved(n, i, j), Moved(n, i, j + 1), Cycle(n, i, j);
    forall c | c in cycle ensures c in after && c !in before {
      Orbit(n, i, j, c.0, c.1);
      InMoved(n, i, j, c.0, c.1);
      InMoved(n, i, j + 1, c.0, c.1);
    }
    forall c | c in after ensures c in before || c in cycle {
      InMoved(n, i, j, c.0, c.1);
      InMoved(n, i, j + 1, c.0, c.1);
      Orbit(n, i, j, c.0, c.1);
    }
    forall c | c in before ensures c in after {
      InMoved(n, i, j, c.0, c.1);
      InMoved(n, i, j + 1, c.0, c.1);
    }
  }

  /** The end of ring i is the start of ring i + 1. */
  lemma MovedRing(n: int, i: int)
    requires 0 <= i && 2 * i + 2 <= n
    ensures Moved(n, i, n - 1 - i) == Moved(n, i + 1, i + 1)
  {
    var done, next := Moved(n, i, n - 1 - i), Moved(n, i + 1, i + 1);
    forall c | c in done ensures c in next {
      InMoved(n, i, n - 1 - i, c.0, c.1);
      InMoved(n, i + 1, i + 1, c.0, c.1);
      RingDone(n, i, c.0, c.1);
    }
    forall c | c in next ensures c in done {
      InMoved(n, i, n - 1 - i, c.0, c.1);
      InMoved(n, i + 1, i + 1, c.0, c.1);
      RingDone(n, i, c.0, c.1);
    }
  }

  /** Nothing has moved at the start. */
  lemma MovedStart(n: int)
    ensures Moved(n, 0, 0) == {}
  {
  }

  /** What cell (p, q) holds once the cells in moved have been turned clockwise:
      its rotated value if it has moved, its original value otherwise. */
  function ClockwiseAt(m: Matrix, moved: set<(int, int)>, p: int, q: int): int
    requires IsSquare(m, |m|) && 0 <= p < |m| && 0 <= q < |m|
  {
    if (p, q) in moved then m[|m| - 1 - q][p] else m[p][q]
  }

  /** The same for the counter-clockwise turn. */
  function CounterClockwiseAt(m: Matrix, moved: set<(int, int)>, p: int, q: int): int
    requires IsSquare(m, |m|) && 0 <= p < |m| && 0 <= q < |m|
  {
    if (p, q) in moved then m[q][|m| - 1 - p] else m[p][q]
  }

  /** Every cell of the array holds its rotated value if it has moved, its original value otherwise. */
  ghost predicate ClockwiseProgress(a: array2<int>, m: Matrix, moved: set<(int, int)>)
    requires IsSquare(m, |m|) && a.Length0 == |m| && a.Length1 == |m|
    reads a
  {
    forall p, q :: 0 <= p < |m| && 0 <= q < |m| ==> a[p, q] == ClockwiseAt(m, moved, p, q)
  }

  /** The same for the counter-clockwise loop. */
  ghost predicate CounterClockwiseProgress(a: array2<int>, m: Matrix, moved: set<(int, int)>)
    requires IsSquare(m, |m|) && a.Length0 == |m| && a.Length1 == |m|
    reads a
  {
    forall p, q :: 0 <= p < |m| && 0 <= q < |m| ==> a[p, q] == CounterClockwiseAt(m, moved, p, q)
  }

  /** One 4-cycle of the clockwise branch, at ring i and column j. */
  method ClockwiseCycle(a: array2<int>, ghost m: Matrix, ghost moved: set<(int, int)>, i: int, j: int)
    requires IsSquare(m, |m|) && a.Length0 == |m| && a.Length1 == |m|
    requires 0 <= i && 2 * i + 2 <= |m| && i <= j < |m| - 1 - i
    requires ClockwiseProgress(a, m, moved) && moved !! Cycle(|m|, i, j)
    modifies a
    ensures ClockwiseProgress(a, m, moved + Cycle(|m|, i, j))
  {
    var n := a.Length0;
    assert (i, j) in Cycle(n, i, j) && (n - j - 1, i) in Cycle(n, i, j);
    assert (n - i - 1, n - j - 1) in Cycle(n, i, j) && (j, n - i - 1) in Cycle(n, i, j);
    assert a[i, j] == m[i][j] && a[n - j - 1, i] == m[n - j - 1][i];
    assert a[n - i - 1, n - j - 1] == m[n - i - 1][n - j - 1] && a[j, n - i - 1] == m[j][n - i - 1];
    var temp := a[i, j];
    a[i, j] := a[n - j - 1, i];
    a[n - j - 1, i] := a[n - i - 1, n - j - 1];
    a[n - i - 1, n - j - 1] := a[j, n - i - 1];
    a[j, n - i - 1] := temp;
    forall p, q | 0 <= p < |m| && 0 <= q < |m|
      ensures a[p, q] == ClockwiseAt(m, moved + Cycle(|m|, i, j), p, q)
    {
      if (p, q) in Cycle(n, i, j) {
        assert (p == i && q == j) || (p == n - 1 - j && q == i) || (p == n - 1 - i && q == n - 1 - j) || (p == j && q == n - 1 - i);
      } else {
        assert a[p, q] == old(a[p, q]);
      }
    }
  }

  /** One 4-cycle of the counter-clockwise branch, at ring i and column j. */
  method CounterClockwiseCycle(a: array2<int>, ghost m: Matrix, ghost moved: set<(int, int)>, i: int, j: int)
    requires IsSquare(m, |m|) && a.Length0 == |m| && a.Length1 == |m|
    requires 0 <= i && 2 * i + 2 <= |m| && i <= j < |m| - 1 - i
    requires CounterClockwiseProgress(a, m, moved) && moved !! Cycle(|m|, i, j)
    modifies a
    ensures CounterClockwiseProgress(a, m, moved + Cycle(|m|, i, j))
  {
    var n := a.Length0;
    assert (i, j) in Cycle(n, i, j) && (n - j - 1, i) in Cycle(n, i, j);
    assert (n - i - 1, n - j - 1) in Cycle(n, i, j) && (j, n - i - 1) in Cycle(n, i, j);
    assert a[i, j] == m[i][j] && a[n - j - 1, i] == m[n - j - 1][i];
    assert a[n - i - 1, n - j - 1] == m[n - i - 1][n - j - 1] && a[j, n - i - 1] == m[j][n - i - 1];
    var temp := a[i, j];
    a[i, j] := a[j, n - i - 1];
    a[j, n - i - 1] := a[n - i - 1, n - j - 1];
    a[n - i - 1, n - j - 1] := a[n - j - 1, i];
    a[n - j - 1, i] := temp;
    forall p, q | 0 <= p < |m| && 0 <= q < |m|
      ensures a[p, q] == CounterClockwiseAt(m, moved + Cycle(|m|, i, j), p, q)
    {
      if (p, q) in Cycle(n, i, j) {
        assert (p == i && q == j) || (p == n - 1 - j && q == i) || (p == n - 1 - i && q == n - 1 - j) || (p == j && q == n - 1 - i);
        if p == i && q == j {
          assert a[p, q] == m[j][n - 1 - i];
        } else if p == j && q == n - 1 - i {
          assert a[p, q] == m[n - 1 - i][n - 1 - j];
        } else if p == n - 1 - i && q == n - 1 - j {
          assert a[p, q] == m[n - 1 - j][i];
        } else {
          assert a[p, q] == m[i][j];
        }
      } else {
        assert a[p, q] == old(a[p, q]);
        assert (p, q) in moved + Cycle(|m|, i, j) <==> (p, q) in moved;
      }
    }
  }

  /** The inner loop of the clockwise branch: all 4-cycles of ring i. */
  method ClockwiseRing(a: array2<int>, ghost m: Matrix, i: int)
    requires IsSquare(m, |m|) && a.Length0 == |m| && a.Length1 == |m|
    requires 0 <= i && 2 * i + 2 <= |m|
    requires ClockwiseProgress(a, m, Moved(|m|, i, i))
    modifies a
    ensures ClockwiseProgress(a, m, Moved(|m|, i + 1, i + 1))
  {
    var n := a.Length0;
    for j := i to n - i - 1
      invariant ClockwiseProgress(a, m, Moved(n, i, j))
    {
      MovedStep(n, i, j);
      ClockwiseCycle(a, m, Moved(n, i, j), i, j);
    }
    MovedRing(n, i);
  }

  /** Once every ring is done, the array holds the clockwise turn of m. */
  lemma ClockwiseFinished(a: array2<int>, m: Matrix)
    requires IsSquare(m, |m|) && a.Length0 == |m| && a.Length1 == |m|
    requires ClockwiseProgress(a, m, Moved(|m|, |m| / 2, |m| / 2))
    ensures Contents(a) == Clockwise(m)
  {
    var n := |m|;
    var c := Contents(a);
    forall p, q | 0 <= p < n && 0 <= q < n ensures c[p][q] == Clockwise(m)[p][q] {
      InMoved(n, n / 2, n / 2, p, q);
      AllRingsDone(n, p, q);
    }
    assert forall p :: 0 <= p < n ==> c[p] == Clockwise(m)[p];
  }

  /** The clockwise branch of rotate_shape: a[i][j] becomes the old a[n-1-j][i]. */
  method RotateClockwiseInPlace(a: array2<int>)
    requires a.Length0 == a.Length1
    modifies a
    ensures Contents(a) == Clockwise(old(Contents(a)))
  {
    var n := a.Length0;
    ghost var m := Contents(a);
    MovedStart(n);
    for i := 0 to n / 2
      invariant ClockwiseProgress(a, m, Moved(n, i, i))
    {
      ClockwiseRing(a, m, i);
    }
    ClockwiseFinished(a, m);
  }

  /** The inner loop of the counter-clockwise branch: all 4-cycles of ring i. */
  method CounterClockwiseRing(a: array2<int>, ghost m: Matrix, i: int)
    requires IsSquare(m, |m|) && a.Length0 == |m| && a.Length1 == |m|
    requires 0 <= i && 2 * i + 2 <= |m|
    requires CounterClockwiseProgress(a, m, Moved(|m|, i, i))
    modifies a
    ensures CounterClockwiseProgress(a, m, Moved(|m|, i + 1, i + 1))
  {
    var n := a.Length0;
    for j := i to n - i - 1
      invariant CounterClockwiseProgress(a, m, Moved(n, i, j))
    {
      MovedStep(n, i, j);
      CounterClockwiseCycle(a, m, Moved(n, i, j), i, j);
    }
    MovedRing(n, i);
  }

  /** Once every ring is done, the array holds the counter-clockwise turn of m. */
  lemma CounterClockwiseFinished(a: array2<int>, m: Matrix)
    requires IsSquare(m, |m|) && a.Length0 == |m| && a.Length1 == |m|
    requires CounterClockwiseProgress(a, m, Moved(|m|, |m| / 2, |m| / 2))
    ensures Contents(a) == CounterClockwise(m)
  {
    var n := |m|;
    var c := Contents(a);
    forall p, q | 0 <= p < n && 0 <= q < n ensures c[p][q] == CounterClockwise(m)[p][q] {
      InMoved(n, n / 2, n / 2, p, q);
      AllRingsDone(n, p, q);
    }
    assert forall p :: 0 <= p < n ==> c[p] == CounterClockwise(m)[p];
  }

  /** The counter-clockwise branch of rotate_shape: a[i][j] becomes the old a[j][n-1-i]. */
  method RotateCounterClockwiseInPlace(a: array2<int>)
    requires a.Length0 == a.Length1
    modifies a
    ensures Contents(a) == CounterClockwise(old(Contents(a)))
  {
    var n := a.Length0;
    ghost var m := Contents(a);
    MovedStart(n);
    for i := 0 to n / 2
      invariant CounterClockwiseProgress(a, m, Moved(n, i, i))
    {
      CounterClockwiseRing(a, m, i);
    }
    CounterClockwiseFinished(a, m);
  }
}
