/** Integer matrices: the board (`arena`) and the piece shapes of tetris.js. */
module Matrix {

  /** A matrix stored row by row: `g[y][x]` is the cell in row y, column x (row 0 is the top). */
  type Grid = seq<seq<int>>

  /** A board offset: x is the column, y the row; y grows towards the floor. */
  datatype Pos = Pos(x: int, y: int)

  /** `new Array(w).fill(0)`. */
  function ZeroRow(w: nat): seq<int>
  {
    seq(w, _ => 0)
  }

  /** Every row of `g` has length w. */
  predicate Rectangular(g: Grid, w: nat)
  {
    forall y :: 0 <= y < |g| ==> |g[y]| == w
  }

  /** An n-by-n matrix, n = |g|. */
  predicate IsSquare(g: Grid)
  {
    Rectangular(g, |g|)
  }

  /** Every cell is 0 (empty) or one of the seven colours 1..7. */
  predicate CellsInRange(g: Grid)
  {
    forall y, x :: 0 <= y < |g| && 0 <= x < |g[y]| ==> 0 <= g[y][x] <= 7
  }

  /** Every cell is 0. */
  predicate AllZero(g: Grid)
  {
    forall y, x :: 0 <= y < |g| && 0 <= x < |g[y]| ==> g[y][x] == 0
  }

  /** `arena.forEach((row) => row.fill(0))`, written as a value: every row zeroed, lengths kept. */
  function Cleared(g: Grid): (r: Grid)
    ensures |r| == |g| && AllZero(r)
    ensures forall y :: 0 <= y < |g| ==> |r[y]| == |g[y]|
  {
    seq(|g|, y requires 0 <= y < |g| => ZeroRow(|g[y]|))
  }

  /** The loop of `arena.forEach((row) => row.fill(0))`: each row in turn is zeroed in place of the old one. */
  method ZeroFill(g: Grid) returns (r: Grid)
    ensures r == Cleared(g)
  {
    r := g;
    var y := 0;
    while y < |r|
      invariant 0 <= y <= |r| == |g|
      invariant forall i :: 0 <= i < y ==> r[i] == ZeroRow(|g[i]|)
      invariant forall i :: y <= i < |r| ==> r[i] == g[i]
    {
      r := r[y := ZeroRow(|r[y]|)];
      y := y + 1;
    }
  }

  /**
   * `createMatrix(w, h)`: push h zero-filled rows of width w.
   * A negative h never reaches 0 under `h--`, so the source only terminates for h >= 0.
   */
  method CreateMatrix(w: nat, h: nat) returns (m: Grid)
    ensures |m| == h && Rectangular(m, w) && AllZero(m)
  {
    m := [];
    var left := h;
    while left > 0
      invariant 0 <= left <= h
      invariant |m| == h - left && Rectangular(m, w) && AllZero(m)
    {
      m := m + [ZeroRow(w)];
      left := left - 1;
    }
  }

  /**
   * A matrix object that can be shared and changed in place: a piece matrix (an array of row
   * arrays). Two references to the same Shape see each other's changes.
   */
  class Shape {
    var rows: Grid

    constructor (g: Grid)
      ensures rows == g
    {
      rows := g;
    }
  }

  // ---- counting the non-zero cells ----

  /** 1 for a non-zero (filled) cell value, 0 for an empty one. */
  function Weight(v: int): nat
  {
    if v != 0 then 1 else 0
  }

  /** Number of non-zero cells in a row. */
  function FilledInRow(row: seq<int>): nat
  {
    if row == [] then 0 else Weight(row[0]) + FilledInRow(row[1..])
  }

  /** Number of non-zero cells in a matrix. */
  function Count(g: Grid): nat
  {
    if g == [] then 0 else FilledInRow(g[0]) + Count(g[1..])
  }

  lemma {:induction false} FilledInRowAppend(a: seq<int>, b: seq<int>)
    ensures FilledInRow(a + b) == FilledInRow(a) + FilledInRow(b)
  {
    if a == [] {
      assert a + b == b;
    } else {
      assert (a + b)[1..] == a[1..] + b;
      FilledInRowAppend(a[1..], b);
    }
  }

  lemma {:induction false} CountAppend(a: Grid, b: Grid)
    ensures Count(a + b) == Count(a) + Count(b)
  {
    if a == [] {
      assert a + b == b;
    } else {
      assert (a + b)[1..] == a[1..] + b;
      CountAppend(a[1..], b);
    }
  }
}
