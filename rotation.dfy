/**
 * `rotate(matrix, dir)` and the kick sequence of `playerRotate(dir)` in tetris.js.
 * Rotated is the closed form of a quarter turn; Rotate is the source's in-place algorithm
 * (transpose by swaps, then reverse each row or reverse the row order), proved to compute it.
 */
module Rotation {
  import opened Matrix
  import opened Collision

  /**
   * A quarter turn of an n-by-n matrix: clockwise for dir > 0 (new[y][x] = old[n-1-x][y]),
   * counter-clockwise otherwise (new[y][x] = old[x][n-1-y]).
   */
  function Rotated(g: Grid, dir: int): (r: Grid)
    requires IsSquare(g)
    ensures |r| == |g| && IsSquare(r)
  {
    RotatedRows(g, dir, |g|)
  }

  /** Row y of the quarter turn: column y of g read bottom-up (clockwise) or column n-1-y read top-down. */
  function RotatedRow(g: Grid, dir: int, y: nat): (row: seq<int>)
    requires IsSquare(g) && y < |g|
    ensures |row| == |g|
  {
    var n := |g|;
    seq(n, x requires 0 <= x < n => if dir > 0 then g[n - 1 - x][y] else g[x][n - 1 - y])
  }

  /** The first k rows of the quarter turn, built one row at a time. */
  function RotatedRows(g: Grid, dir: int, k: nat): (r: Grid)
    requires IsSquare(g) && k <= |g|
    ensures |r| == k && forall y :: 0 <= y < k ==> r[y] == RotatedRow(g, dir, y)
  {
    if k == 0 then [] else RotatedRows(g, dir, k - 1) + [RotatedRow(g, dir, k - 1)]
  }

  /** Turning back in the opposite direction restores the matrix. */
  lemma RotateInverse(g: Grid, dir: int)
    requires IsSquare(g) && dir != 0
    ensures Rotated(Rotated(g, dir), -dir) == g
  {
    var n := |g|;
    var r := Rotated(g, dir);
    var back := Rotated(r, -dir);
    forall y | 0 <= y < n
      ensures back[y] == g[y]
    {
      forall x | 0 <= x < n
        ensures back[y][x] == g[y][x]
      {
        if dir > 0 {
          assert back[y][x] == r[x][n - 1 - y];
        } else {
          assert back[y][x] == r[n - 1 - x][y];
        }
      }
    }
  }

  /** Four quarter turns in the same direction restore the matrix. */
  lemma RotateFourTimes(g: Grid, dir: int)
    requires IsSquare(g)
    ensures Rotated(Rotated(Rotated(Rotated(g, dir), dir), dir), dir) == g
  {
    var n := |g|;
    var r1 := Rotated(g, dir);
    var r2 := Rotated(r1, dir);
    var r3 := Rotated(r2, dir);
    var r4 := Rotated(r3, dir);
    forall y, x | 0 <= y < n && 0 <= x < n
      ensures r2[y][x] == g[n - 1 - y][n - 1 - x]
    {
      if dir > 0 {
        assert r2[y][x] == r1[n - 1 - x][y];
      } else {
        assert r2[y][x] == r1[x][n - 1 - y];
      }
    }
    forall y, x | 0 <= y < n && 0 <= x < n
      ensures r4[y][x] == r2[n - 1 - y][n - 1 - x]
    {
      if dir > 0 {
        assert r4[y][x] == r3[n - 1 - x][y];
      } else {
        assert r4[y][x] == r3[x][n - 1 - y];
      }
    }
    forall y | 0 <= y < n
      ensures r4[y] == g[y]
    {
    }
  }

  /** A quarter turn moves cells but keeps their values: every cell stays in 0..7. */
  lemma RotatedInRange(g: Grid, dir: int)
    requires IsSquare(g) && CellsInRange(g)
    ensures CellsInRange(Rotated(g, dir))
  {
    var n := |g|;
    var r := Rotated(g, dir);
    forall y, x | 0 <= y < n && 0 <= x < n
      ensures 0 <= r[y][x] <= 7
    {
      if dir > 0 {
        assert r[y][x] == g[n - 1 - x][y];
      } else {
        assert r[y][x] == g[x][n - 1 - y];
      }
    }
  }

  /** The non-zero cell (y, x) reappears at (x, n-1-y) after a clockwise turn and at (n-1-x, y) otherwise. */
  lemma RotatedHasFilled(g: Grid, dir: int)
    requires IsSquare(g) && HasFilled(g)
    ensures HasFilled(Rotated(g, dir))
  {
    var n := |g|;
    var r := Rotated(g, dir);
    var y, x :| Filled(g, y, x);
    if dir > 0 {
      assert r[x][n - 1 - y] == g[y][x];
      assert Filled(r, x, n - 1 - y);
    } else {
      assert r[n - 1 - x][y] == g[y][x];
      assert Filled(r, n - 1 - x, y);
    }
  }

  // ---- the number of non-zero cells is preserved ----

  /** The transpose of a matrix with c columns: column j becomes row j. */
  function Transposed(g: Grid, c: nat): Grid
    requires Rectangular(g, c)
  {
    seq(c, j requires 0 <= j < c => seq(|g|, i requires 0 <= i < |g| => g[i][j]))
  }

  /** A row reversed (`row.reverse()`). */
  function Reversed(s: seq<int>): seq<int>
  {
    seq(|s|, i requires 0 <= i < |s| => s[|s| - 1 - i])
  }

  /** The rows of a matrix in reverse order (`matrix.reverse()`). */
  function RowsReversed(g: Grid): Grid
  {
    seq(|g|, i requires 0 <= i < |g| => g[|g| - 1 - i])
  }

  /** Every row reversed (`matrix.forEach((row) => row.reverse())`). */
  function EachRowReversed(g: Grid): Grid
  {
    seq(|g|, i requires 0 <= i < |g| => Reversed(g[i]))
  }

  /** The matrix h with col[j] put in front of row j. */
  function WithColumn(col: seq<int>, h: Grid): Grid
    requires |col| == |h|
  {
    seq(|h|, j requires 0 <= j < |h| => [col[j]] + h[j])
  }

  lemma {:induction false} ReversedFilledInRow(s: seq<int>)
    ensures FilledInRow(Reversed(s)) == FilledInRow(s)
  {
    if s != [] {
      var n := |s|;
      var front := s[..n - 1];
      assert Reversed(s) == [s[n - 1]] + Reversed(front);
      assert ([s[n - 1]] + Reversed(front))[1..] == Reversed(front);
      ReversedFilledInRow(front);
      assert s == front + [s[n - 1]];
      FilledInRowAppend(front, [s[n - 1]]);
      assert FilledInRow([s[n - 1]]) == Weight(s[n - 1]) by {
        assert [s[n - 1]][1..] == [];
      }
    }
  }

  lemma {:induction false} RowsReversedCount(g: Grid)
    ensures Count(RowsReversed(g)) == Count(g)
  {
    if g != [] {
      var n := |g|;
      var front := g[..n - 1];
      assert RowsReversed(g) == [g[n - 1]] + RowsReversed(front);
      assert ([g[n - 1]] + RowsReversed(front))[1..] == RowsReversed(front);
      RowsReversedCount(front);
      assert g == front + [g[n - 1]];
      CountAppend(front, [g[n - 1]]);
      assert Count([g[n - 1]]) == FilledInRow(g[n - 1]) by {
        assert [g[n - 1]][1..] == [];
      }
    }
  }

  lemma {:induction false} EachRowReversedCount(g: Grid)
    ensures Count(EachRowReversed(g)) == Count(g)
  {
    if g != [] {
      assert EachRowReversed(g)[1..] == EachRowReversed(g[1..]);
      EachRowReversedCount(g[1..]);
      ReversedFilledInRow(g[0]);
    }
  }

  lemma {:induction false} WithColumnCount(col: seq<int>, h: Grid)
    requires |col| == |h|
    ensures Count(WithColumn(col, h)) == FilledInRow(col) + Count(h)
  {
    if h != [] {
      var wc := WithColumn(col, h);
      assert wc[1..] == WithColumn(col[1..], h[1..]);
      WithColumnCount(col[1..], h[1..]);
      assert wc[0][1..] == h[0];
    }
  }

  lemma {:induction false} EmptyRowsCount(h: Grid)
    requires forall j :: 0 <= j < |h| ==> h[j] == []
    ensures Count(h) == 0
  {
    if h != [] {
      EmptyRowsCount(h[1..]);
    }
  }

  lemma {:induction false} TransposedCount(g: Grid, c: nat)
    requires Rectangular(g, c)
    ensures Count(Transposed(g, c)) == Count(g)
  {
    if g == [] {
      EmptyRowsCount(Transposed(g, c));
    } else {
      var rest := g[1..];
      var t, tr := Transposed(g, c), Transposed(rest, c);
      forall j | 0 <= j < c
        ensures t[j] == WithColumn(g[0], tr)[j]
      {
        assert t[j] == [g[0][j]] + tr[j];
      }
      assert t == WithColumn(g[0], tr);
      WithColumnCount(g[0], Transposed(rest, c));
      TransposedCount(rest, c);
    }
  }

  /** A clockwise quarter turn is the transpose with every row reversed. */
  lemma ClockwiseIsTransposeThenReverseRows(g: Grid, dir: int)
    requires IsSquare(g) && dir > 0
    ensures Rotated(g, dir) == EachRowReversed(Transposed(g, |g|))
  {
    var n := |g|;
    var r, t := Rotated(g, dir), Transposed(g, n);
    var e := EachRowReversed(t);
    forall y | 0 <= y < n
      ensures r[y] == e[y]
    {
      forall x | 0 <= x < n
        ensures r[y][x] == e[y][x]
      {
        assert e[y][x] == t[y][n - 1 - x];
      }
    }
  }

  /** A counter-clockwise quarter turn is the transpose with the row order reversed. */
  lemma CounterClockwiseIsTransposeThenReverseOrder(g: Grid, dir: int)
    requires IsSquare(g) && dir <= 0
    ensures Rotated(g, dir) == RowsReversed(Transposed(g, |g|))
  {
    var n := |g|;
    var r, t := Rotated(g, dir), Transposed(g, n);
    var e := RowsReversed(t);
    forall y | 0 <= y < n
      ensures r[y] == e[y]
    {
      forall x | 0 <= x < n
        ensures r[y][x] == e[y][x]
      {
        assert e[y][x] == t[n - 1 - y][x];
      }
    }
  }

  /** A quarter turn keeps the number of non-zero cells (a tetromino keeps its four cells). */
  lemma RotatedCount(g: Grid, dir: int)
    requires IsSquare(g)
    ensures Count(Rotated(g, dir)) == Count(g)
  {
    var t := Transposed(g, |g|);
    TransposedCount(g, |g|);
    if dir > 0 {
      ClockwiseIsTransposeThenReverseRows(g, dir);
      EachRowReversedCount(t);
    } else {
      CounterClockwiseIsTransposeThenReverseOrder(g, dir);
      RowsReversedCount(t);
    }
  }

  // ---- the in-place algorithm ----

  /** The cells (i, j) the swap loop has exchanged once it is at row y, column x. */
  predicate SwapDone(i: int, j: int, y: int, x: int)
  {
    (i < y && j < y) || (i == y && j < x) || (j == y && i < x)
  }

  /** Rows of the swap loop at row y, column x: the exchanged cells hold g transposed, the others g as it was. */
  ghost predicate SwappedUpTo(rows: Grid, g: Grid, y: int, x: int)
  {
    var n := |g|;
    && IsSquare(g) && |rows| == n && IsSquare(rows)
    && (forall i, j :: 0 <= i < n && 0 <= j < n && SwapDone(i, j, y, x) ==> rows[i][j] == g[j][i])
    && (forall i, j :: 0 <= i < n && 0 <= j < n && !SwapDone(i, j, y, x) ==> rows[i][j] == g[i][j])
  }

  /** Once every row is done, the rows are the transpose. */
  lemma SwappedAll(rows: Grid, g: Grid)
    requires IsSquare(g) && SwappedUpTo(rows, g, |g|, 0)
    ensures rows == Transposed(g, |g|)
  {
    var t := Transposed(g, |g|);
    forall y | 0 <= y < |g|
      ensures rows[y] == t[y]
    {
    }
  }

  /** The swap loop of rotate: exchange [x][y] and [y][x] for every x < y. */
  method Transpose(m: Shape)
    requires IsSquare(m.rows)
    modifies m
    ensures m.rows == Transposed(old(m.rows), |old(m.rows)|)
  {
    ghost var g := m.rows;
    var n := |m.rows|;
    for y := 0 to n
      invariant SwappedUpTo(m.rows, g, y, 0)
    {
      SwapRow(m, y, g);
    }
    SwappedAll(m.rows, g);
  }

  /** One pass of the inner swap loop: row y and column y exchanged left of the diagonal. */
  method SwapRow(m: Shape, y: nat, ghost g: Grid)
    requires y < |g| && SwappedUpTo(m.rows, g, y, 0)
    modifies m
    ensures SwappedUpTo(m.rows, g, y + 1, 0)
  {
    for x := 0 to y
      invariant SwappedUpTo(m.rows, g, y, x)
    {
      ghost var before := m.rows;
      var a, b := m.rows[y][x], m.rows[x][y];
      m.rows := m.rows[x := m.rows[x][y := a]];
      m.rows := m.rows[y := m.rows[y][x := b]];
      SwapStep(before, m.rows, g, y, x);
    }
    SwapRowDone(m.rows, g, y);
  }

  /** Exchanging [x][y] and [y][x] moves the swap loop one column on. */
  lemma SwapStep(before: Grid, after: Grid, g: Grid, y: nat, x: nat)
    requires x < y < |g| && SwappedUpTo(before, g, y, x)
    requires after == before[x := before[x][y := before[y][x]]][y := before[y][x := before[x][y]]]
    ensures SwappedUpTo(after, g, y, x + 1)
  {
    var n := |g|;
    forall i | 0 <= i < n
      ensures after[i] == if i == x then before[x][y := before[y][x]] else if i == y then before[y][x := before[x][y]] else before[i]
    {
    }
  }

  /** At the diagonal the row is done: the diagonal cell needs no exchange. */
  lemma SwapRowDone(rows: Grid, g: Grid, y: nat)
    requires y < |g| && SwappedUpTo(rows, g, y, y)
    ensures SwappedUpTo(rows, g, y + 1, 0)
  {
  }

  /** `matrix.forEach((row) => row.reverse())`: each row object reversed in turn. */
  method ReverseEachRow(m: Shape)
    modifies m
    ensures m.rows == EachRowReversed(old(m.rows))
  {
    ghost var g := m.rows;
    for y := 0 to |m.rows|
      invariant |m.rows| == |g|
      invariant forall i :: 0 <= i < |g| ==> m.rows[i] == if i < y then Reversed(g[i]) else g[i]
    {
      m.rows := m.rows[y := Reversed(m.rows[y])];
    }
  }

  /** rotate(matrix, dir): the matrix object is turned a quarter in place. */
  method Rotate(m: Shape, dir: int)
    requires IsSquare(m.rows)
    modifies m
    ensures m.rows == Rotated(old(m.rows), dir)
  {
    ghost var g := m.rows;
    Transpose(m);
    if dir > 0 {
      ReverseEachRow(m);
      ClockwiseIsTransposeThenReverseRows(g, dir);
    } else {
      m.rows := RowsReversed(m.rows);
      CounterClockwiseIsTransposeThenReverseOrder(g, dir);
    }
  }

  // ---- the kick sequence of playerRotate ----

  /** The value of `offset` after i shifts: it starts at 1 and each shift negates it and grows it by one. */
  function KickOffset(i: nat): int
  {
    if i == 0 then 1 else
      var prev := KickOffset(i - 1);
      -(prev + (if prev > 0 then 1 else -1))
  }

  /** Where the piece stands after i shifts, relative to where it started: the sum of the offsets shifted by. */
  function KickDelta(i: nat): int
  {
    if i == 0 then 0 else KickDelta(i - 1) + KickOffset(i - 1)
  }

  /** The offsets run 1, -2, 3, -4, ... and the placements 0, 1, -1, 2, -2, ... */
  lemma {:induction false} KickClosedForm(i: nat)
    ensures KickOffset(i) == if i % 2 == 0 then i + 1 else -(i + 1)
    ensures KickDelta(i) == if i % 2 == 1 then (i + 1) / 2 else -(i / 2)
  {
    if i > 0 {
      KickClosedForm(i - 1);
    }
  }

  /**
   * How many placements playerRotate tests for a matrix of width n. After the i-th shift the
   * source aborts, without testing the new position, once the signed offset exceeds the width.
   */
  function NumKicks(n: nat): nat
  {
    if n <= 2 then 2 else if n % 2 == 0 then n else n + 1
  }

  /** The abort test of playerRotate's loop fires exactly after the last placement. */
  lemma KickStep(i: nat, n: nat)
    requires i < NumKicks(n)
    ensures KickOffset(i + 1) > n <==> i + 1 == NumKicks(n)
  {
    KickClosedForm(i + 1);
  }

  /** The placements tried: the start and one to the right for width 2; then one to the left and two to the right for widths 3 and 4. */
  lemma KicksTried()
    ensures NumKicks(2) == 2 && KickDelta(0) == 0 && KickDelta(1) == 1
    ensures NumKicks(3) == 4 && NumKicks(4) == 4 && KickDelta(2) == -1 && KickDelta(3) == 2
  {
  }

  /** The placement after i kicks from start collides. */
  ghost predicate KickCollides(arena: Grid, piece: Grid, start: Pos, i: nat)
  {
    Collides(arena, piece, Pos(start.x + KickDelta(i), start.y))
  }

  /** The first kick index at or after i whose placement does not collide, or NumKicks(n) if none does. */
  ghost function FirstFit(arena: Grid, piece: Grid, start: Pos, n: nat, i: nat): nat
    decreases NumKicks(n) - i
  {
    if i >= NumKicks(n) then NumKicks(n)
    else if !KickCollides(arena, piece, start, i) then i
    else FirstFit(arena, piece, start, n, i + 1)
  }

  /** FirstFit finds the first non-colliding kick: every kick before it collides. */
  lemma {:induction false} FirstFitIsFirst(arena: Grid, piece: Grid, start: Pos, n: nat, i: nat)
    requires i <= NumKicks(n)
    ensures var k := FirstFit(arena, piece, start, n, i);
      && i <= k <= NumKicks(n)
      && (k < NumKicks(n) ==> !KickCollides(arena, piece, start, k))
      && forall j :: i <= j < k ==> KickCollides(arena, piece, start, j)
    decreases NumKicks(n) - i
  {
    if i < NumKicks(n) && KickCollides(arena, piece, start, i) {
      FirstFitIsFirst(arena, piece, start, n, i + 1);
    }
  }

  /**
   * Conversely, a kick index k such that every earlier kick collides and k itself does not (or k
   * is past the last kick) is what FirstFit finds, from any start index up to k.
   */
  lemma {:induction false} FirstFitOf(arena: Grid, piece: Grid, start: Pos, n: nat, i: nat, k: nat)
    requires i <= k <= NumKicks(n)
    requires forall j :: 0 <= j < k ==> KickCollides(arena, piece, start, j)
    requires k < NumKicks(n) ==> !KickCollides(arena, piece, start, k)
    ensures FirstFit(arena, piece, start, n, i) == k
    decreases k - i
  {
    if i < k {
      FirstFitOf(arena, piece, start, n, i + 1, k);
    }
  }

  /**
   * The kick loop of playerRotate on values: starting from start, test the placement, and while
   * it collides shift x by the offset 1, -2, 3, -4, ...; give up once the offset exceeds the
   * width n. fit tells whether a free placement was found and x is its column.
   */
  method KickSearch(arena: Grid, piece: Grid, start: Pos, n: nat) returns (fit: bool, x: int)
    ensures var k := FirstFit(arena, piece, start, n, 0);
      fit == (k < NumKicks(n)) && (fit ==> x == start.x + KickDelta(k))
    ensures fit ==> !Collides(arena, piece, Pos(x, start.y))
  {
    x := start.x;
    var offset := 1;
    ghost var i: nat := 0;
    var hit := Collide(arena, piece, Pos(x, start.y));
    while hit
      invariant i < NumKicks(n) && offset == KickOffset(i) && x == start.x + KickDelta(i)
      invariant hit == KickCollides(arena, piece, start, i)
      invariant forall j :: 0 <= j < i ==> KickCollides(arena, piece, start, j)
      decreases NumKicks(n) - i
    {
      KickStep(i, n);
      x := x + offset;
      offset := -(offset + (if offset > 0 then 1 else -1));
      i := i + 1;
      if offset > n {
        FirstFitOf(arena, piece, start, n, 0, i);
        return false, start.x;
      }
      hit := Collide(arena, piece, Pos(x, start.y));
    }
    FirstFitOf(arena, piece, start, n, 0, i);
    fit := true;
  }
}
