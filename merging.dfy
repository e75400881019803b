/** `merge(arena, player)` of tetris.js, as a function on values, with its properties. */
module Merging {
  import opened Matrix
  import opened Collision

  /**
   * The grid after merging: each board cell covered by a non-zero piece cell takes that cell's
   * value, every other cell keeps its value; the dimensions do not change.
   */
  function Merged(arena: Grid, piece: Grid, pos: Pos): (r: Grid)
    ensures |r| == |arena| && forall y :: 0 <= y < |arena| ==> |r[y]| == |arena[y]|
  {
    MergedRows(arena, piece, pos, |arena|)
  }

  /** Row y of the merged grid: the piece's cell where a non-zero one lands, the arena's elsewhere. */
  function MergedRow(arena: Grid, piece: Grid, pos: Pos, y: nat): (row: seq<int>)
    requires y < |arena|
    ensures |row| == |arena[y]|
  {
    seq(|arena[y]|, x requires 0 <= x < |arena[y]| =>
      if Filled(piece, y - pos.y, x - pos.x) then piece[y - pos.y][x - pos.x] else arena[y][x])
  }

  /** The first k rows of the merged grid, built one row at a time. */
  function MergedRows(arena: Grid, piece: Grid, pos: Pos, k: nat): (r: Grid)
    requires k <= |arena|
    ensures |r| == k && forall y :: 0 <= y < k ==> r[y] == MergedRow(arena, piece, pos, y)
  {
    if k == 0 then [] else MergedRows(arena, piece, pos, k - 1) + [MergedRow(arena, piece, pos, k - 1)]
  }

  /** Some non-zero piece cell sits in a row above the grid (a negative row index). */
  ghost predicate AboveTop(piece: Grid, pos: Pos)
  {
    exists y, x :: Filled(piece, y, x) && pos.y + y < 0
  }

  /** Merging writes every non-zero piece cell that is inside the grid, with its own value. */
  lemma MergedWritesPiece(arena: Grid, piece: Grid, pos: Pos, y: int, x: int)
    requires Filled(piece, y, x) && InGrid(arena, pos.x + x, pos.y + y)
    ensures Merged(arena, piece, pos)[pos.y + y][pos.x + x] == piece[y][x]
  {
    assert (pos.y + y) - pos.y == y && (pos.x + x) - pos.x == x;
  }

  /** Merging twice at the same place gives the same grid as merging once. */
  lemma MergedIdempotent(arena: Grid, piece: Grid, pos: Pos)
    ensures Merged(Merged(arena, piece, pos), piece, pos) == Merged(arena, piece, pos)
  {
    var once := Merged(arena, piece, pos);
    var twice := Merged(once, piece, pos);
    forall y | 0 <= y < |arena|
      ensures twice[y] == once[y]
    {
    }
  }

  /** Once merged inside the grid, the piece collides with its own cells at the same placement. */
  lemma {:induction false} MergedCollides(arena: Grid, piece: Grid, pos: Pos)
    requires HasFilled(piece) && Inside(arena, piece, pos)
    ensures Collides(Merged(arena, piece, pos), piece, pos)
  {
    var y, x :| Filled(piece, y, x);
    var r := Merged(arena, piece, pos);
    MergedWritesPiece(arena, piece, pos, y, x);
    assert Occupied(r, pos.x + x, pos.y + y);
  }

  /** Merging a piece with cells in 0..7 into a grid with cells in 0..7 keeps every cell in 0..7. */
  lemma MergedInRange(arena: Grid, piece: Grid, pos: Pos)
    requires CellsInRange(arena) && CellsInRange(piece)
    ensures CellsInRange(Merged(arena, piece, pos))
  {
    var r := Merged(arena, piece, pos);
    forall y, x | 0 <= y < |r| && 0 <= x < |r[y]|
      ensures 0 <= r[y][x] <= 7
    {
      if Filled(piece, y - pos.y, x - pos.x) {
        assert r[y][x] == piece[y - pos.y][x - pos.x];
      }
    }
  }

  /** Board cells not covered by a non-zero piece cell keep their value. */
  lemma MergedKeepsOthers(arena: Grid, piece: Grid, pos: Pos, y: int, x: int)
    requires InGrid(arena, x, y) && !Filled(piece, y - pos.y, x - pos.x)
    ensures Merged(arena, piece, pos)[y][x] == arena[y][x]
  {
  }

  /** Scan order of merge: row by row, left to right within a row. */
  predicate Before(y: int, x: int, cy: int, cx: int)
  {
    y < cy || (y == cy && x < cx)
  }

  /** The grid once merge has written the non-zero piece cells that come before (cy, cx) in scan order. */
  ghost function MergedUpTo(arena: Grid, piece: Grid, pos: Pos, cy: int, cx: int): (r: Grid)
    ensures |r| == |arena| && forall y :: 0 <= y < |arena| ==> |r[y]| == |arena[y]|
  {
    seq(|arena|, y requires 0 <= y < |arena| =>
      seq(|arena[y]|, x requires 0 <= x < |arena[y]| =>
        if Filled(piece, y - pos.y, x - pos.x) && Before(y - pos.y, x - pos.x, cy, cx)
        then piece[y - pos.y][x - pos.x] else arena[y][x]))
  }

  /** Before any non-zero cell has been written, the grid is the original one. */
  lemma MergedUpToNone(arena: Grid, piece: Grid, pos: Pos, cy: int, cx: int)
    requires forall y, x :: Filled(piece, y, x) ==> !Before(y, x, cy, cx)
    ensures MergedUpTo(arena, piece, pos, cy, cx) == arena
  {
    var r := MergedUpTo(arena, piece, pos, cy, cx);
    forall y | 0 <= y < |arena|
      ensures r[y] == arena[y]
    {
    }
  }

  /** A zero cell of the piece writes nothing. */
  lemma MergedUpToSkip(arena: Grid, piece: Grid, pos: Pos, cy: int, cx: int)
    requires !Filled(piece, cy, cx)
    ensures MergedUpTo(arena, piece, pos, cy, cx + 1) == MergedUpTo(arena, piece, pos, cy, cx)
  {
    var r := MergedUpTo(arena, piece, pos, cy, cx + 1);
    var q := MergedUpTo(arena, piece, pos, cy, cx);
    forall y | 0 <= y < |arena|
      ensures r[y] == q[y]
    {
      forall x | 0 <= x < |arena[y]|
        ensures r[y][x] == q[y][x]
      {
        var i, j := y - pos.y, x - pos.x;
        assert r[y][x] == if Filled(piece, i, j) && Before(i, j, cy, cx + 1) then piece[i][j] else arena[y][x];
        assert q[y][x] == if Filled(piece, i, j) && Before(i, j, cy, cx) then piece[i][j] else arena[y][x];
      }
    }
  }

  /** A non-zero cell inside the grid is written with its own value. */
  lemma MergedUpToWrite(arena: Grid, piece: Grid, pos: Pos, cy: int, cx: int)
    requires Filled(piece, cy, cx) && InGrid(arena, pos.x + cx, pos.y + cy)
    ensures var q := MergedUpTo(arena, piece, pos, cy, cx);
      MergedUpTo(arena, piece, pos, cy, cx + 1) == q[pos.y + cy := q[pos.y + cy][pos.x + cx := piece[cy][cx]]]
  {
    var r := MergedUpTo(arena, piece, pos, cy, cx + 1);
    var q := MergedUpTo(arena, piece, pos, cy, cx);
    var w := q[pos.y + cy := q[pos.y + cy][pos.x + cx := piece[cy][cx]]];
    forall y | 0 <= y < |arena|
      ensures r[y] == w[y]
    {
      forall x | 0 <= x < |arena[y]|
        ensures r[y][x] == w[y][x]
      {
        var i, j := y - pos.y, x - pos.x;
        assert r[y][x] == if Filled(piece, i, j) && Before(i, j, cy, cx + 1) then piece[i][j] else arena[y][x];
        assert q[y][x] == if Filled(piece, i, j) && Before(i, j, cy, cx) then piece[i][j] else arena[y][x];
      }
    }
  }

  /** At the end of a row of n cells the scan goes on at the start of the next row. */
  lemma MergedUpToRow(arena: Grid, piece: Grid, pos: Pos, cy: int, n: int)
    requires forall x :: Filled(piece, cy, x) ==> x < n
    ensures MergedUpTo(arena, piece, pos, cy, n) == MergedUpTo(arena, piece, pos, cy + 1, 0)
  {
    var r := MergedUpTo(arena, piece, pos, cy, n);
    var q := MergedUpTo(arena, piece, pos, cy + 1, 0);
    forall y | 0 <= y < |arena|
      ensures r[y] == q[y]
    {
      forall x | 0 <= x < |arena[y]|
        ensures r[y][x] == q[y][x]
      {
        var i, j := y - pos.y, x - pos.x;
        assert r[y][x] == if Filled(piece, i, j) && Before(i, j, cy, n) then piece[i][j] else arena[y][x];
        assert q[y][x] == if Filled(piece, i, j) && Before(i, j, cy + 1, 0) then piece[i][j] else arena[y][x];
      }
    }
  }

  /** After the last row every non-zero cell has been written. */
  lemma MergedUpToEnd(arena: Grid, piece: Grid, pos: Pos, n: int)
    requires |piece| <= n
    ensures MergedUpTo(arena, piece, pos, n, 0) == Merged(arena, piece, pos)
  {
    var r := MergedUpTo(arena, piece, pos, n, 0);
    var q := Merged(arena, piece, pos);
    forall y | 0 <= y < |arena|
      ensures r[y] == q[y]
    {
      forall x | 0 <= x < |arena[y]|
        ensures r[y][x] == q[y][x]
      {
        var i, j := y - pos.y, x - pos.x;
        assert r[y][x] == if Filled(piece, i, j) && Before(i, j, n, 0) then piece[i][j] else arena[y][x];
      }
    }
  }

  /**
   * The loop of merge on the arena rows: every non-zero cell of m is written at its place from
   * the top row of m down. A cell in a row above the grid has no row to write into and the
   * loop stops there (ok false, `TypeError` in the source); those rows come first, so nothing
   * has been written then.
   */
  method MergeInto(arena: Grid, piece: Grid, pos: Pos) returns (r: Grid, ok: bool)
    requires forall y, x :: Filled(piece, y, x) && 0 <= pos.y + y ==> InGrid(arena, pos.x + x, pos.y + y)
    ensures ok == !AboveTop(piece, pos)
    ensures r == if ok then Merged(arena, piece, pos) else arena
  {
    r := arena;
    MergedUpToNone(arena, piece, pos, 0, 0);
    for y := 0 to |piece|
      invariant r == MergedUpTo(arena, piece, pos, y, 0)
      invariant forall i, j :: Filled(piece, i, j) && i < y ==> 0 <= pos.y + i
    {
      for x := 0 to |piece[y]|
        invariant r == MergedUpTo(arena, piece, pos, y, x)
        invariant forall i, j :: Filled(piece, i, j) && Before(i, j, y, x) ==> 0 <= pos.y + i
      {
        if piece[y][x] != 0 {
          assert Filled(piece, y, x);
          if pos.y + y < 0 {
            MergedUpToNone(arena, piece, pos, y, x);
            return arena, false;
          }
          MergedUpToWrite(arena, piece, pos, y, x);
          r := r[pos.y + y := r[pos.y + y][pos.x + x := piece[y][x]]];
        } else {
          MergedUpToSkip(arena, piece, pos, y, x);
        }
      }
      MergedUpToRow(arena, piece, pos, y, |piece[y]|);
    }
    MergedUpToEnd(arena, piece, pos, |piece|);
    ok := true;
  }
}
