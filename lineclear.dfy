/**
 * The result of `sweep()` in tetris.js as a function on values: the full rows are removed,
 * as many zero rows are put on top, and the score grows by 10, 20, 40, ... per cleared row.
 */
module LineClear {
  import opened Matrix

  /** A row with no zero cell. */
  predicate IsFull(row: seq<int>)
  {
    forall x :: 0 <= x < |row| ==> row[x] != 0
  }

  /** Number of full rows. */
  function FullCount(g: Grid): nat
  {
    if g == [] then 0 else (if IsFull(g[0]) then 1 else 0) + FullCount(g[1..])
  }

  /** The rows that are not full, in their original order. */
  function NonFull(g: Grid): Grid
  {
    if g == [] then [] else (if IsFull(g[0]) then [] else [g[0]]) + NonFull(g[1..])
  }

  /** k zero rows of width w. */
  function ZeroRows(k: nat, w: nat): Grid
  {
    seq(k, _ => ZeroRow(w))
  }

  /** The grid after a sweep: one zero row on top per full row, then the other rows in order. */
  function Swept(g: Grid, w: nat): Grid
  {
    ZeroRows(FullCount(g), w) + NonFull(g)
  }

  function Pow2(k: nat): (p: nat)
    ensures p >= 1
  {
    if k == 0 then 1 else 2 * Pow2(k - 1)
  }

  /** The points of one sweep as the source adds them: rowCount * 10, with rowCount doubling per row. */
  function ComboPoints(k: nat): nat
  {
    if k == 0 then 0 else ComboPoints(k - 1) + 10 * Pow2(k - 1)
  }

  /** Points added by the sweep of g. */
  function SweepScore(g: Grid): nat
  {
    ComboPoints(FullCount(g))
  }

  /** The score of k rows cleared in one sweep is 10 * (2^k - 1). */
  lemma {:induction false} ComboPointsClosedForm(k: nat)
    ensures ComboPoints(k) == 10 * (Pow2(k) - 1)
  {
    if k > 0 {
      ComboPointsClosedForm(k - 1);
    }
  }

  /** One row scores 10, two 30, four 150 (not 40): the multiplier doubles within one sweep. */
  lemma ComboPointsValues()
    ensures ComboPoints(1) == 10 && ComboPoints(2) == 30 && ComboPoints(3) == 70 && ComboPoints(4) == 150
  {
  }

  /** Every row is either removed (full) or kept. */
  lemma {:induction false} NonFullLength(g: Grid)
    ensures |NonFull(g)| + FullCount(g) == |g|
  {
    if g != [] {
      NonFullLength(g[1..]);
    }
  }

  /** The kept rows are rows of g and none of them is full. */
  lemma {:induction false} NonFullRows(g: Grid)
    ensures forall r :: r in NonFull(g) ==> r in g && !IsFull(r)
  {
    if g != [] {
      NonFullRows(g[1..]);
      assert forall r :: r in g[1..] ==> r in g;
    }
  }

  /** Without a full row, nothing is removed. */
  lemma {:induction false} NonFullOfNoFull(g: Grid)
    requires forall y :: 0 <= y < |g| ==> !IsFull(g[y])
    ensures NonFull(g) == g && FullCount(g) == 0
  {
    if g != [] {
      NonFullOfNoFull(g[1..]);
      assert [g[0]] + g[1..] == g;
    }
  }

  /** A sweep keeps the height and the row width, and the kept cells stay in 0..7. */
  lemma SweptShape(g: Grid, w: nat)
    requires Rectangular(g, w) && CellsInRange(g)
    ensures |Swept(g, w)| == |g| && Rectangular(Swept(g, w), w) && CellsInRange(Swept(g, w))
  {
    NonFullLength(g);
    NonFullRows(g);
    var s := Swept(g, w);
    var k := FullCount(g);
    forall y | 0 <= y < |s|
      ensures |s[y]| == w && forall x :: 0 <= x < |s[y]| ==> 0 <= s[y][x] <= 7
    {
      if y >= k {
        assert s[y] == NonFull(g)[y - k];
        assert s[y] in NonFull(g);
      }
    }
  }

  /** After a sweep of a grid at least one cell wide, no row is full. */
  lemma SweptHasNoFullRow(g: Grid, w: nat)
    requires w >= 1
    ensures forall y :: 0 <= y < |Swept(g, w)| ==> !IsFull(Swept(g, w)[y])
  {
    NonFullRows(g);
    var s := Swept(g, w);
    var k := FullCount(g);
    forall y | 0 <= y < |s|
      ensures !IsFull(s[y])
    {
      if y < k {
        assert s[y][0] == 0;
      } else {
        assert s[y] == NonFull(g)[y - k];
        assert s[y] in NonFull(g);
      }
    }
  }

  /** A grid with no full row is left as it is and scores nothing. */
  lemma SweptNoFullRow(g: Grid, w: nat)
    requires forall y :: 0 <= y < |g| ==> !IsFull(g[y])
    ensures Swept(g, w) == g && SweepScore(g) == 0
  {
    NonFullOfNoFull(g);
  }

  /** Sweeping again right after a sweep changes nothing. */
  lemma SweptIdempotent(g: Grid, w: nat)
    requires w >= 1
    ensures Swept(Swept(g, w), w) == Swept(g, w) && SweepScore(Swept(g, w)) == 0
  {
    SweptHasNoFullRow(g, w);
    SweptNoFullRow(Swept(g, w), w);
  }

  /** Sweeping a zero grid (what the game-over reset leaves) changes nothing and scores nothing. */
  lemma SweptAllZero(g: Grid, w: nat)
    requires w >= 1 && Rectangular(g, w) && AllZero(g)
    ensures Swept(g, w) == g && SweepScore(g) == 0
  {
    forall y | 0 <= y < |g|
      ensures !IsFull(g[y])
    {
      assert g[y][0] == 0;
    }
    SweptNoFullRow(g, w);
  }

  /**
   * The rows during the bottom-up scan of sweep: `c` zero rows on top, the rows of g above the
   * scan point `p` as they were, then the kept rows of g from p down.
   */
  function Scanned(g: Grid, w: nat, c: nat, p: nat): Grid
    requires p <= |g|
  {
    ZeroRows(c, w) + g[..p] + NonFull(g[p..])
  }

  /** The row the scan examines at index y: a zero row once the scan is in the top c rows, else g[p - 1]. */
  lemma ScannedRow(g: Grid, w: nat, c: nat, p: nat, y: int)
    requires Rectangular(g, w) && p <= |g| && c == FullCount(g[p..]) && 0 <= y
    requires y + 1 == c + p || (p == 0 && y + 1 <= c)
    ensures var rows := Scanned(g, w, c, p);
      && |rows| == |g| && y < |rows| && |rows[y]| == w
      && (y < c ==> rows[y] == ZeroRow(w))
      && (y >= c ==> 0 < p && rows[y] == g[p - 1])
  {
    NonFullLength(g[p..]);
  }

  /** A full row at the scan point is taken out and a zero row goes on top; the scan stays at the same index. */
  lemma ScannedFull(g: Grid, w: nat, c: nat, p: nat)
    requires 0 < p <= |g| && IsFull(g[p - 1])
    ensures var rows := Scanned(g, w, c, p);
      var y := c + p - 1;
      && y < |rows|
      && [ZeroRow(w)] + rows[..y] + rows[y + 1..] == Scanned(g, w, c + 1, p - 1)
      && FullCount(g[p - 1..]) == FullCount(g[p..]) + 1
  {
    var rows := Scanned(g, w, c, p);
    var y := c + p - 1;
    assert g[p - 1..][1..] == g[p..];
    assert rows[..y] == ZeroRows(c, w) + g[..p - 1];
    assert rows[y + 1..] == NonFull(g[p..]);
    assert [ZeroRow(w)] + ZeroRows(c, w) == ZeroRows(c + 1, w);
  }

  /** A row that is not full stays; the scan point moves one row up. */
  lemma ScannedKeep(g: Grid, w: nat, c: nat, p: nat)
    requires 0 < p <= |g| && !IsFull(g[p - 1])
    ensures Scanned(g, w, c, p) == Scanned(g, w, c, p - 1)
    ensures FullCount(g[p - 1..]) == FullCount(g[p..])
  {
    assert g[p - 1..][1..] == g[p..];
    assert g[..p - 1] + [g[p - 1]] == g[..p];
  }

  /** When the scan has passed the top of g, the rows are the swept grid. */
  lemma ScannedDone(g: Grid, w: nat)
    ensures Scanned(g, w, FullCount(g), 0) == Swept(g, w)
  {
    assert g[0..] == g;
  }

  /**
   * The state of sweep before looking at index y: the rows are Scanned(g, w, c, p), the scan index
   * sits on the row g[p - 1] (or in the zero rows once p is 0), and the score so far is that of
   * the c rows cleared.
   */
  ghost predicate SweepState(g: Grid, w: nat, rows: Grid, y: int, c: nat, p: nat, points: int, rowCount: int)
  {
    && w >= 1 && Rectangular(g, w) && -1 <= y < |g| && p <= |g|
    && c == FullCount(g[p..]) && rows == Scanned(g, w, c, p)
    && (y + 1 == c + p || (p == 0 && y + 1 <= c))
    && rowCount == Pow2(c) && points == ComboPoints(c)
  }

  /** The row at the scan index is in the arena, and the scan of it decides on the row g[p - 1]. */
  lemma ScanAt(g: Grid, w: nat, rows: Grid, y: int, c: nat, p: nat, points: int, rowCount: int)
    requires SweepState(g, w, rows, y, c, p, points, rowCount) && 0 <= y
    ensures y < |rows| && |rows[y]| == w
    ensures y < c ==> !IsFull(rows[y])
    ensures y >= c ==> 0 < p && rows[y] == g[p - 1]
  {
    ScannedRow(g, w, c, p, y);
    if y < c {
      assert rows[y][0] == 0;
    }
  }

  /** Cutting a full row at the scan index and putting a zero row on top clears g[p - 1]. */
  lemma ScanCut(g: Grid, w: nat, rows: Grid, y: int, c: nat, p: nat, points: int, rowCount: int)
    requires SweepState(g, w, rows, y, c, p, points, rowCount) && 0 <= y < |rows| && IsFull(rows[y])
    ensures 0 < p
    ensures SweepState(g, w, [ZeroRow(|rows[y]|)] + rows[..y] + rows[y + 1..], y, c + 1, p - 1,
      points + rowCount * 10, rowCount * 2)
  {
    ScanAt(g, w, rows, y, c, p, points, rowCount);
    ScannedFull(g, w, c, p);
  }

  /** A row that is not full is passed over; below the zero rows it stays where it is. */
  lemma ScanKeep(g: Grid, w: nat, rows: Grid, y: int, c: nat, p: nat, points: int, rowCount: int)
    requires SweepState(g, w, rows, y, c, p, points, rowCount) && 0 <= y < |rows| && !IsFull(rows[y])
    ensures y >= c ==> 0 < p && SweepState(g, w, rows, y - 1, c, p - 1, points, rowCount)
    ensures y < c ==> SweepState(g, w, rows, y - 1, c, p, points, rowCount)
  {
    ScanAt(g, w, rows, y, c, p, points, rowCount);
    if y >= c {
      ScannedKeep(g, w, c, p);
    }
  }

  /** The scan has passed the top row: the rows are the swept grid and the points its score. */
  lemma ScanDone(g: Grid, w: nat, rows: Grid, c: nat, p: nat, points: int, rowCount: int)
    requires SweepState(g, w, rows, -1, c, p, points, rowCount)
    ensures rows == Swept(g, w) && points == SweepScore(g)
  {
    assert g[0..] == g;
    ScannedDone(g, w);
  }

  /** The inner loop of sweep: scan the row left to right and stop at the first zero cell. */
  method RowFull(row: seq<int>) returns (full: bool)
    ensures full == IsFull(row)
  {
    for x := 0 to |row|
      invariant forall j :: 0 <= j < x ==> row[j] != 0
    {
      if row[x] == 0 {
        return false;
      }
    }
    return true;
  }

  /**
   * One pass of the outer loop of sweep at index y: a row with no zero cell is cut out and a zero
   * row is put on top (the splice, fill and unshift), it adds rowCount * 10 points and doubles
   * rowCount, and the same index is looked at again; any other row moves the scan one row up.
   */
  method ScanStep(rows: Grid, y: int, points: int, rowCount: int, ghost g: Grid, ghost w: nat, ghost c: nat, ghost p: nat)
    returns (rows': Grid, y': int, points': int, rowCount': int, ghost c': nat, ghost p': nat)
    requires SweepState(g, w, rows, y, c, p, points, rowCount) && 0 <= y < |rows|
    ensures SweepState(g, w, rows', y', c', p', points', rowCount')
    ensures y' + p' < y + p
    ensures IsFull(rows[y]) ==>
      && y' == y && rows' == [ZeroRow(|rows[y]|)] + rows[..y] + rows[y + 1..]
      && points' == points + rowCount * 10 && rowCount' == rowCount * 2
    ensures !IsFull(rows[y]) ==> y' == y - 1 && rows' == rows && points' == points && rowCount' == rowCount
  {
    ScanAt(g, w, rows, y, c, p, points, rowCount);
    var full := RowFull(rows[y]);
    if full {
      ScanCut(g, w, rows, y, c, p, points, rowCount);
      rows', y', c', p' := [ZeroRow(|rows[y]|)] + rows[..y] + rows[y + 1..], y, c + 1, p - 1;
      points', rowCount' := points + rowCount * 10, rowCount * 2;
    } else {
      ScanKeep(g, w, rows, y, c, p, points, rowCount);
      rows', y', c', p' := rows, y - 1, c, if y >= c then p - 1 else p;
      points', rowCount' := points, rowCount;
    }
  }

  /** The outer loop of sweep on the arena rows, from the floor row up. */
  method SweepRows(g: Grid, w: nat) returns (rows: Grid, points: int)
    requires w >= 1 && Rectangular(g, w)
    ensures rows == Swept(g, w) && points == SweepScore(g)
  {
    rows, points := g, 0;
    var rowCount := 1;
    var y := |rows| - 1;
    ghost var c: nat, p: nat := 0, |rows|;
    assert g[|g|..] == [] && g[..|g|] == g;
    while y >= 0
      invariant SweepState(g, w, rows, y, c, p, points, rowCount)
      decreases y + 1 + p
    {
      ScanAt(g, w, rows, y, c, p, points, rowCount);
      rows, y, points, rowCount, c, p := ScanStep(rows, y, points, rowCount, g, w, c, p);
    }
    ScanDone(g, w, rows, c, p, points, rowCount);
  }

  /** A 3-wide, 4-high grid with a full floor row: the floor goes, the rest shifts down, 10 points. */
  lemma SweptOneRowExample()
    ensures Swept([[0, 0, 0], [0, 2, 0], [2, 2, 0], [2, 2, 2]], 3)
      == [[0, 0, 0], [0, 0, 0], [0, 2, 0], [2, 2, 0]]
    ensures SweepScore([[0, 0, 0], [0, 2, 0], [2, 2, 0], [2, 2, 2]]) == 10
  {
    var g: Grid := [[0, 0, 0], [0, 2, 0], [2, 2, 0], [2, 2, 2]];
    assert !IsFull(g[0]) by { assert g[0][0] == 0; }
    assert !IsFull(g[1]) by { assert g[1][0] == 0; }
    assert !IsFull(g[2]) by { assert g[2][2] == 0; }
    assert IsFull(g[3]);
    assert |g[1..][1..][1..][1..]| == 0;
    assert NonFull(g) == [g[0], g[1], g[2]];
    assert ZeroRow(3) == [0, 0, 0];
    assert ZeroRows(1, 3) == [[0, 0, 0]];
  }

  /** Four full rows in one sweep: all of them go and the sweep scores 150. */
  lemma SweptFourRowsExample()
    ensures Swept([[1, 5], [3, 3], [7, 7], [2, 2]], 2) == [[0, 0], [0, 0], [0, 0], [0, 0]]
    ensures SweepScore([[1, 5], [3, 3], [7, 7], [2, 2]]) == 150
  {
    var g: Grid := [[1, 5], [3, 3], [7, 7], [2, 2]];
    assert IsFull(g[0]) && IsFull(g[1]) && IsFull(g[2]) && IsFull(g[3]);
    assert |g[1..][1..][1..][1..]| == 0;
    assert FullCount(g) == 4;
    assert NonFull(g) == [];
    assert ZeroRow(2) == [0, 0];
    assert ZeroRows(4, 2) == [[0, 0], [0, 0], [0, 0], [0, 0]];
  }
}
