/**
 * `collide(arena, player)` of tetris.js. The source treats a cell outside the grid as
 * occupied because `arena[r]` or `arena[r][c]` is `undefined` there and `undefined !== 0`;
 * here that is the explicit bounds test InGrid.
 */
module Collision {
  import opened Matrix

  /** (x, y) is a cell of the grid: row y exists and column x lies within that row. */
  predicate InGrid(arena: Grid, x: int, y: int)
  {
    0 <= y < |arena| && 0 <= x < |arena[y]|
  }

  /** A board cell a piece cell may not take: outside the grid (side walls, floor, above the top) or non-zero. */
  predicate Occupied(arena: Grid, x: int, y: int)
  {
    !InGrid(arena, x, y) || arena[y][x] != 0
  }

  /** (y, x) is a non-zero cell of the piece matrix. */
  predicate Filled(piece: Grid, y: int, x: int)
  {
    0 <= y < |piece| && 0 <= x < |piece[y]| && piece[y][x] != 0
  }

  /** Some non-zero piece cell, placed at offset pos, lands on an occupied board cell. */
  ghost predicate Collides(arena: Grid, piece: Grid, pos: Pos)
  {
    exists y, x :: Filled(piece, y, x) && Occupied(arena, pos.x + x, pos.y + y)
  }

  /** Every non-zero piece cell at offset pos lies inside the grid. */
  ghost predicate Inside(arena: Grid, piece: Grid, pos: Pos)
  {
    forall y, x :: Filled(piece, y, x) ==> InGrid(arena, pos.x + x, pos.y + y)
  }

  /** No non-zero piece cell at offset pos lies on a non-zero grid cell. */
  ghost predicate NoOverlap(arena: Grid, piece: Grid, pos: Pos)
  {
    forall y, x :: Filled(piece, y, x) && InGrid(arena, pos.x + x, pos.y + y) ==> arena[pos.y + y][pos.x + x] == 0
  }

  /** The piece has at least one non-zero cell. */
  ghost predicate HasFilled(piece: Grid)
  {
    exists y, x :: Filled(piece, y, x)
  }

  /** collide: scan the piece row by row and report the first non-zero cell on an occupied board cell. */
  method Collide(arena: Grid, piece: Grid, pos: Pos) returns (hit: bool)
    ensures hit == Collides(arena, piece, pos)
  {
    for y := 0 to |piece|
      invariant forall i, j :: Filled(piece, i, j) && i < y ==> !Occupied(arena, pos.x + j, pos.y + i)
    {
      for x := 0 to |piece[y]|
        invariant forall i, j :: Filled(piece, i, j) && i < y ==> !Occupied(arena, pos.x + j, pos.y + i)
        invariant forall j :: Filled(piece, y, j) && j < x ==> !Occupied(arena, pos.x + j, pos.y + y)
      {
        if piece[y][x] != 0 && Occupied(arena, pos.x + x, pos.y + y) {
          assert Filled(piece, y, x);
          return true;
        }
      }
    }
    return false;
  }

  /** collide is true exactly when a non-zero piece cell is outside the grid or on a non-zero grid cell. */
  lemma CollidesIff(arena: Grid, piece: Grid, pos: Pos)
    ensures Collides(arena, piece, pos) <==> !(Inside(arena, piece, pos) && NoOverlap(arena, piece, pos))
  {
    if !(Inside(arena, piece, pos) && NoOverlap(arena, piece, pos)) {
      var y, x :| Filled(piece, y, x) && (!InGrid(arena, pos.x + x, pos.y + y) || arena[pos.y + y][pos.x + x] != 0);
      assert Occupied(arena, pos.x + x, pos.y + y);
    }
  }

  /**
   * A piece with a non-zero cell that does not collide is above the floor: this bounds the
   * hard-drop loop, which moves the piece down until it collides.
   */
  lemma {:induction false} NotCollidingAboveFloor(arena: Grid, piece: Grid, pos: Pos)
    requires HasFilled(piece) && !Collides(arena, piece, pos)
    ensures pos.y < |arena|
  {
    var y, x :| Filled(piece, y, x);
    assert !Occupied(arena, pos.x + x, pos.y + y);
  }
}
