/**
 * The game state of tetris.js: the arena, the player (`pos`, `matrix`, `score`), `dropCounter`
 * and the `tetrominoes` table, with the commands that change them.
 *
 * The player's matrix is not a copy: it is the table's own matrix for its kind (createPiece
 * returns `tetrominoes[type]`), and rotate turns that matrix in place, so a kind keeps the
 * orientation it was last turned to and its next spawn starts in it.
 */
module Game {
  import opened Matrix
  import opened Collision
  import opened Merging
  import opened Rotation
  import opened LineClear
  import opened Catalog

  /** Width and height of the arena: `createMatrix(12, 20)`. */
  const W: nat := 12
  const H: nat := 20

  /** `dropInterval`: the automatic drop fires once dropCounter exceeds it. */
  const DropInterval: int := 1000

  /** Where playerReset puts a piece whose matrix is n wide: `(12 / 2 | 0) - (n / 2 | 0)`, row 0. */
  function SpawnPos(n: nat): Pos
  {
    Pos(W / 2 - n / 2, 0)
  }

  /** The part of the state the commands compute: the arena, the player's position and the score. */
  datatype Board = Board(arena: Grid, pos: Pos, score: int)

  /** Every non-zero piece cell is within the side walls and above the floor (it may stick out above the top). */
  ghost predicate Placed(piece: Grid, pos: Pos)
  {
    forall y, x :: Filled(piece, y, x) ==> 0 <= pos.x + x < W && pos.y + y < H
  }

  /** A piece matrix of kind k: a square of the kind's size, cells in 0..7, at least one non-zero cell. */
  ghost predicate ShapeOk(g: Grid, k: Kind)
  {
    |g| == Size(k) && IsSquare(g) && CellsInRange(g) && HasFilled(g)
  }

  /** The arena: H rows of W cells, each cell 0 or a colour. */
  ghost predicate ArenaOk(arena: Grid)
  {
    |arena| == H && Rectangular(arena, W) && CellsInRange(arena)
  }

  /** Every kind's initial shape is a piece matrix of that kind. */
  lemma InitialShapeOk(k: Kind)
    ensures ShapeOk(InitialShape(k), k)
  {
    ShapeSize(k);
    ShapeColor(k);
  }

  /** A quarter turn keeps a piece matrix a piece matrix of the same kind. */
  lemma RotatedShapeOk(g: Grid, k: Kind, dir: int)
    requires ShapeOk(g, k)
    ensures ShapeOk(Rotated(g, dir), k)
  {
    RotatedInRange(g, dir);
    RotatedHasFilled(g, dir);
    RotatedCount(g, dir);
  }

  /** The non-zero cells of a Placed piece that are not above the top row are cells of the arena. */
  lemma PlacedIsMergeable(arena: Grid, piece: Grid, pos: Pos)
    requires ArenaOk(arena) && Placed(piece, pos)
    ensures forall y, x :: Filled(piece, y, x) && 0 <= pos.y + y ==> InGrid(arena, pos.x + x, pos.y + y)
  {
  }

  /**
   * The landing sequence of playerDrop and of the hard drop: merge the piece at `at`, spawn
   * `next` (playerReset) and, if the spawned piece collides with the unswept grid, zero every
   * cell and the score; only then sweep and add the sweep's points.
   */
  ghost function Land(arena: Grid, piece: Grid, at: Pos, score: int, next: Grid): Board
    requires |next| > 0
  {
    Settle(Merged(arena, piece, at), score, next)
  }

  /** The part of the landing sequence after merge: spawn `next` (playerReset), then sweep. */
  ghost function Settle(merged: Grid, score: int, next: Grid): Board
    requires |next| > 0
  {
    SweptBoard(Spawned(merged, score, next))
  }

  /**
   * playerReset on a board: the piece `next` goes to the spawn position; if it collides there,
   * every cell and the score become 0.
   */
  ghost function Spawned(arena: Grid, score: int, next: Grid): Board
    requires |next| > 0
  {
    var spawn := SpawnPos(|next[0]|);
    if Collides(arena, next, spawn) then Board(Cleared(arena), spawn, 0) else Board(arena, spawn, score)
  }

  /** sweep on a board: the arena swept, its points added to the score. */
  ghost function SweptBoard(b: Board): Board
  {
    b.(arena := Swept(b.arena, W), score := b.score + SweepScore(b.arena))
  }

  /** The step down of playerDrop collides: the piece lands (or merge throws). */
  ghost predicate DropBlocked(b: Board, piece: Grid)
  {
    Collides(b.arena, piece, Pos(b.pos.x, b.pos.y + 1))
  }

  /**
   * playerDrop: one row down if that does not collide; otherwise land where the piece is. When
   * the piece has a cell above the top row, `merge` indexes a missing row and throws a TypeError,
   * and the board stays as it was.
   */
  ghost function Dropped(b: Board, piece: Grid, next: Grid): Board
    requires |next| > 0
  {
    if !DropBlocked(b, piece) then b.(pos := Pos(b.pos.x, b.pos.y + 1))
    else if AboveTop(piece, b.pos) then b
    else Land(b.arena, piece, b.pos, b.score, next)
  }

  /** The row the hard-drop loop stops at, minus one: the deepest non-colliding row reached from p, or p.y - 1 if p collides. */
  ghost function RestingY(arena: Grid, piece: Grid, p: Pos): int
    requires HasFilled(piece)
    decreases |arena| - p.y
  {
    if Collides(arena, piece, p) then p.y - 1
    else
      NotCollidingAboveFloor(arena, piece, p);
      RestingY(arena, piece, Pos(p.x, p.y + 1))
  }

  /** The hard drop: move down while the placement does not collide, step back one row and land there. */
  ghost function HardDropped(b: Board, piece: Grid, next: Grid): Board
    requires HasFilled(piece) && |next| > 0
  {
    var rest := Pos(b.pos.x, RestingY(b.arena, piece, b.pos));
    if AboveTop(piece, rest) then b.(pos := rest)
    else Land(b.arena, piece, rest, b.score, next)
  }

  /**
   * RestingY is the deepest row the piece can reach by moving down from a non-colliding start:
   * every row from the start down to it is free and the row below it collides. From a colliding
   * start it is the row above the start.
   */
  lemma {:induction false} RestingYIsDeepest(arena: Grid, piece: Grid, p: Pos)
    requires HasFilled(piece)
    ensures var r := RestingY(arena, piece, p);
      && (Collides(arena, piece, p) ==> r == p.y - 1)
      && (!Collides(arena, piece, p) ==> p.y <= r && !Collides(arena, piece, Pos(p.x, r)))
      && Collides(arena, piece, Pos(p.x, r + 1))
      && forall y :: p.y <= y <= r ==> !Collides(arena, piece, Pos(p.x, y))
    decreases |arena| - p.y
  {
    if !Collides(arena, piece, p) {
      NotCollidingAboveFloor(arena, piece, p);
      RestingYIsDeepest(arena, piece, Pos(p.x, p.y + 1));
    }
  }

  /**
   * From a non-colliding placement a hard drop is the same as repeated playerDrops: while the
   * step down is free, the hard drop from the lower row gives the same board; when it is blocked,
   * the hard drop lands exactly where playerDrop lands.
   */
  lemma HardDropIsRepeatedDrop(b: Board, piece: Grid, next: Grid)
    requires HasFilled(piece) && |next| > 0 && !Collides(b.arena, piece, b.pos)
    ensures DropBlocked(b, piece) ==> HardDropped(b, piece, next) == Dropped(b, piece, next)
    ensures !DropBlocked(b, piece) ==> HardDropped(b, piece, next) == HardDropped(Dropped(b, piece, next), piece, next)
  {
    if DropBlocked(b, piece) {
      assert RestingY(b.arena, piece, Pos(b.pos.x, b.pos.y + 1)) == b.pos.y;
      assert Pos(b.pos.x, RestingY(b.arena, piece, b.pos)) == b.pos;
      CollidesIff(b.arena, piece, b.pos);
    }
  }

  /**
   * The loop of the hard drop on values: `while (!collide(arena, player)) player.pos.y++;` and
   * then one row back up. The result is RestingY.
   */
  method RestingRow(arena: Grid, piece: Grid, start: Pos) returns (y: int)
    requires HasFilled(piece)
    ensures y == RestingY(arena, piece, start)
  {
    var p := start;
    var hit := Collide(arena, piece, p);
    while !hit
      invariant p.x == start.x
      invariant hit == Collides(arena, piece, p)
      invariant RestingY(arena, piece, p) == RestingY(arena, piece, start)
      decreases |arena| - p.y
    {
      NotCollidingAboveFloor(arena, piece, p);
      p := p.(y := p.y + 1);
      hit := Collide(arena, piece, p);
    }
    y := p.y - 1;
  }

  /** A drop that neither fails nor lands moves the piece exactly one row down and changes nothing else. */
  lemma DropMovesDown(b: Board, piece: Grid, next: Grid)
    requires |next| > 0 && !DropBlocked(b, piece)
    ensures Dropped(b, piece, next) == Board(b.arena, Pos(b.pos.x, b.pos.y + 1), b.score)
  {
  }

  /**
   * When the newly spawned piece collides with the merged grid, the game restarts silently:
   * after the sweep every cell is zero and the score is zero; the piece stays at the spawn position.
   */
  lemma LandGameOver(arena: Grid, piece: Grid, at: Pos, score: int, next: Grid)
    requires |next| > 0 && Rectangular(arena, W)
    requires Collides(Merged(arena, piece, at), next, SpawnPos(|next[0]|))
    ensures var b := Land(arena, piece, at, score, next);
      b.score == 0 && AllZero(b.arena) && |b.arena| == |arena| && b.pos == SpawnPos(|next[0]|)
  {
    var kept := Cleared(Merged(arena, piece, at));
    assert Rectangular(kept, W);
    SweptAllZero(kept, W);
  }

  /**
   * Without a game over the landed grid is the merged grid swept, the score grows by exactly
   * 10 * (2^k - 1) for the k full rows of the merged grid, and no row is left full.
   */
  lemma LandScores(arena: Grid, piece: Grid, at: Pos, score: int, next: Grid)
    requires |next| > 0
    requires !Collides(Merged(arena, piece, at), next, SpawnPos(|next[0]|))
    ensures var b := Land(arena, piece, at, score, next);
      var merged := Merged(arena, piece, at);
      && b.arena == Swept(merged, W)
      && b.score == score + 10 * (Pow2(FullCount(merged)) - 1)
      && forall y :: 0 <= y < |b.arena| ==> !IsFull(b.arena[y])
  {
    ComboPointsClosedForm(FullCount(Merged(arena, piece, at)));
    SweptHasNoFullRow(Merged(arena, piece, at), W);
  }

  /** A landing keeps the arena W wide and H high with cells in 0..7, and the score non-negative. */
  lemma LandKeepsBoard(arena: Grid, piece: Grid, at: Pos, score: int, next: Grid)
    requires |next| > 0 && ArenaOk(arena) && CellsInRange(piece) && score >= 0
    ensures var b := Land(arena, piece, at, score, next);
      ArenaOk(b.arena) && b.score >= 0
  {
    var merged := Merged(arena, piece, at);
    MergedInRange(arena, piece, at);
    assert Rectangular(merged, W);
    var kept := if Collides(merged, next, SpawnPos(|next[0]|)) then Cleared(merged) else merged;
    assert Rectangular(kept, W) && CellsInRange(kept);
    SweptShape(kept, W);
  }

  /** A placement that does not collide is Placed. */
  lemma NotCollidingIsPlaced(arena: Grid, piece: Grid, pos: Pos)
    requires ArenaOk(arena) && !Collides(arena, piece, pos)
    ensures Placed(piece, pos)
  {
    forall y, x | Filled(piece, y, x)
      ensures 0 <= pos.x + x < W && pos.y + y < H
    {
      assert !Occupied(arena, pos.x + x, pos.y + y);
    }
  }

  /** A square piece matrix of side n whose n-by-n box at pos lies in the arena is Placed. */
  lemma SquareInside(piece: Grid, n: nat, pos: Pos)
    requires |piece| == n && Rectangular(piece, n)
    requires 0 <= pos.x && pos.x + n <= W && pos.y + n <= H
    ensures Placed(piece, pos)
  {
  }

  /** A piece matrix of side n <= 4 spawned at SpawnPos(n) lies inside the 12 x 20 arena. */
  lemma SpawnInside(piece: Grid, n: nat)
    requires |piece| == n && Rectangular(piece, n) && n <= 4
    ensures Placed(piece, SpawnPos(n))
    ensures forall y, x :: Filled(piece, y, x) ==> 0 <= SpawnPos(n).x + x < W && 0 <= SpawnPos(n).y + y < H
  {
  }

  /** So a newly spawned piece never collides with a zeroed arena: after the game-over reset it fits. */
  lemma SpawnFitsEmpty(arena: Grid, piece: Grid, n: nat)
    requires |piece| == n && Rectangular(piece, n) && n <= 4
    requires ArenaOk(arena) && AllZero(arena)
    ensures !Collides(arena, piece, SpawnPos(n))
  {
    SpawnInside(piece, n);
    var p := SpawnPos(n);
    forall y, x | Filled(piece, y, x)
      ensures !Occupied(arena, p.x + x, p.y + y)
    {
    }
  }

  /** The `tetrominoes` table as the program builds it: a new matrix object per kind, holding its initial shape. */
  method NewTable() returns (table: map<Kind, Shape>)
    ensures forall k: Kind :: k in table && fresh(table[k]) && table[k].rows == InitialShape(k)
    ensures forall k1: Kind, k2: Kind :: k1 != k2 ==> table[k1] != table[k2]
  {
    var t := new Shape(InitialShape(T));
    var o := new Shape(InitialShape(O));
    var l := new Shape(InitialShape(L));
    var j := new Shape(InitialShape(J));
    var i := new Shape(InitialShape(I));
    var s := new Shape(InitialShape(S));
    var z := new Shape(InitialShape(Z));
    table := map[T := t, O := o, L := l, J := j, I := i, S := s, Z := z];
    forall k: Kind
      ensures k in table && table[k].rows == InitialShape(k)
    {
      match k
      case T => assert table[k] == t;
      case O => assert table[k] == o;
      case L => assert table[k] == l;
      case J => assert table[k] == j;
      case I => assert table[k] == i;
      case S => assert table[k] == s;
      case Z => assert table[k] == z;
    }
  }

  class Game {
    /** The board: H rows of W cells, row 0 at the top. */
    var arena: Grid
    /** `player.pos`: the board offset of the piece matrix's top-left cell. */
    var pos: Pos
    /** `player.matrix`: a reference to one of the table's matrices, never a copy. */
    var matrix: Shape
    /** `player.score`. */
    var score: int
    /** Time since the last drop, in the driver's time units. */
    var dropCounter: int
    /** The `tetrominoes` table: one matrix object per kind. */
    const tetrominoes: map<Kind, Shape>
    /** The kind whose table entry the player's matrix is. */
    ghost var kind: Kind
    /** The table's matrix objects. */
    ghost const shapes: set<Shape>

    /** Every kind has a matrix object of its own: the table is built from seven separate literals. */
    ghost predicate Distinct()
    {
      forall k1: Kind, k2: Kind | k1 in tetrominoes && k2 in tetrominoes :: k1 != k2 ==> tetrominoes[k1] != tetrominoes[k2]
    }

    /** Every kind has an entry, and each entry is a piece matrix of its kind. */
    ghost predicate ShapesOk()
      reads shapes
    {
      && (forall k: Kind :: k in tetrominoes && tetrominoes[k] in shapes)
      && (forall k: Kind :: ShapeOk(tetrominoes[k].rows, k))
    }

    /** Everything Valid asks except that the piece is placed: it holds while a turn is being kicked. */
    ghost predicate TableOk()
      reads this`arena, this`matrix, this`score, this`kind, shapes
    {
      && ShapesOk() && Distinct() && kind in tetrominoes && matrix == tetrominoes[kind]
      && ArenaOk(arena) && score >= 0
    }

    ghost predicate Valid()
      reads this`arena, this`pos, this`matrix, this`score, this`kind, shapes, matrix
    {
      TableOk() && Placed(matrix.rows, pos)
    }

    /** The board part of the state. */
    ghost function State(): Board
      reads this`arena, this`pos, this`score
    {
      Board(arena, pos, score)
    }

    /** createPiece(type): the table's own matrix object, not a copy. */
    function CreatePiece(k: Kind): Shape
      requires k in tetrominoes
    {
      tetrominoes[k]
    }

    /**
     * The state the program sets up before its first playerReset: the zeroed arena, the table
     * holding the seven initial shapes, and the player record with pos (0, 0) and score 0. The
     * source's player starts with no matrix; here it starts on the T entry, which the first
     * playerReset replaces.
     */
    constructor ()
      ensures Valid()
      ensures forall k: Kind :: fresh(tetrominoes[k]) && tetrominoes[k].rows == InitialShape(k)
      ensures pos == Pos(0, 0) && AllZero(arena) && score == 0 && dropCounter == 0
    {
      var a := CreateMatrix(W, H);
      arena := a;
      var table := NewTable();
      tetrominoes := table;
      shapes := table.Values;
      matrix, kind := table[T], T;
      pos := Pos(0, 0);
      score := 0;
      dropCounter := 0;
      new;
      forall k: Kind
        ensures ShapeOk(tetrominoes[k].rows, k)
      {
        InitialShapeOk(k);
      }
      SquareInside(matrix.rows, Size(T), pos);
    }

    /**
     * playerReset: the player takes the table's matrix of kind Pieces[choice] (the drawn index
     * replaces `Math.random`), in whatever orientation that matrix was left, at row 0, centred;
     * if that placement collides, every arena cell and the score become 0 and the piece stays.
     */
    method PlayerReset(choice: nat)
      requires Valid() && choice < |Pieces|
      modifies this`matrix, this`kind, this`pos, this`arena, this`score
      ensures Valid()
      ensures kind == Pieces[choice] && matrix == tetrominoes[kind]
      ensures State() == Spawned(old(arena), old(score), matrix.rows)
    {
      var k := Pieces[choice];
      matrix := CreatePiece(k);
      kind := k;
      pos := pos.(y := 0);
      assert |arena[0]| == W;
      pos := pos.(x := |arena[0]| / 2 - |matrix.rows[0]| / 2);
      assert pos == SpawnPos(|matrix.rows[0]|);
      SpawnInside(matrix.rows, Size(k));
      var hit := Collide(arena, matrix.rows, pos);
      if hit {
        ClearBoard();
      }
    }

    /** The game-over reset of playerReset: every arena cell and the score become 0. */
    method ClearBoard()
      requires TableOk()
      modifies this`arena, this`score
      ensures TableOk() && arena == Cleared(old(arena)) && score == 0
    {
      arena := ZeroFill(arena);
      score := 0;
    }

    /**
     * merge: write every non-zero cell of the player's matrix into the arena at pos. A cell in a
     * row above the grid makes `arena[row]` undefined and the assignment throws; those rows come
     * first in the scan, so nothing has been written then, and ok is false.
     */
    method Merge() returns (ok: bool)
      requires Valid()
      modifies this`arena
      ensures Valid()
      ensures ok == !AboveTop(matrix.rows, pos)
      ensures arena == if ok then Merged(old(arena), matrix.rows, pos) else old(arena)
    {
      PlacedIsMergeable(arena, matrix.rows, pos);
      MergedInRange(arena, matrix.rows, pos);
      var rows: Grid;
      rows, ok := MergeInto(arena, matrix.rows, pos);
      arena := rows;
    }

    /**
     * sweep: scan the rows from the floor up; a row without a zero cell is taken out, zeroed and
     * put on top, and the same index is examined again; each cleared row adds rowCount * 10 to
     * the score and doubles rowCount.
     */
    method Sweep()
      requires Valid()
      modifies this`arena, this`score
      ensures Valid()
      ensures State() == SweptBoard(old(State()))
    {
      SweptShape(arena, W);
      var rows, points := SweepRows(arena, W);
      arena := rows;
      score := score + points;
    }

    /**
     * playerMove(dir): shift the piece dir columns when the shifted placement does not collide;
     * otherwise nothing moves. The row, the arena, the matrix and the score are never touched.
     */
    method PlayerMove(dir: int)
      requires Valid()
      modifies this`pos
      ensures Valid()
      ensures var moved := Pos(old(pos).x + dir, old(pos).y);
        pos == if Collides(arena, matrix.rows, moved) then old(pos) else moved
    {
      pos := pos.(x := pos.x + dir);
      var hit := Collide(arena, matrix.rows, pos);
      if hit {
        pos := pos.(x := pos.x - dir);
      } else {
        NotCollidingIsPlaced(arena, matrix.rows, pos);
      }
    }

    /**
     * playerRotate(dir): turn the matrix object in place, then try the kicks 0, +1, -1, +2, ...
     * in order until a placement does not collide; once the offset passes the width, turn back
     * and restore x. The row never changes. Since the matrix is the table's entry, the table
     * entry of the kind turns with it.
     */
    method PlayerRotate(dir: int)
      requires Valid() && dir != 0
      modifies this`pos, matrix
      ensures Valid()
      ensures pos.y == old(pos).y && matrix == old(matrix)
      ensures var turned := Rotated(old(matrix.rows), dir);
        var n := |turned[0]|;
        var k := FirstFit(arena, turned, old(pos), n, 0);
        if k < NumKicks(n) then
          matrix.rows == turned && pos == Pos(old(pos).x + KickDelta(k), old(pos).y)
        else
          matrix.rows == old(matrix.rows) && pos == old(pos)
    {
      ghost var g := matrix.rows;
      Turn(dir);
      Kick(dir, g);
    }

    /**
     * The second half of playerRotate, on the turned matrix: take the first kick that does not
     * collide, or turn back to g and keep x when the offsets run out.
     */
    method Kick(dir: int, ghost g: Grid)
      requires TableOk() && dir != 0 && Placed(g, pos) && IsSquare(g) && matrix.rows == Rotated(g, dir)
      modifies this`pos, matrix
      ensures Valid()
      ensures pos.y == old(pos).y && matrix == old(matrix)
      ensures var n := |old(matrix.rows)[0]|;
        var k := FirstFit(arena, old(matrix.rows), old(pos), n, 0);
        if k < NumKicks(n) then
          matrix.rows == old(matrix.rows) && pos == Pos(old(pos).x + KickDelta(k), old(pos).y)
        else
          matrix.rows == g && pos == old(pos)
    {
      var n := |matrix.rows[0]|;
      var fit, x := KickSearch(arena, matrix.rows, pos, n);
      if fit {
        pos := pos.(x := x);
        NotCollidingIsPlaced(arena, matrix.rows, pos);
      } else {
        TurnBack(dir, g);
      }
    }

    /** rotate(player.matrix, -dir) right after rotate(player.matrix, dir): the table entry is as it was. */
    method TurnBack(dir: int, ghost g: Grid)
      requires TableOk() && dir != 0 && IsSquare(g) && matrix.rows == Rotated(g, dir)
      modifies matrix
      ensures TableOk() && matrix.rows == g
    {
      Turn(-dir);
      RotateInverse(g, dir);
    }

    /** rotate(player.matrix, dir): the table entry of the current kind turns, and stays a piece matrix of that kind. */
    method Turn(dir: int)
      requires TableOk() && dir != 0
      modifies matrix
      ensures TableOk() && matrix.rows == Rotated(old(matrix.rows), dir)
      ensures forall k: Kind :: k != kind ==> tetrominoes[k].rows == old(tetrominoes[k].rows)
    {
      ghost var g := matrix.rows;
      Rotate(matrix, dir);
      forall k | k in tetrominoes
        ensures ShapeOk(tetrominoes[k].rows, k)
      {
        assert old(ShapeOk(tetrominoes[k].rows, k));
        if tetrominoes[k] == matrix {
          RotatedShapeOk(g, k, dir);
        }
      }
    }

    /**
     * The landing sequence shared by playerDrop and the hard drop: merge, then playerReset with
     * the drawn index (its spawn test sees the merged, unswept grid), then sweep, and then the
     * `dropCounter = 0` both callers end with. When merge throws, ok is false and nothing after
     * it runs.
     */
    method LandPiece(choice: nat) returns (ok: bool)
      requires Valid() && choice < |Pieces|
      modifies this
      ensures Valid()
      ensures ok == !AboveTop(old(matrix.rows), old(pos))
      ensures kind == (if ok then Pieces[choice] else old(kind))
      ensures State() == if ok then Land(old(arena), old(matrix.rows), old(pos), old(score), tetrominoes[Pieces[choice]].rows)
        else old(State())
      ensures dropCounter == if ok then 0 else old(dropCounter)
    {
      ok := Merge();
      if ok {
        Respawn(choice);
        dropCounter := 0;
      }
    }

    /** playerReset with the drawn index and then sweep, on the merged grid. */
    method Respawn(choice: nat)
      requires Valid() && choice < |Pieces|
      modifies this
      ensures Valid()
      ensures kind == Pieces[choice]
      ensures State() == Settle(old(arena), old(score), tetrominoes[Pieces[choice]].rows)
      ensures dropCounter == old(dropCounter)
    {
      PlayerReset(choice);
      Sweep();
    }

    /**
     * playerDrop: the step of Dropped, with the next kind drawn as `choice`; ok is false when
     * merge throws, and then the rest of the command (respawn, sweep, dropCounter = 0) is skipped.
     */
    method PlayerDrop(choice: nat) returns (ok: bool)
      requires Valid() && choice < |Pieces|
      modifies this
      ensures Valid()
      ensures var b := old(State());
        var piece := old(matrix.rows);
        var lands := DropBlocked(b, piece) && !AboveTop(piece, b.pos);
        && ok == !(DropBlocked(b, piece) && AboveTop(piece, b.pos))
        && kind == (if lands then Pieces[choice] else old(kind))
        && State() == Dropped(b, piece, tetrominoes[Pieces[choice]].rows)
        && dropCounter == (if ok then 0 else old(dropCounter))
    {
      var hit := StepDown();
      if hit {
        ok := LandPiece(choice);
      } else {
        dropCounter := 0;
        ok := true;
      }
    }

    /**
     * The first half of playerDrop: one row down, and back up if that placement collides. hit
     * tells which happened.
     */
    method StepDown() returns (hit: bool)
      requires Valid()
      modifies this`pos
      ensures Valid() && hit == DropBlocked(old(State()), matrix.rows)
      ensures pos == if hit then old(pos) else Pos(old(pos).x, old(pos).y + 1)
    {
      pos := pos.(y := pos.y + 1);
      hit := Collide(arena, matrix.rows, pos);
      if hit {
        pos := pos.(y := pos.y - 1);
      } else {
        NotCollidingIsPlaced(arena, matrix.rows, pos);
      }
    }

    /**
     * The hard drop (the space-key block): move down while the placement does not collide, step
     * back one row, then merge, respawn and sweep as in playerDrop. From a colliding placement
     * this ends one row above it, where merge may throw (ok false).
     */
    method HardDrop(choice: nat) returns (ok: bool)
      requires Valid() && choice < |Pieces|
      modifies this
      ensures Valid()
      ensures var b := old(State());
        var piece := old(matrix.rows);
        HasFilled(piece) &&
        var rest := Pos(b.pos.x, RestingY(b.arena, piece, b.pos));
        && ok == !AboveTop(piece, rest)
        && kind == (if ok then Pieces[choice] else old(kind))
        && State() == HardDropped(b, piece, tetrominoes[Pieces[choice]].rows)
        && dropCounter == (if ok then 0 else old(dropCounter))
    {
      Sink();
      ok := LandPiece(choice);
    }

    /**
     * A turn followed by a hard drop that draws the same kind again. The new piece is the table's
     * own matrix object, so it spawns in the orientation the turn left it in (the turned matrix
     * when a kick fitted), not in the kind's initial shape.
     */
    method TurnThenHardDropSameKind(dir: int, choice: nat) returns (ok: bool)
      requires Valid() && dir != 0 && choice < |Pieces| && Pieces[choice] == kind
      modifies this, matrix
      ensures Valid() && matrix == old(matrix)
      ensures var turned := Rotated(old(matrix.rows), dir);
        var n := |turned[0]|;
        matrix.rows == if FirstFit(old(arena), turned, old(pos), n, 0) < NumKicks(n) then turned else old(matrix.rows)
    {
      PlayerRotate(dir);
      ok := HardDrop(choice);
    }

    /**
     * The loop of the hard drop: the piece goes down to RestingY, the row above the first
     * colliding one. It stays inside the walls and above the floor; from a colliding start it
     * moves one row up, which keeps that too.
     */
    method Sink()
      requires Valid()
      modifies this`pos
      ensures Valid()
      ensures pos == Pos(old(pos).x, RestingY(arena, matrix.rows, old(pos)))
    {
      var y := RestingRow(arena, matrix.rows, pos);
      pos := pos.(y := y);
      RestingYIsDeepest(arena, matrix.rows, old(pos));
      if pos.y >= old(pos).y {
        NotCollidingIsPlaced(arena, matrix.rows, pos);
      }
    }

    /**
     * One frame of update, with the elapsed time given as deltaTime: dropCounter grows by it and
     * a playerDrop fires once it exceeds DropInterval.
     */
    method Update(deltaTime: int, choice: nat) returns (ok: bool)
      requires Valid() && choice < |Pieces|
      modifies this
      ensures Valid()
      ensures var b := old(State());
        var piece := old(matrix.rows);
        var fires := old(dropCounter) + deltaTime > DropInterval;
        && ok == !(fires && DropBlocked(b, piece) && AboveTop(piece, b.pos))
        && kind == (if fires && DropBlocked(b, piece) && !AboveTop(piece, b.pos) then Pieces[choice] else old(kind))
        && State() == (if fires then Dropped(b, piece, tetrominoes[Pieces[choice]].rows) else b)
        && dropCounter == (if fires && ok then 0 else old(dropCounter) + deltaTime)
    {
      dropCounter := dropCounter + deltaTime;
      if dropCounter > DropInterval {
        ok := PlayerDrop(choice);
      } else {
        ok := true;
      }
    }
  }

  /**
   * The program start: set up the state, then playerReset with the drawn index `choice`. The
   * first piece is the initial shape of its kind, centred in row 0 of the empty arena.
   */
  method NewGame(choice: nat) returns (g: Game)
    requires choice < |Pieces|
    ensures fresh(g) && g.Valid()
    ensures forall k: Kind :: fresh(g.tetrominoes[k]) && g.tetrominoes[k].rows == InitialShape(k)
    ensures g.kind == Pieces[choice] && g.matrix.rows == InitialShape(g.kind) && g.pos == SpawnPos(Size(g.kind))
    ensures AllZero(g.arena) && g.score == 0 && g.dropCounter == 0
  {
    g := new Game();
    g.PlayerReset(choice);
  }
}
