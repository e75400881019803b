# A verified model of the tetris.js board simulation

This project models the game core of `tetris.js`, a small falling-block game. The core is:

- the 12 x 20 integer grid (`arena`);
- the player record (`pos`, `matrix`, `score`) and `dropCounter`;
- the `tetrominoes` table;
- the operations that change them: `createMatrix`, `collide`, `merge`, `createPiece`,
  `sweep`, `rotate`, `playerRotate`, `playerMove`, `playerDrop`, `playerReset`, the hard-drop
  block of the keydown handler and the drop timer of `update`.

The source is imperative, and so is the model:

- `Game.Game` is a class whose fields are the program's global state.
- Every command is a method that changes those fields and states the new state as a function
  of the old one.
- Each loop of the source is a method with loop invariants. This covers the nested loops of
  `collide`, `merge` and `rotate`, the labelled scan of `sweep`, the kick loop of
  `playerRotate` and the hard-drop loop.
- Each such method is proved against a specification function. Examples: `Collides`,
  `Merged`, `Swept`, `Rotated`, `FirstFit`, `RestingY` and `Land`.
- The lemmas prove what those functions promise: round trips, invariants kept, scores in
  closed form, and the relation between a hard drop and repeated drops.

Modules, one per file:

- `Matrix` (`matrix.dfy`): grids, positions, `createMatrix`, `row.fill(0)`, the `Shape` class
  (a matrix object that can be shared and changed in place) and the count of non-zero cells.
- `Collision` (`collision.dfy`): `collide`, with the source's "outside the grid is occupied"
  written as an explicit bounds test.
- `Merging` (`merging.dfy`): `merge`.
- `Rotation` (`rotation.dfy`): `rotate` (swap transpose, then reverse each row or the row
  order) and the kick sequence of `playerRotate`.
- `LineClear` (`lineclear.dfy`): `sweep` and its doubling score.
- `Catalog` (`catalog.dfy`): the seven shapes and the string `'TJLOSZI'`.
- `Game` (`game.dfy`): the state, the commands and the landing sequence.

Behaviour kept from the code where a cleaner design of the same game would differ:

- **Shared templates.** `createPiece` returns the table's own matrix object, not a copy, and
  `rotate` turns it in place. So a kind keeps the orientation it was last turned to, and its
  next spawn starts in it. `Game.Game.matrix` is a reference to the `Shape` in
  `tetrominoes[kind]`, and `PlayerRotate` modifies that object. The table holds a separate
  object per kind (part of `Game.Game.Valid`), so turning one kind leaves the others alone.
- **Kick abort test.** The kick loop stops when the signed `offset` exceeds the matrix width,
  not its absolute value. The shift made just before the abort is never tested. So width 2
  tries x, x + 1, and widths 3 and 4 try x, x + 1, x - 1, x + 2.
- **Merge can throw.** `merge` does not check bounds. A piece with a non-zero cell above the
  top row makes `arena[row]` undefined, and the assignment throws a `TypeError`. This can
  happen:
  1. the spawn test of `playerReset` runs before `sweep`;
  2. the sweep can then shift blocks into the new piece;
  3. a hard drop from that overlapping placement steps back to row -1.

  The model returns `ok == false` from `Merge` with nothing written, because rows above the
  grid come first in the scan. The command stops there, with no respawn, no sweep and no
  `dropCounter = 0`.
- **Overlap is not ruled out.** Because of the same ordering, the invariant `Game.Game.Valid`
  does not say that the current piece is free of the grid. It only says the piece's cells lie
  within the side walls and above the floor.

## Model

| member | source | states |
|---|---|---|
| Matrix.CreateMatrix | tetris.js:9-15 | the result has h rows, each w wide, every cell 0 |
| Matrix.Cleared | tetris.js:168 | zeroing every row keeps the height and each row's length, and leaves every cell 0 |
| Matrix.ZeroFill | tetris.js:168 | the row-by-row `row.fill(0)` loop computes Cleared |
| Collision.Collide | tetris.js:68-81 | the nested scan returns true exactly when some non-zero piece cell at pos lands on an occupied board cell: outside the grid or non-zero |
| Collision.Collides | tetris.js:68-81 | (definition) some non-zero piece cell at offset pos lies outside the grid rows or columns, or on a non-zero grid cell |
| Collision.CollidesIff | tetris.js:72-75 | collides if and only if not (every non-zero piece cell is inside the grid and none lies on a non-zero cell) |
| Collision.NotCollidingAboveFloor | tetris.js:238-240 | a piece with a non-zero cell that does not collide has pos.y < height, which bounds the hard-drop loop |
| Merging.Merged | tetris.js:84-92 | merging keeps the height and every row length of the grid |
| Merging.AboveTop | tetris.js:88 | (definition) some non-zero piece cell lies in a row above the grid, where `arena[row]` is undefined and the write throws |
| Merging.MergeInto | tetris.js:84-92 | the merge loop succeeds exactly when no non-zero cell is above the top row; it then yields Merged, otherwise the arena unchanged |
| Merging.MergedWritesPiece | tetris.js:87-88 | every non-zero piece cell inside the grid is written with its own value |
| Merging.MergedKeepsOthers | tetris.js:84-92 | a board cell not under a non-zero piece cell keeps its value |
| Merging.MergedIdempotent | tetris.js:84-92 | merging twice at the same place equals merging once |
| Merging.MergedCollides | tetris.js:84-92 | after merging a piece that was inside the grid, the same piece at the same place collides |
| Merging.MergedInRange | tetris.js:84-92 | merging cells in 0..7 into a grid of cells in 0..7 keeps every cell in 0..7 |
| Catalog.ShapeSize | tetris.js:19-55 | each shape is a square of side 2 (O), 4 (I) or 3 (the rest) with a non-zero cell |
| Catalog.InitialShape | tetris.js:19-55 | (definition) the literal matrix of each of the seven kinds as the table holds it at start |
| Catalog.ShapeColor | tetris.js:19-55 | every non-zero cell of a shape carries its kind's colour index, and all cells are in 0..7 |
| Catalog.ShapeCount | tetris.js:19-55 | every shape has exactly four non-zero cells |
| Catalog.ColorsDistinct | tetris.js:19-55 | different kinds carry different colour indices |
| Catalog.PiecesAreTheKinds | tetris.js:160-162 | 'TJLOSZI' has seven letters, names every kind, and names none twice |
| Rotation.Rotated | tetris.js:175-186 | a quarter turn of an n x n matrix is again n x n |
| Rotation.RotateInverse | tetris.js:192-198 | rotate(m, dir) followed by rotate(m, -dir) restores m |
| Rotation.RotateFourTimes | tetris.js:175-186 | four quarter turns in the same direction restore m |
| Rotation.RotatedCount | tetris.js:175-186 | a quarter turn keeps the number of non-zero cells |
| Rotation.RotatedInRange | tetris.js:175-186 | a quarter turn keeps every cell in 0..7 |
| Rotation.RotatedHasFilled | tetris.js:175-186 | a quarter turn of a matrix with a non-zero cell still has one |
| Rotation.TransposedCount | tetris.js:176-180 | transposing keeps the number of non-zero cells |
| Rotation.ClockwiseIsTransposeThenReverseRows | tetris.js:176-182 | for dir > 0, transposing and reversing each row is the closed form new[y][x] = old[n-1-x][y] |
| Rotation.CounterClockwiseIsTransposeThenReverseOrder | tetris.js:176-185 | otherwise, transposing and reversing the row order is new[y][x] = old[x][n-1-y] |
| Rotation.Transpose | tetris.js:176-180 | the in-place swap loop leaves the transpose of the old matrix |
| Rotation.SwapRow | tetris.js:177-179 | one pass of the inner swap loop completes row y and column y of the transpose and leaves the rest as it was |
| Rotation.ReverseEachRow | tetris.js:182 | every row of the matrix object is reversed |
| Rotation.Rotate | tetris.js:175-186 | the matrix object becomes the quarter turn Rotated(old, dir) |
| Rotation.KickClosedForm | tetris.js:191-195 | the offsets run 1, -2, 3, -4, ... and the positions tried run 0, +1, -1, +2, -2, ... |
| Rotation.KickOffset | tetris.js:191-195 | (definition) the value of `offset` after i shifts: 1, then `-(offset + sign(offset))` |
| Rotation.KickDelta | tetris.js:194 | (definition) the sum of the first i offsets: how far x has moved after i shifts |
| Rotation.NumKicks | tetris.js:196 | (definition) the number of placements tested before the signed offset exceeds the width n |
| Rotation.FirstFit | tetris.js:193-201 | (definition) the first kick index whose placement does not collide, or NumKicks(n) if none does |
| Rotation.KickStep | tetris.js:195-196 | the abort test fires exactly after the last tested placement of width n |
| Rotation.KicksTried | tetris.js:193-201 | width 2 tries x and x + 1; widths 3 and 4 try x, x + 1, x - 1, x + 2 |
| Rotation.FirstFitIsFirst | tetris.js:193-201 | the chosen kick does not collide and every kick before it does |
| Rotation.FirstFitOf | tetris.js:193-201 | conversely, a kick before which every kick collides and which itself fits (or is past the last) is the one chosen |
| Rotation.KickSearch | tetris.js:190-201 | the kick loop terminates; it reports a fit exactly when some kick fits, and then the first such column, which does not collide |
| LineClear.RowFull | tetris.js:123-127 | the inner scan says whether the row has no zero cell |
| LineClear.SweepRows | tetris.js:120-135 | the sweep loop leaves k zero rows on top of the non-full rows in their order, and scores ComboPoints(k) for the k full rows |
| LineClear.Swept | tetris.js:120-135 | (definition) one zero row per full row on top, then the rows that are not full, in their order |
| LineClear.ComboPoints | tetris.js:121-133 | (definition) the points of k cleared rows as the loop adds them: rowCount * 10 with rowCount 1, 2, 4, ... |
| LineClear.SweepScore | tetris.js:132-133 | (definition) the points of one sweep: ComboPoints of the number of full rows |
| LineClear.ScanStep | tetris.js:122-134 | one pass of the outer loop: a full row at y is cut out with a zero row put on top, y stays, points grow by rowCount * 10 and rowCount doubles; any other row leaves rows, points and rowCount alone and y moves up one; the scan invariant is kept and the scan moves strictly on |
| LineClear.ScanCut | tetris.js:128-133 | cutting a full row and putting a zero row on top clears one more row of the original grid and adds rowCount * 10 |
| LineClear.ScanKeep | tetris.js:123-126 | a row that is not full is passed over with the rows unchanged |
| LineClear.ComboPointsClosedForm | tetris.js:132-133 | k rows cleared in one sweep score 10 * (2^k - 1) |
| LineClear.ComboPointsValues | tetris.js:132-133 | 1, 2, 3 and 4 rows score 10, 30, 70 and 150 |
| LineClear.NonFullLength | tetris.js:120-135 | every row is either removed or kept |
| LineClear.NonFullRows | tetris.js:120-135 | the kept rows are rows of the grid and none is full |
| LineClear.SweptShape | tetris.js:120-135 | a sweep keeps the height, the row width and cells in 0..7 |
| LineClear.SweptHasNoFullRow | tetris.js:120-135 | after a sweep of a grid at least one cell wide no row is full |
| LineClear.SweptNoFullRow | tetris.js:120-135 | a grid without a full row is unchanged and scores 0 |
| LineClear.SweptIdempotent | tetris.js:120-135 | a second sweep changes nothing and scores 0 |
| LineClear.SweptAllZero | tetris.js:168 | sweeping a zeroed arena changes nothing and scores 0 |
| LineClear.SweptOneRowExample | tetris.js:120-135 | a full floor row goes, the rest shift down, and the sweep scores 10 |
| LineClear.SweptFourRowsExample | tetris.js:120-135 | four full rows in one sweep score 150, not 40 |
| Game.InitialShapeOk | tetris.js:19-55 | every initial shape is a piece matrix of its kind |
| Game.SpawnPos | tetris.js:164-166 | (definition) row 0 and column floor(12 / 2) - floor(n / 2) for a matrix n wide |
| Game.Spawned | tetris.js:159-172 | (definition) playerReset on a board: the piece at the spawn position; if it collides there, every cell and the score become 0 |
| Game.SweptBoard | tetris.js:144 | (definition) sweep on a board: the arena swept and its points added to the score |
| Game.Settle | tetris.js:143-144 | (definition) what follows merge when a piece lands: playerReset, then sweep |
| Game.Land | tetris.js:142-144 | (definition) the landing sequence: merge, then playerReset on the unswept grid, then sweep |
| Game.DropBlocked | tetris.js:139-140 | (definition) the placement one row down collides |
| Game.Dropped | tetris.js:138-148 | (definition) playerDrop on a board: one row down if that is free; otherwise unchanged when merge throws, else Land |
| Game.RestingY | tetris.js:238-241 | (definition) the row the hard-drop loop stops at minus one: the last free row going down, or the row above a colliding start |
| Game.HardDropped | tetris.js:238-246 | (definition) the hard drop on a board: the piece at RestingY, unchanged otherwise when merge throws there, else Land |
| Game.RotatedShapeOk | tetris.js:175-186 | a quarter turn keeps a piece matrix a piece matrix of the same kind |
| Game.PlacedIsMergeable | tetris.js:84-92 | a placed piece's non-zero cells at rows >= 0 are cells of the arena, so merge writes only existing cells |
| Game.NotCollidingIsPlaced | tetris.js:68-81 | a placement that does not collide is within the walls and above the floor |
| Game.SpawnInside | tetris.js:164-166 | a matrix of side <= 4 at x = 6 - floor(n/2), y = 0 lies inside the arena |
| Game.SpawnFitsEmpty | tetris.js:164-168 | a spawned piece never collides with a zeroed arena |
| Game.RestingYIsDeepest | tetris.js:238-241 | from a free start, the hard drop stops at the deepest row reached through free rows, with the row below blocked; from a colliding start, one row up |
| Game.RestingRow | tetris.js:238-241 | the hard-drop loop and its step back compute RestingY |
| Game.HardDropIsRepeatedDrop | tetris.js:238-246 | from a free placement a hard drop equals playerDrop when the step down is blocked, and equals the hard drop from one row lower otherwise |
| Game.DropMovesDown | tetris.js:138-148 | a drop whose step down is free moves the piece exactly one row and changes nothing else |
| Game.LandGameOver | tetris.js:142-144 | if the new piece collides with the merged grid, the landing leaves an all-zero arena, score 0 and the piece at the spawn position |
| Game.LandScores | tetris.js:142-144 | otherwise the arena is the merged grid swept, the score grows by 10 * (2^k - 1) for its k full rows, and no row stays full |
| Game.LandKeepsBoard | tetris.js:142-144 | a landing keeps the arena 12 x 20 with cells in 0..7 and the score non-negative |
| Game.NewTable | tetris.js:19-55 | a fresh matrix object per kind holding its initial shape, and different kinds get different objects |
| Game.Game.constructor | tetris.js:250-254 | a zeroed arena, a fresh table of the initial shapes with one object per kind, pos (0, 0), score 0, dropCounter 0, and the invariant |
| Game.Game.CreatePiece | tetris.js:95-97 | (definition) the table's own matrix object for the kind, never a copy |
| Game.Game.PlayerReset | tetris.js:159-172 | the player aliases the table entry of the drawn kind at x = 6 - floor(n/2), y = 0; if that collides, every cell and the score become 0 |
| Game.Game.ClearBoard | tetris.js:168-169 | every arena cell and the score become 0 |
| Game.Game.Merge | tetris.js:84-92 | ok exactly when no piece cell is above the top; then the arena is Merged, else unchanged |
| Game.Game.Sweep | tetris.js:120-135 | the arena becomes Swept and the score grows by SweepScore |
| Game.Game.PlayerMove | tetris.js:151-156 | pos.x grows by dir if and only if the shifted placement does not collide; the arena, matrix and score are unchanged |
| Game.Game.PlayerRotate | tetris.js:189-202 | pos.y never changes; either the turned matrix stands at the first free kick, or the matrix is turned back and pos restored |
| Game.Game.Turn | tetris.js:192 | the table entry of the current kind becomes its quarter turn and stays a piece matrix of that kind; the entries of the other kinds are unchanged |
| Game.Game.Kick | tetris.js:193-201 | on the turned matrix, pos moves to the first kick that does not collide, or, when none fits, the matrix is turned back and pos kept; the row never changes |
| Game.Game.TurnBack | tetris.js:197 | turning by -dir right after dir restores the table entry |
| Game.Game.LandPiece | tetris.js:142-147 | merge, then playerReset (its spawn test sees the unswept grid), then sweep, then dropCounter = 0; if merge throws, nothing changes |
| Game.Game.Respawn | tetris.js:143-144 | playerReset then sweep on the merged grid gives Settle |
| Game.Game.PlayerDrop | tetris.js:138-148 | the board becomes Dropped: one row down if free, else landed; dropCounter becomes 0 unless merge throws |
| Game.Game.StepDown | tetris.js:139-141 | the piece moves one row down exactly when that placement does not collide, and stays otherwise; hit reports the collision |
| Game.Game.HardDrop | tetris.js:238-246 | the board becomes HardDropped: landed at the deepest free row; dropCounter becomes 0 unless merge throws |
| Game.Game.TurnThenHardDropSameKind | tetris.js:95-97 | after a turn and a hard drop that draws the same kind, the player's matrix is the same table object, holding the turned matrix when a kick fitted: the next piece of that kind starts turned |
| Game.Game.Sink | tetris.js:238-241 | the piece moves to row RestingY in the same column and stays within the walls and above the floor |
| Game.Game.Update | tetris.js:208-215 | dropCounter grows by deltaTime, and a playerDrop fires exactly when it then exceeds 1000: the board becomes Dropped, and the player holds the drawn kind when the piece lands, the old one otherwise |
| Game.NewGame | tetris.js:250-256 | the first piece is the initial shape of the drawn kind, centred in row 0 of an empty arena, with score 0 |

## Left out

- Rendering and display are not modelled: `drawMatrix`, `draw`, the `colors` strings, the
  canvas and `updateScore`. They only present the state.
- The keydown dispatch from keys to commands is not modelled; each command is a method.
- `Math.random` is not modelled: the drawn index into `'TJLOSZI'` is the parameter `choice`.
- The `requestAnimationFrame` loop and the `time` / `lastTime` bookkeeping of `update` are not
  modelled. `Update` takes the elapsed `deltaTime` as an integer. A `TypeError` from `merge`
  inside `update` would also end the frame loop, because the next frame is never requested.
  The model only reports `ok == false`.
- Game.Game.PlayerRotate: requires dir != 0, because the keys only call it with -1 and 1. With
  dir = 0 the source would turn counter-clockwise twice instead of turning back.
- Merging.MergeInto: requires that the non-zero cells at rows >= 0 lie in the grid, as the
  game's invariant guarantees. The source's behaviour of writing past the end of a row array
  is not modelled.
- The source's player starts with `matrix: null` until the first `playerReset`. The
  constructor starts it on the T entry instead, and `NewGame` runs the first `playerReset`.
- JavaScript numbers are doubles. The score and `dropCounter` are unbounded integers here;
  precision loss beyond 2^53 is not modelled.
- Game.Game.Valid: does not include the four-cell count of each table entry. That count is
  proved for the initial shapes (`Catalog.ShapeCount`) and kept by every quarter turn
  (`Rotation.RotatedCount`).
