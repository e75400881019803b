/** The `tetrominoes` table of tetris.js and the `pieces` string playerReset draws from. */
module Catalog {
  import opened Matrix
  import opened Collision

  /** The seven tetromino kinds, the keys of the table. */
  datatype Kind = T | O | L | J | I | S | Z

  /** The string 'TJLOSZI': a drawn index 0..6 selects a kind through it. */
  const Pieces: seq<Kind> := [T, J, L, O, S, Z, I]

  /** The shape each kind has when the program starts. */
  function InitialShape(k: Kind): Grid
  {
    match k
    case T => [[0, 0, 0], [1, 1, 1], [0, 1, 0]]
    case O => [[2, 2], [2, 2]]
    case L => [[0, 3, 0], [0, 3, 0], [0, 3, 3]]
    case J => [[0, 4, 0], [0, 4, 0], [4, 4, 0]]
    case I => [[0, 5, 0, 0], [0, 5, 0, 0], [0, 5, 0, 0], [0, 5, 0, 0]]
    case S => [[0, 6, 6], [6, 6, 0], [0, 0, 0]]
    case Z => [[7, 7, 0], [0, 7, 7], [0, 0, 0]]
  }

  /** The colour index a kind's cells carry (the index into `colors`). */
  function Color(k: Kind): int
  {
    match k
    case T => 1
    case O => 2
    case L => 3
    case J => 4
    case I => 5
    case S => 6
    case Z => 7
  }

  /** Side length of a kind's square matrix. */
  function Size(k: Kind): nat
  {
    if k == O then 2 else if k == I then 4 else 3
  }

  /** Every shape is a square of its kind's size, 2 to 4, with at least one non-zero cell. */
  lemma ShapeSize(k: Kind)
    ensures IsSquare(InitialShape(k)) && |InitialShape(k)| == Size(k) && 2 <= Size(k) <= 4
    ensures HasFilled(InitialShape(k))
  {
    assert Filled(InitialShape(k), 1, 1);
  }

  /** Every non-zero cell of a shape carries the kind's colour, so every cell is in 0..7. */
  lemma ShapeColor(k: Kind)
    ensures CellsInRange(InitialShape(k))
    ensures forall y, x :: Filled(InitialShape(k), y, x) ==> InitialShape(k)[y][x] == Color(k)
  {
  }

  /**
   * Every shape holds four non-zero cells. The seven shapes are counted in two groups (T, L, J
   * and O, I, S, Z) only because counting all seven literal matrices in one proof costs the
   * solver far more than the two halves; the grouping has no meaning in the game.
   */
  lemma ShapeCount(k: Kind)
    ensures Count(InitialShape(k)) == 4
  {
    if k in {T, L, J} {
      ThreeByThreeCount(k);
    } else {
      OtherCount(k);
    }
  }

  /** The T, L and J shapes hold four non-zero cells. */
  lemma ThreeByThreeCount(k: Kind)
    requires k in {T, L, J}
    ensures Count(InitialShape(k)) == 4
  {
    match k
    case T => assert Count(InitialShape(T)) == 4;
    case L => assert Count(InitialShape(L)) == 4;
    case J => assert Count(InitialShape(J)) == 4;
  }

  /** The O, I, S and Z shapes hold four non-zero cells. */
  lemma OtherCount(k: Kind)
    requires k in {O, I, S, Z}
    ensures Count(InitialShape(k)) == 4
  {
    match k
    case O => assert Count(InitialShape(O)) == 4;
    case I => assert Count(InitialShape(I)) == 4;
    case S => assert Count(InitialShape(S)) == 4;
    case Z => assert Count(InitialShape(Z)) == 4;
  }

  /** The colours of different kinds differ. */
  lemma ColorsDistinct(k1: Kind, k2: Kind)
    requires k1 != k2
    ensures Color(k1) != Color(k2)
  {
  }

  /** 'TJLOSZI' names each of the seven kinds exactly once. */
  lemma PiecesAreTheKinds()
    ensures |Pieces| == 7
    ensures forall k: Kind :: k in Pieces
    ensures forall i, j :: 0 <= i < j < |Pieces| ==> Pieces[i] != Pieces[j]
  {
    forall k: Kind
      ensures k in Pieces
    {
      match k
      case T => assert Pieces[0] == k;
      case J => assert Pieces[1] == k;
      case L => assert Pieces[2] == k;
      case O => assert Pieces[3] == k;
      case S => assert Pieces[4] == k;
      case Z => assert Pieces[5] == k;
      case I => assert Pieces[6] == k;
    }
  }
}
