/**
  The seven pieces, their 0/1 masks, and the block that `generate_random_block` spawns.
*/
module Pieces {
  import opened Board

  /** The piece kind: a tag only, the game logic uses the shape and the position. */
  datatype BlockType = I | O | T | S | Z | J | L

  /** A piece mask, row by row from the top; 1 marks a filled cell. */
  type Shape = seq<Row>

  /** The falling piece: its kind, the grid cell of the mask's top-left corner as (x, y), and its mask. */
  datatype Block = Block(blockType: BlockType, position: (int, int), shape: Shape)

  /** The kind drawn for a random index; the source draws the index from 0..7 and sends every other value to L. */
  function KindOf(roll: int): BlockType {
    match roll
    case 0 => I
    case 1 => O
    case 2 => T
    case 3 => S
    case 4 => Z
    case 5 => J
    case _ => L
  }

  /** The canonical mask of each kind. */
  function ShapeOf(k: BlockType): Shape {
    match k
    case I => [[1, 1, 1, 1]]
    case O => [[1, 1], [1, 1]]
    case T => [[0, 1, 0], [1, 1, 1]]
    case S => [[0, 1, 1], [1, 1, 0]]
    case Z => [[1, 1, 0], [0, 1, 1]]
    case J => [[1, 0, 0], [1, 1, 1]]
    case L => [[0, 0, 1], [1, 1, 1]]
  }

  /** The column at which every piece spawns: GRID_WIDTH / 2 - 1. */
  const SPAWN_X: int := GRID_WIDTH / 2 - 1

  /** The block `generate_random_block` returns when the random index is `roll`. */
  function SpawnBlock(roll: int): Block {
    var k := KindOf(roll);
    Block(k, (SPAWN_X, 0), ShapeOf(k))
  }

  /** A block whose mask is still the canonical mask of its kind (the game never rotates). */
  predicate IsCanonical(b: Block) {
    b.shape == ShapeOf(b.blockType)
  }

  /** Every row of the mask is as wide as the first. */
  predicate IsRectangular(shape: Shape) {
    |shape| > 0 && forall dy :: 0 <= dy < |shape| ==> |shape[dy]| == |shape[0]|
  }

  /**
    Every spawned block carries one of the seven masks, which is rectangular, one or two
    rows high, two to four columns wide and has exactly four filled cells; it starts at
    (49, 0) whatever its kind.
  */
  lemma SpawnFacts(roll: int)
    ensures SpawnBlock(roll).position == (49, 0)
    ensures IsCanonical(SpawnBlock(roll))
    ensures SpawnBlock(roll).blockType == KindOf(roll)
    ensures IsRectangular(SpawnBlock(roll).shape)
    ensures 1 <= |SpawnBlock(roll).shape| <= 2
    ensures 2 <= |SpawnBlock(roll).shape[0]| <= 4
    ensures CellCount(SpawnBlock(roll).shape) == 4
  {
    CanonicalEdges(KindOf(roll));
    CanonicalCellCount(KindOf(roll));
  }

  /** Every canonical mask has exactly four filled cells. */
  lemma CanonicalCellCount(k: BlockType)
    ensures CellCount(ShapeOf(k)) == 4
  {
    match k
    case I => CellCountOfRows([1, 1, 1, 1], []);
    case O => CellCountOfRows([1, 1], [1, 1]);
    case T => CellCountOfRows([0, 1, 0], [1, 1, 1]);
    case S => CellCountOfRows([0, 1, 1], [1, 1, 0]);
    case Z => CellCountOfRows([1, 1, 0], [0, 1, 1]);
    case J => CellCountOfRows([1, 0, 0], [1, 1, 1]);
    case L => CellCountOfRows([0, 0, 1], [1, 1, 1]);
  }

  lemma CellCountOfRows(a: Row, b: Row)
    ensures CellCount([a]) == RowCellCount(a)
    ensures CellCount([a, b]) == RowCellCount(a) + RowCellCount(b)
  {
    assert [a][1..] == [] && [b][1..] == [];
    assert [a, b][1..] == [b];
  }

  /** Every canonical mask is one or two rows high. */
  lemma CanonicalHeight(k: BlockType)
    ensures 1 <= |ShapeOf(k)| <= 2
  {
  }

  /**
    Every canonical mask has a filled cell in its first column and one in its last column,
    so a mask that fits on the board lies wholly between the walls.
  */
  lemma CanonicalEdges(k: BlockType)
    ensures IsRectangular(ShapeOf(k))
    ensures exists dy :: 0 <= dy < |ShapeOf(k)| && ShapeOf(k)[dy][0] == 1
    ensures exists dy :: 0 <= dy < |ShapeOf(k)| && ShapeOf(k)[dy][|ShapeOf(k)[0]| - 1] == 1
  {
    var s := ShapeOf(k);
    match k
    case I => assert s[0][0] == 1 && s[0][3] == 1;
    case O => assert s[0][0] == 1 && s[0][1] == 1;
    case T => assert s[1][0] == 1 && s[1][2] == 1;
    case S => assert s[1][0] == 1 && s[0][2] == 1;
    case Z => assert s[0][0] == 1 && s[1][2] == 1;
    case J => assert s[0][0] == 1 && s[1][2] == 1;
    case L => assert s[1][0] == 1 && s[0][2] == 1;
  }
}
