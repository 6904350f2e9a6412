/**
  The collision test shared by `check_collision` and `check_collision_with_position`, and
  the board that `lock_block` leaves behind.
*/
module Collision {
  import opened Wrappers
  import opened Board
  import opened Pieces

  /**
    A piece cell may not lie at (x, y) when that is beyond a side wall, at or below the
    floor, or a filled cell of the visible board. Above the top (y < 0) only the walls count.
  */
  predicate Blocked(b: seq<Row>, x: int, y: int)
    requires WellFormed(b)
  {
    x < 0 || x >= GRID_WIDTH || y >= GRID_HEIGHT || (y >= 0 && b[y][x] == 1)
  }

  /** Some filled cell of `shape`, placed with its top-left corner at `pos`, is blocked. */
  predicate CollidesAt(b: seq<Row>, shape: Shape, pos: (int, int))
    requires WellFormed(b)
  {
    exists dy, dx :: 0 <= dy < |shape| && 0 <= dx < |shape[dy]| && shape[dy][dx] == 1
                  && Blocked(b, pos.0 + dx, pos.1 + dy)
  }

  /** The active block collides; an absent block never does. */
  predicate Collides(b: seq<Row>, active: Option<Block>)
    requires WellFormed(b)
  {
    active.Some? && CollidesAt(b, active.value.shape, active.value.position)
  }

  /** A filled cell of the block lies on grid cell (x, y). */
  predicate Covers(blk: Block, x: int, y: int) {
    var dy := y - blk.position.1;
    var dx := x - blk.position.0;
    0 <= dy < |blk.shape| && 0 <= dx < |blk.shape[dy]| && blk.shape[dy][dx] == 1
  }

  /**
    Every filled cell of the block at y >= 0 lies on the board, so that `lock_block`,
    which indexes the grid at each such cell, stays in bounds.
  */
  predicate LockSafe(active: Option<Block>) {
    active.Some? ==>
      forall dy, dx :: 0 <= dy < |active.value.shape| && 0 <= dx < |active.value.shape[dy]|
                    && active.value.shape[dy][dx] == 1 && active.value.position.1 + dy >= 0
                    ==> 0 <= active.value.position.0 + dx < GRID_WIDTH
                        && active.value.position.1 + dy < GRID_HEIGHT
  }

  function LockedCell(b: seq<Row>, blk: Block, x: int, y: int): Bit
    requires 0 <= y < |b| && 0 <= x < |b[y]|
  {
    if Covers(blk, x, y) then 1 else b[y][x]
  }

  /** The board after locking: the block's filled cells are set, every other cell is as it was. */
  function LockedBoard(b: seq<Row>, active: Option<Block>): seq<Row> {
    match active
    case None => b
    case Some(blk) =>
      seq(|b|, y requires 0 <= y < |b| =>
        seq(|b[y]|, x requires 0 <= x < |b[y]| => LockedCell(b, blk, x, y)))
  }

  // ---------------------------------------------------------------------------
  // Properties
  // ---------------------------------------------------------------------------

  /** A block that does not collide is safe to lock. */
  lemma NoCollisionLockSafe(b: seq<Row>, active: Option<Block>)
    requires WellFormed(b) && active.Some? && !Collides(b, active)
    ensures LockSafe(active)
  {
  }

  /**
    Locking keeps the board's shape, sets exactly the cells the block covers, and leaves
    every other cell as it was.
  */
  lemma LockedBoardCells(b: seq<Row>, active: Option<Block>)
    requires WellFormed(b)
    ensures WellFormed(LockedBoard(b, active))
    ensures forall y, x :: 0 <= y < GRID_HEIGHT && 0 <= x < GRID_WIDTH ==>
      LockedBoard(b, active)[y][x] == (if active.Some? && Covers(active.value, x, y) then 1 else b[y][x])
  {
  }

  /**
    Once locked, a block that has a filled cell on the visible board collides where it
    stands: it has become part of the settled cells.
  */
  lemma LockedBlockIsSolid(b: seq<Row>, blk: Block, dy: int, dx: int)
    requires WellFormed(b) && LockSafe(Some(blk))
    requires 0 <= dy < |blk.shape| && 0 <= dx < |blk.shape[dy]| && blk.shape[dy][dx] == 1
    requires blk.position.1 + dy >= 0
    ensures WellFormed(LockedBoard(b, Some(blk)))
    ensures CollidesAt(LockedBoard(b, Some(blk)), blk.shape, blk.position)
  {
    LockedBoardCells(b, Some(blk));
    var x, y := blk.position.0 + dx, blk.position.1 + dy;
    assert Covers(blk, x, y);
    assert Blocked(LockedBoard(b, Some(blk)), x, y);
  }

  /**
    On a board without complete rows, the rows a lock completes all belong to the locked
    block, so one lock clears at most as many rows as the block is high.
  */
  lemma LockCompletesOnlyBlockRows(b: seq<Row>, blk: Block)
    requires WellFormed(b) && NoFullRow(b)
    ensures forall y :: 0 <= y < GRID_HEIGHT && IsFull(LockedBoard(b, Some(blk))[y]) ==>
      blk.position.1 <= y < blk.position.1 + |blk.shape|
    ensures FullRowCount(LockedBoard(b, Some(blk))) <= |blk.shape|
  {
    var lb := LockedBoard(b, Some(blk));
    LockedBoardCells(b, Some(blk));
    forall y | 0 <= y < GRID_HEIGHT && IsFull(lb[y])
      ensures blk.position.1 <= y < blk.position.1 + |blk.shape|
    {
      assert !IsFull(b[y]);
      var x :| 0 <= x < |b[y]| && b[y][x] != 1;
      assert lb[y][x] == 1;
      assert Covers(blk, x, y);
    }
    FullRowsInBand(lb, blk.position.1, blk.position.1 + |blk.shape|);
  }

  /** Every filled cell of a spawned block lies in columns 49..52 of the top two rows. */
  lemma SpawnCellsOnBoard(roll: int)
    ensures forall x, y :: Covers(SpawnBlock(roll), x, y) ==>
      SPAWN_X <= x < SPAWN_X + 4 && 0 <= y < 2
  {
    SpawnFacts(roll);
  }

  /**
    A freshly spawned block collides exactly when one of its cells is already filled: it
    never collides with a wall or the floor.
  */
  lemma SpawnCollidesIffOccupied(b: seq<Row>, roll: int)
    requires WellFormed(b)
    ensures Collides(b, Some(SpawnBlock(roll))) <==>
      exists y, x :: 0 <= y < GRID_HEIGHT && 0 <= x < GRID_WIDTH
                  && Covers(SpawnBlock(roll), x, y) && b[y][x] == 1
  {
    var blk := SpawnBlock(roll);
    SpawnCellsOnBoard(roll);
    if Collides(b, Some(blk)) {
      var dy, dx :| 0 <= dy < |blk.shape| && 0 <= dx < |blk.shape[dy]| && blk.shape[dy][dx] == 1
                  && Blocked(b, blk.position.0 + dx, blk.position.1 + dy);
      assert Covers(blk, blk.position.0 + dx, blk.position.1 + dy);
    }
    if exists y, x :: 0 <= y < GRID_HEIGHT && 0 <= x < GRID_WIDTH && Covers(blk, x, y) && b[y][x] == 1 {
      var y, x :| 0 <= y < GRID_HEIGHT && 0 <= x < GRID_WIDTH && Covers(blk, x, y) && b[y][x] == 1;
      assert Blocked(b, blk.position.0 + (x - blk.position.0), blk.position.1 + (y - blk.position.1));
    }
  }

  /** A spawned block never collides on the empty board. */
  lemma SpawnFreeOnEmptyBoard(roll: int)
    ensures WellFormed(EmptyBoard())
    ensures !Collides(EmptyBoard(), Some(SpawnBlock(roll)))
  {
    SpawnCollidesIffOccupied(EmptyBoard(), roll);
  }

  /**
    For a canonical block, a left shift the collision test accepts never starts in column
    0, and a right shift it accepts never pushes the mask past the right wall: the extra
    guards of the arrow-key handlers never reject such a move.
  */
  lemma ShiftGuardsImplied(b: seq<Row>, blk: Block)
    requires WellFormed(b) && IsCanonical(blk)
    ensures !CollidesAt(b, blk.shape, (blk.position.0 - 1, blk.position.1)) ==> blk.position.0 > 0
    ensures !CollidesAt(b, blk.shape, (blk.position.0 + 1, blk.position.1)) ==>
      blk.position.0 + |blk.shape[0]| <= GRID_WIDTH
  {
    CanonicalEdges(blk.blockType);
    var s := blk.shape;
    var dl :| 0 <= dl < |s| && s[dl][0] == 1;
    var dr :| 0 <= dr < |s| && s[dr][|s[0]| - 1] == 1;
    if !CollidesAt(b, s, (blk.position.0 - 1, blk.position.1)) {
      assert !Blocked(b, blk.position.0 - 1 + 0, blk.position.1 + dl);
    }
    if !CollidesAt(b, s, (blk.position.0 + 1, blk.position.1)) {
      assert !Blocked(b, blk.position.0 + 1 + (|s[0]| - 1), blk.position.1 + dr);
    }
  }
}
