/**
  `CrowsTetris` as a class: its fields are updated in place, the collision tests, the
  lock and the line clear are the source's loops, and every method is proved to agree
  with the matching transition of module GameModel.
*/
module Game {
  import opened Wrappers
  import opened Board
  import opened Pieces
  import opened Collision
  import opened HighScores
  import M = GameModel

  /**
    The cells of the block that a lock visiting mask cells in row-major order has already
    set when it reaches row `dy`, column `dx` of the mask.
  */
  ghost predicate CoveredBefore(blk: Block, x: int, y: int, dy: int, dx: int) {
    Covers(blk, x, y)
      && (y - blk.position.1 < dy || (y - blk.position.1 == dy && x - blk.position.0 < dx))
  }

  /** Writing a row just above the stacked rows extends the stack by that row. */
  lemma PlaceRow(n: nat, r: Row, k: seq<Row>)
    ensures (EmptyRows(n + 1) + k)[n := r] == EmptyRows(n) + ([r] + k)
  {
    var lhs := (EmptyRows(n + 1) + k)[n := r];
    var rhs := EmptyRows(n) + ([r] + k);
    assert |lhs| == |rhs|;
    forall i | 0 <= i < |lhs| ensures lhs[i] == rhs[i] {
      if i < n {
      } else if i == n {
      } else {
        assert lhs[i] == k[i - n - 1];
      }
    }
  }

  /** One step of the bottom-up scan of `clear_lines`, at row y. */
  lemma ScanStep(b: seq<Row>, y: nat)
    requires y < |b|
    ensures NonFullRows(b[y..]) == (if IsFull(b[y]) then [] else [b[y]]) + NonFullRows(b[y + 1..])
    ensures FullRowCount(b[y..]) == (if IsFull(b[y]) then 1 else 0) + FullRowCount(b[y + 1..])
  {
    assert b[y..] == [b[y]] + b[y + 1..];
    RowsCons(b[y], b[y + 1..]);
  }

  /** A scan that has kept as many rows as the board has has reached row 0 and cleared nothing. */
  lemma ScanKeptAll(b: seq<Row>, y: nat)
    requires y <= |b| && |NonFullRows(b[y..])| == |b|
    ensures y == 0 && FullRowCount(b) == 0 && ClearedBoard(b) == b
  {
    KeptPlusCleared(b[y..]);
    assert b[0..] == b;
    AllKept(b);
    assert EmptyRows(0) == [];
  }

  /** A finished scan has built the cleared board. */
  lemma ScanDone(b: seq<Row>, n: nat)
    requires WellFormed(b) && n + |NonFullRows(b)| == |b|
    ensures EmptyRows(n) + NonFullRows(b) == ClearedBoard(b)
    ensures WellFormed(ClearedBoard(b))
  {
    KeptPlusCleared(b);
    ClearedBoardShape(b);
  }

  class CrowsTetris {
    var state: M.GameState
    var score: int
    var highScores: seq<Entry>
    var newHighScoreName: string
    var isPaused: bool
    var grid: array<Row>
    var activeBlock: Option<Block>

    /** The game state these fields hold. */
    function Model(): M.Game
      reads this, grid
    {
      M.Game(state, score, highScores, newHighScoreName, isPaused, grid[..], activeBlock)
    }

    predicate Valid()
      reads this, grid
    {
      M.Inv(Model())
    }

    predicate GridWellFormed()
      reads this, grid
    {
      WellFormed(grid[..])
    }

    /** `CrowsTetris::default`, given the lines read from the high-score file. */
    constructor (savedLines: seq<string>)
      ensures Valid() && Model() == M.Initial(savedLines)
    {
      state := M.StartScreen;
      score := 0;
      highScores := LoadHighScores(savedLines);
      newHighScoreName := "";
      isPaused := false;
      grid := new Row[GRID_HEIGHT](_ => EMPTY_ROW);
      activeBlock := None;
      new;
      assert grid[..] == EmptyBoard();
      M.InitialInv(savedLines);
    }

    /** `reset_game`: a new game on an empty grid with a freshly spawned block. */
    method ResetGame(roll: int)
      modifies this
      ensures Valid() && Model() == M.ResetGame(old(Model()), roll)
    {
      ghost var g0 := Model();
      M.ResetGameInv(g0, roll);
      var newGrid := new Row[GRID_HEIGHT](_ => EMPTY_ROW);
      assert newGrid[..] == EmptyBoard();
      state := M.Playing;
      score := 0;
      isPaused := false;
      grid := newGrid;
      activeBlock := Some(SpawnBlock(roll));
      assert Model() == M.ResetGame(g0, roll);
    }

    /** `check_collision`: whether the active block collides where it stands. */
    method CheckCollision() returns (collided: bool)
      requires GridWellFormed()
      ensures collided == Collides(grid[..], activeBlock)
    {
      if activeBlock.None? {
        return false;
      }
      var block := activeBlock.value;
      var dy := 0;
      while dy < |block.shape|
        invariant 0 <= dy <= |block.shape|
        invariant forall i, j :: 0 <= i < dy && 0 <= j < |block.shape[i]| && block.shape[i][j] == 1 ==>
          !Blocked(grid[..], block.position.0 + j, block.position.1 + i)
      {
        var row := block.shape[dy];
        var dx := 0;
        while dx < |row|
          invariant 0 <= dx <= |row|
          invariant forall j :: 0 <= j < dx && row[j] == 1 ==>
            !Blocked(grid[..], block.position.0 + j, block.position.1 + dy)
        {
          if row[dx] == 1 {
            var x := block.position.0 + dx;
            var y := block.position.1 + dy;
            if x < 0 || x >= GRID_WIDTH || y >= GRID_HEIGHT {
              assert block.shape[dy][dx] == 1 && Blocked(grid[..], x, y);
              return true;
            }
            if y >= 0 && grid[y][x] == 1 {
              assert block.shape[dy][dx] == 1 && Blocked(grid[..], x, y);
              return true;
            }
          }
          dx := dx + 1;
        }
        dy := dy + 1;
      }
      return false;
    }

    /**
      `check_collision_with_position`: whether the active block's mask collides at `pos`.
      The source indexes the grid at every in-bounds filled cell without testing for a
      row above the board, so the row must not be negative.
    */
    method CheckCollisionWithPosition(pos: (int, int)) returns (collided: bool)
      requires GridWellFormed() && pos.1 >= 0
      ensures collided == (activeBlock.Some? && CollidesAt(grid[..], activeBlock.value.shape, pos))
    {
      if activeBlock.None? {
        return false;
      }
      var shape := activeBlock.value.shape;
      var dy := 0;
      while dy < |shape|
        invariant 0 <= dy <= |shape|
        invariant forall i, j :: 0 <= i < dy && 0 <= j < |shape[i]| && shape[i][j] == 1 ==>
          !Blocked(grid[..], pos.0 + j, pos.1 + i)
      {
        var row := shape[dy];
        var dx := 0;
        while dx < |row|
          invariant 0 <= dx <= |row|
          invariant forall j :: 0 <= j < dx && row[j] == 1 ==> !Blocked(grid[..], pos.0 + j, pos.1 + dy)
        {
          if row[dx] != 0 {
            var gridX := pos.0 + dx;
            var gridY := pos.1 + dy;
            if gridX < 0 || gridX >= GRID_WIDTH || gridY >= GRID_HEIGHT {
              assert shape[dy][dx] == 1 && Blocked(grid[..], gridX, gridY);
              return true;
            }
            if grid[gridY][gridX] != 0 {
              assert shape[dy][dx] == 1 && Blocked(grid[..], gridX, gridY);
              return true;
            }
          }
          dx := dx + 1;
        }
        dy := dy + 1;
      }
      return false;
    }

    /** `lock_block`: set the grid cell under every filled cell of the active block at y >= 0. */
    method LockBlock()
      requires GridWellFormed() && LockSafe(activeBlock)
      modifies grid
      ensures GridWellFormed()
      ensures grid[..] == LockedBoard(old(grid[..]), activeBlock)
    {
      if activeBlock.None? {
        return;
      }
      var block := activeBlock.value;
      ghost var before := grid[..];
      var dy := 0;
      while dy < |block.shape|
        invariant 0 <= dy <= |block.shape|
        invariant forall y :: 0 <= y < GRID_HEIGHT ==> |grid[y]| == GRID_WIDTH
        invariant forall y, x :: 0 <= y < GRID_HEIGHT && 0 <= x < GRID_WIDTH ==>
          grid[y][x] == if CoveredBefore(block, x, y, dy, 0) then 1 else before[y][x]
      {
        var row := block.shape[dy];
        var dx := 0;
        while dx < |row|
          invariant 0 <= dx <= |row|
          invariant forall y :: 0 <= y < GRID_HEIGHT ==> |grid[y]| == GRID_WIDTH
          invariant forall y, x :: 0 <= y < GRID_HEIGHT && 0 <= x < GRID_WIDTH ==>
            grid[y][x] == if CoveredBefore(block, x, y, dy, dx) then 1 else before[y][x]
        {
          if row[dx] == 1 {
            var x := block.position.0 + dx;
            var y := block.position.1 + dy;
            if y >= 0 {
              grid[y] := grid[y][x := 1];
            }
          }
          dx := dx + 1;
        }
        dy := dy + 1;
      }
      LockedBoardCells(before, activeBlock);
      forall y | 0 <= y < GRID_HEIGHT
        ensures grid[y] == LockedBoard(before, activeBlock)[y]
      {
        assert forall x :: 0 <= x < GRID_WIDTH ==> grid[y][x] == LockedBoard(before, activeBlock)[y][x];
      }
    }

    /**
      `clear_lines`: walk the rows bottom-up, copying each incomplete row to a write
      cursor that moves up one row per copy, and add 100 per complete row. When the
      cursor would pass row 0 the source returns without installing the new grid.
    */
    method ClearLines()
      requires GridWellFormed()
      modifies this
      ensures GridWellFormed()
      ensures grid[..] == ClearedBoard(old(grid[..]))
      ensures score == old(score) + 100 * FullRowCount(old(grid[..]))
      ensures state == old(state) && highScores == old(highScores)
      ensures newHighScoreName == old(newHighScoreName) && isPaused == old(isPaused)
      ensures activeBlock == old(activeBlock)
    {
      ghost var b := grid[..];
      var newGrid := new Row[GRID_HEIGHT](_ => EMPTY_ROW);
      var newRow := GRID_HEIGHT - 1;
      assert newGrid[..] == EmptyRows(newRow + 1) + NonFullRows(b[GRID_HEIGHT..]);
      var y := GRID_HEIGHT;
      while y > 0
        modifies newGrid, this`score
        invariant 0 <= y <= GRID_HEIGHT
        invariant 0 <= newRow < GRID_HEIGHT
        invariant newRow + 1 + |NonFullRows(b[y..])| == GRID_HEIGHT
        invariant newGrid[..] == EmptyRows(newRow + 1) + NonFullRows(b[y..])
        invariant score == old(score) + 100 * FullRowCount(b[y..])
      {
        y := y - 1;
        ScanStep(b, y);
        if IsFull(grid[y]) {
          score := score + 100;
          continue;
        }
        PlaceRow(newRow, grid[y], NonFullRows(b[y + 1..]));
        newGrid[newRow] := grid[y];
        if 1 > newRow {
          ScanKeptAll(b, y);
          return;
        }
        newRow := newRow - 1;
      }
      assert b[0..] == b;
      ScanDone(b, newRow + 1);
      grid := newGrid;
    }

    /**
      `move_block_down`: lower the block one row; on collision put it back, lock it, clear
      lines, spawn the next block from `roll`, and end the game if that block collides.
    */
    method MoveBlockDown(roll: int)
      requires Valid() && LockSafe(activeBlock)
      modifies this, grid
      ensures Valid() && Model() == M.MoveBlockDown(old(Model()), roll)
    {
      ghost var g0 := Model();
      M.MoveBlockDownInv(g0, roll);
      if activeBlock.Some? {
        var block := activeBlock.value;
        activeBlock := Some(block.(position := (block.position.0, block.position.1 + 1)));
        var collided := CheckCollision();
        if collided {
          activeBlock := Some(block);
          M.LockedStep(g0, roll);
          LockAndSpawn(roll);
          assert Model() == M.MoveBlockDown(g0, roll);
        } else {
          assert Model() == M.MoveBlockDown(g0, roll);
        }
      }
    }

    /**
      The blocked path of `move_block_down`, with the block back in place: lock it, clear
      lines, spawn the next block and end the game if that one collides.
    */
    method LockAndSpawn(roll: int)
      requires GridWellFormed() && LockSafe(activeBlock)
      modifies this, grid
      ensures GridWellFormed()
      ensures grid[..] == ClearedBoard(LockedBoard(old(grid[..]), old(activeBlock)))
      ensures score == old(score) + 100 * FullRowCount(LockedBoard(old(grid[..]), old(activeBlock)))
      ensures activeBlock == Some(SpawnBlock(roll))
      ensures state == if Collides(grid[..], activeBlock) then M.GameOver else old(state)
      ensures highScores == old(highScores) && newHighScoreName == old(newHighScoreName)
      ensures isPaused == old(isPaused)
    {
      LockBlock();
      ClearLines();
      activeBlock := Some(SpawnBlock(roll));
      var over := CheckCollision();
      if over {
        state := M.GameOver;
      }
    }

    /** The ArrowLeft handler of `render_gameplay`. */
    method MoveLeft()
      requires Valid()
      modifies this`activeBlock
      ensures Valid() && Model() == M.MoveLeft(old(Model()))
    {
      var newPosition := if activeBlock.Some? then (activeBlock.value.position.0 - 1, activeBlock.value.position.1) else (0, 0);
      var hasCollision := CheckCollisionWithPosition(newPosition);
      if !hasCollision {
        if activeBlock.Some? {
          var block := activeBlock.value;
          if block.position.0 > 0 {
            activeBlock := Some(block.(position := (block.position.0 - 1, block.position.1)));
          }
        }
      }
      M.MoveLeftInv(old(Model()));
    }

    /** The ArrowRight handler of `render_gameplay`. */
    method MoveRight()
      requires Valid()
      modifies this`activeBlock
      ensures Valid() && Model() == M.MoveRight(old(Model()))
    {
      M.MoveRightInv(Model());
      var newPosition := if activeBlock.Some? then (activeBlock.value.position.0 + 1, activeBlock.value.position.1) else (0, 0);
      var hasCollision := CheckCollisionWithPosition(newPosition);
      if !hasCollision {
        if activeBlock.Some? {
          var block := activeBlock.value;
          if block.position.0 + |block.shape[0]| <= GRID_WIDTH {
            activeBlock := Some(block.(position := (block.position.0 + 1, block.position.1)));
          }
        }
      }
    }

    /**
      The game logic of one `render_gameplay` frame: Space, then gravity when the drop
      timer is due, then (unless paused) the arrow keys and Escape.
    */
    method GameplayFrame(input: M.Input)
      requires Valid() && state == M.Playing
      modifies this, grid
      ensures Valid() && Model() == M.GameplayFrame(old(Model()), input)
    {
      if input.spacePressed {
        isPaused := !isPaused;
      }
      if input.dropDue {
        NoCollisionLockSafe(grid[..], activeBlock);
        MoveBlockDown(input.roll);
      }
      if isPaused {
        return;
      }
      if input.leftPressed {
        MoveLeft();
      }
      if input.rightPressed {
        MoveRight();
      }
      if input.escapePressed {
        state := M.GameOver;
      }
    }

    /** The "Start Game" button of `render_start_screen`. */
    method StartScreenFrame(input: M.Input)
      requires Valid()
      modifies this
      ensures Valid() && Model() == M.StartScreenFrame(old(Model()), input)
    {
      if input.startClicked {
        ResetGame(input.roll);
      }
    }

    /**
      "Submit Score": push the record, sort by score, keep ten, and return the lines
      `save_high_scores` writes.
    */
    method SubmitScore() returns (written: seq<string>)
      modifies this
      ensures Model() == M.SubmitScore(old(Model()))
      ensures written == SaveHighScores(highScores)
    {
      highScores := highScores + [Entry(newHighScoreName, score)];
      highScores := SortByScore(highScores);
      highScores := Truncate(highScores, MAX_HIGH_SCORES);
      written := SaveHighScores(highScores);
      newHighScoreName := "";
      state := M.StartScreen;
    }

    /**
      The game logic of one `render_game_over` frame; returns the lines written to the
      high-score file when a score was submitted.
    */
    method GameOverFrame(input: M.Input) returns (saved: Option<seq<string>>)
      requires Valid()
      modifies this
      ensures Valid() && Model() == M.GameOverFrame(old(Model()), input)
      ensures saved == if M.Submits(old(Model()), input) then Some(SaveHighScores(highScores)) else None
    {
      if input.typedName.Some? {
        newHighScoreName := input.typedName.value;
      }
      saved := None;
      if input.submitClicked && newHighScoreName != "" {
        var written := SubmitScore();
        saved := Some(written);
      }
      if input.backClicked {
        state := M.StartScreen;
      }
    }

    /** `update`: run the frame of the current screen. */
    method Update(input: M.Input) returns (saved: Option<seq<string>>)
      requires Valid()
      modifies this, grid
      ensures Valid() && Model() == M.Update(old(Model()), input)
      ensures saved == if old(state) == M.GameOver && M.Submits(old(Model()), input)
                       then Some(SaveHighScores(highScores)) else None
    {
      saved := None;
      match state
      case StartScreen =>
        StartScreenFrame(input);
      case Playing =>
        GameplayFrame(input);
      case GameOver =>
        saved := GameOverFrame(input);
    }
  }
}
