/**
  The game state of `CrowsTetris` as a value, and each of its transitions as a function:
  reset, the gravity step, the arrow-key shifts, one frame of each screen, and the
  dispatch between screens. The class in module Game performs the same transitions in
  place and is proved to agree with these functions.
*/
module GameModel {
  import opened Wrappers
  import opened Board
  import opened Pieces
  import opened Collision
  import opened HighScores

  datatype GameState = StartScreen | Playing | GameOver

  /** The fields of `CrowsTetris` that the game logic reads or writes. */
  datatype Game = Game(
    state: GameState,
    score: int,
    highScores: seq<Entry>,
    newHighScoreName: string,
    isPaused: bool,
    grid: seq<Row>,
    activeBlock: Option<Block>)

  /**
    What happened in one frame: the buttons clicked and keys pressed, whether the gravity
    timer has run out, the name field's new text if it was edited, and the random index
    used if a block is spawned.
  */
  datatype Input = Input(
    startClicked: bool,
    spacePressed: bool,
    dropDue: bool,
    leftPressed: bool,
    rightPressed: bool,
    escapePressed: bool,
    typedName: Option<string>,
    submitClicked: bool,
    backClicked: bool,
    roll: int)

  /**
    The invariant every reachable game keeps: a well-formed grid without a complete row,
    a score that is a non-negative multiple of 100, an active block (when there is one)
    with its canonical mask and its top row at y >= 0, and, while playing, an active block
    that collides with nothing.
  */
  predicate Inv(g: Game) {
    && WellFormed(g.grid)
    && NoFullRow(g.grid)
    && g.score >= 0 && g.score % 100 == 0
    && (g.activeBlock.Some? ==> g.activeBlock.value.position.1 >= 0 && IsCanonical(g.activeBlock.value))
    && (g.state == Playing ==> g.activeBlock.Some? && !Collides(g.grid, g.activeBlock))
  }

  /** `CrowsTetris::default`, given the lines of the high-score file (none when it cannot be opened). */
  function Initial(savedLines: seq<string>): Game {
    Game(StartScreen, 0, LoadHighScores(savedLines), "", false, EmptyBoard(), None)
  }

  /** `reset_game`. */
  function ResetGame(g: Game, roll: int): Game {
    g.(state := Playing, score := 0, isPaused := false, grid := EmptyBoard(),
       activeBlock := Some(SpawnBlock(roll)))
  }

  function Lowered(b: Block): Block {
    b.(position := (b.position.0, b.position.1 + 1))
  }

  function Shifted(b: Block, dx: int): Block {
    b.(position := (b.position.0 + dx, b.position.1))
  }

  /**
    `move_block_down`: the block moves one row down; if it then collides it goes back,
    is locked into the grid, complete rows are cleared, a new block is spawned, and the
    game is over if that block collides.
  */
  function MoveBlockDown(g: Game, roll: int): Game
    requires WellFormed(g.grid)
  {
    match g.activeBlock
    case None => g
    case Some(b) =>
      if !CollidesAt(g.grid, b.shape, Lowered(b).position) then
        g.(activeBlock := Some(Lowered(b)))
      else
        var locked := LockedBoard(g.grid, g.activeBlock);
        LockedBoardCells(g.grid, g.activeBlock);
        var cleared := ClearedBoard(locked);
        ClearedBoardShape(locked);
        var next := Some(SpawnBlock(roll));
        g.(grid := cleared, score := g.score + 100 * FullRowCount(locked), activeBlock := next,
           state := if Collides(cleared, next) then GameOver else g.state)
  }

  /** The ArrowLeft handler: shift left when the target does not collide and x > 0. */
  function MoveLeft(g: Game): Game
    requires WellFormed(g.grid)
  {
    match g.activeBlock
    case None => g
    case Some(b) =>
      if !CollidesAt(g.grid, b.shape, (b.position.0 - 1, b.position.1)) && b.position.0 > 0 then
        g.(activeBlock := Some(Shifted(b, -1)))
      else g
  }

  /**
    The ArrowRight handler: shift right when the target does not collide and the mask's
    first row, one column further right, still ends inside the grid.
  */
  function MoveRight(g: Game): Game
    requires WellFormed(g.grid)
    requires g.activeBlock.Some? ==> |g.activeBlock.value.shape| > 0
  {
    match g.activeBlock
    case None => g
    case Some(b) =>
      if !CollidesAt(g.grid, b.shape, (b.position.0 + 1, b.position.1))
         && b.position.0 + |b.shape[0]| <= GRID_WIDTH then
        g.(activeBlock := Some(Shifted(b, 1)))
      else g
  }

  /**
    One frame of `render_gameplay`: Space toggles the pause, the gravity step runs when
    due (paused or not), and only when not paused are the arrow keys and Escape handled.
  */
  function GameplayFrame(g: Game, input: Input): Game
    requires Inv(g)
  {
    var toggled := if input.spacePressed then g.(isPaused := !g.isPaused) else g;
    var fallen := if input.dropDue then MoveBlockDown(toggled, input.roll) else toggled;
    MoveBlockDownInv(toggled, input.roll);
    if fallen.isPaused then fallen
    else
      var left := if input.leftPressed then MoveLeft(fallen) else fallen;
      MoveLeftInv(fallen);
      var right := if input.rightPressed then MoveRight(left) else left;
      if input.escapePressed then right.(state := GameOver) else right
  }

  /** One frame of the start screen: "Start Game" resets the game. */
  function StartScreenFrame(g: Game, input: Input): Game {
    if input.startClicked then ResetGame(g, input.roll) else g
  }

  /** "Submit Score": record the name and score, clear the name field, back to the start screen. */
  function SubmitScore(g: Game): Game {
    g.(highScores := SubmitEntry(g.highScores, Entry(g.newHighScoreName, g.score)),
       newHighScoreName := "", state := StartScreen)
  }

  /** The game-over screen accepts a submit only with a non-empty name. */
  predicate Submits(g: Game, input: Input) {
    input.submitClicked && EditedName(g, input) != ""
  }

  function EditedName(g: Game, input: Input): string {
    match input.typedName
    case Some(t) => t
    case None => g.newHighScoreName
  }

  /** One frame of `render_game_over`: edit the name, submit it, or go back to the start screen. */
  function GameOverFrame(g: Game, input: Input): Game {
    var edited := g.(newHighScoreName := EditedName(g, input));
    var submitted := if Submits(g, input) then SubmitScore(edited) else edited;
    if input.backClicked then submitted.(state := StartScreen) else submitted
  }

  /** `update`: the frame of the current screen. */
  function Update(g: Game, input: Input): Game
    requires Inv(g)
  {
    match g.state
    case StartScreen => StartScreenFrame(g, input)
    case Playing => GameplayFrame(g, input)
    case GameOver => GameOverFrame(g, input)
  }

  // ---------------------------------------------------------------------------
  // The invariant holds initially and is preserved by every transition
  // ---------------------------------------------------------------------------

  lemma InitialInv(savedLines: seq<string>)
    ensures Inv(Initial(savedLines))
  {
    EmptyBoardClear();
    ClearedBoardShape(EmptyBoard());
  }

  /** After a reset the game is playing on an empty grid with score 0 and a block that fits. */
  lemma ResetGameInv(g: Game, roll: int)
    ensures Inv(ResetGame(g, roll))
    ensures ResetGame(g, roll).state == Playing && !ResetGame(g, roll).isPaused
    ensures CellCount(ResetGame(g, roll).grid) == 0
  {
    EmptyBoardClear();
    ClearedBoardShape(EmptyBoard());
    SpawnFreeOnEmptyBoard(roll);
    SpawnFacts(roll);
    EmptyRowsCellCount(GRID_HEIGHT);
  }

  lemma MoveBlockDownInv(g: Game, roll: int)
    requires Inv(g)
    ensures Inv(MoveBlockDown(g, roll))
  {
    if g.activeBlock.Some? {
      var b := g.activeBlock.value;
      if CollidesAt(g.grid, b.shape, Lowered(b).position) {
        LockedStepInv(g, roll);
      } else {
        assert MoveBlockDown(g, roll) == g.(activeBlock := Some(Lowered(b)));
      }
    }
  }

  /** The blocked path of the gravity step, spelled out field by field. */
  lemma LockedStep(g: Game, roll: int)
    requires WellFormed(g.grid) && g.activeBlock.Some?
    requires CollidesAt(g.grid, g.activeBlock.value.shape, Lowered(g.activeBlock.value).position)
    ensures WellFormed(LockedBoard(g.grid, g.activeBlock))
    ensures WellFormed(ClearedBoard(LockedBoard(g.grid, g.activeBlock)))
    ensures var locked := LockedBoard(g.grid, g.activeBlock);
      var cleared := ClearedBoard(locked);
      var next := Some(SpawnBlock(roll));
      MoveBlockDown(g, roll) == g.(grid := cleared, score := g.score + 100 * FullRowCount(locked), activeBlock := next,
                                  state := if Collides(cleared, next) then GameOver else g.state)
  {
    LockedBoardCells(g.grid, g.activeBlock);
    ClearedBoardShape(LockedBoard(g.grid, g.activeBlock));
  }

  /** The locking branch of the gravity step keeps the invariant. */
  lemma LockedStepInv(g: Game, roll: int)
    requires Inv(g) && g.activeBlock.Some?
    requires CollidesAt(g.grid, g.activeBlock.value.shape, Lowered(g.activeBlock.value).position)
    ensures Inv(MoveBlockDown(g, roll))
  {
    LockedStep(g, roll);
    var locked := LockedBoard(g.grid, g.activeBlock);
    ClearedBoardShape(locked);
    var r := MoveBlockDown(g, roll);
    assert r.grid == ClearedBoard(locked) && NoFullRow(r.grid);
    assert r.score % 100 == 0 by {
      assert r.score == g.score + 100 * FullRowCount(locked);
    }
    assert r.activeBlock == Some(SpawnBlock(roll));
  }

  /**
    For a game in the invariant, the left shift moves the block exactly when the target
    position does not collide: the `x > 0` guard never decides. Only the block's column
    changes, by exactly one.
  */
  lemma MoveLeftInv(g: Game)
    requires Inv(g)
    ensures Inv(MoveLeft(g))
    ensures MoveLeft(g) ==
      if g.activeBlock.Some? && !CollidesAt(g.grid, g.activeBlock.value.shape,
                                            (g.activeBlock.value.position.0 - 1, g.activeBlock.value.position.1))
      then g.(activeBlock := Some(Shifted(g.activeBlock.value, -1)))
      else g
  {
    if g.activeBlock.Some? {
      ShiftGuardsImplied(g.grid, g.activeBlock.value);
    }
  }

  /**
    For a game in the invariant, the right shift moves the block exactly when the target
    position does not collide: the width guard never decides.
  */
  lemma MoveRightInv(g: Game)
    requires Inv(g)
    ensures g.activeBlock.Some? ==> |g.activeBlock.value.shape| > 0
    ensures Inv(MoveRight(g))
    ensures MoveRight(g) ==
      if g.activeBlock.Some? && !CollidesAt(g.grid, g.activeBlock.value.shape,
                                            (g.activeBlock.value.position.0 + 1, g.activeBlock.value.position.1))
      then g.(activeBlock := Some(Shifted(g.activeBlock.value, 1)))
      else g
  {
    if g.activeBlock.Some? {
      ShiftGuardsImplied(g.grid, g.activeBlock.value);
      CanonicalEdges(g.activeBlock.value.blockType);
    }
  }

  lemma GameplayFrameInv(g: Game, input: Input)
    requires Inv(g)
    ensures Inv(GameplayFrame(g, input))
  {
    var toggled := if input.spacePressed then g.(isPaused := !g.isPaused) else g;
    MoveBlockDownInv(toggled, input.roll);
    var fallen := if input.dropDue then MoveBlockDown(toggled, input.roll) else toggled;
    MoveLeftInv(fallen);
    var left := if input.leftPressed then MoveLeft(fallen) else fallen;
    MoveRightInv(left);
  }

  /** Every frame, on every screen, keeps the invariant. */
  lemma UpdateInv(g: Game, input: Input)
    requires Inv(g)
    ensures Inv(Update(g, input))
  {
    match g.state
    case StartScreen => ResetGameInv(g, input.roll);
    case Playing => GameplayFrameInv(g, input);
    case GameOver =>
  }

  // ---------------------------------------------------------------------------
  // The gravity step
  // ---------------------------------------------------------------------------

  /** Free path: when the lowered block fits, only its row grows by one. */
  lemma MoveBlockDownFree(g: Game, roll: int)
    requires WellFormed(g.grid) && g.activeBlock.Some?
    requires !Collides(g.grid, Some(Lowered(g.activeBlock.value)))
    ensures MoveBlockDown(g, roll) == g.(activeBlock := Some(Lowered(g.activeBlock.value)))
  {
  }

  /**
    Blocked path: the new grid is the old grid with exactly the block's visible filled
    cells set, then cleared; the score grows by 100 per cleared row, and since a lock can
    only complete rows the block occupies, by at most 200; a fresh block replaces the
    active one.
  */
  lemma MoveBlockDownBlocked(g: Game, roll: int)
    requires Inv(g) && g.activeBlock.Some?
    requires Collides(g.grid, Some(Lowered(g.activeBlock.value)))
    ensures var locked := LockedBoard(g.grid, g.activeBlock);
      && WellFormed(locked)
      && (forall y, x :: 0 <= y < GRID_HEIGHT && 0 <= x < GRID_WIDTH ==>
            locked[y][x] == if Covers(g.activeBlock.value, x, y) then 1 else g.grid[y][x])
      && MoveBlockDown(g, roll).grid == ClearedBoard(locked)
      && MoveBlockDown(g, roll).score == g.score + 100 * FullRowCount(locked)
      && FullRowCount(locked) <= 2
      && MoveBlockDown(g, roll).activeBlock == Some(SpawnBlock(roll))
      && MoveBlockDown(g, roll).highScores == g.highScores
      && MoveBlockDown(g, roll).isPaused == g.isPaused
  {
    var b := g.activeBlock.value;
    LockedBoardCells(g.grid, g.activeBlock);
    LockCompletesOnlyBlockRows(g.grid, b);
    CanonicalHeight(b.blockType);
  }

  /**
    A playing game that hits the blocked path ends exactly when one of the fresh block's
    cells is already filled in the new grid.
  */
  lemma MoveBlockDownGameOver(g: Game, roll: int)
    requires Inv(g) && g.state == Playing
    requires Collides(g.grid, Some(Lowered(g.activeBlock.value)))
    ensures var r := MoveBlockDown(g, roll);
      WellFormed(r.grid) &&
      (r.state == GameOver <==>
         exists y, x :: 0 <= y < GRID_HEIGHT && 0 <= x < GRID_WIDTH
                     && Covers(SpawnBlock(roll), x, y) && r.grid[y][x] == 1)
  {
    var locked := LockedBoard(g.grid, g.activeBlock);
    LockedBoardCells(g.grid, g.activeBlock);
    ClearedBoardShape(locked);
    SpawnCollidesIffOccupied(ClearedBoard(locked), roll);
  }

  // ---------------------------------------------------------------------------
  // Frames
  // ---------------------------------------------------------------------------

  /**
    While paused (after this frame's Space), a frame runs at most the gravity step: the
    arrow keys and Escape are ignored, but the block still falls when the timer is due.
  */
  lemma PausedFrame(g: Game, input: Input)
    requires Inv(g) && (g.isPaused != input.spacePressed)
    ensures var toggled := g.(isPaused := true);
      GameplayFrame(g, input) == if input.dropDue then MoveBlockDown(toggled, input.roll) else toggled
  {
  }

  /** Escape in a frame that is not paused ends the game. */
  lemma EscapeEndsGame(g: Game, input: Input)
    requires Inv(g) && g.state == Playing && (g.isPaused == input.spacePressed) && input.escapePressed
    ensures GameplayFrame(g, input).state == GameOver
  {
  }

  /** No gameplay frame touches the high-score list or the name field. */
  lemma GameplayKeepsHighScores(g: Game, input: Input)
    requires Inv(g)
    ensures GameplayFrame(g, input).highScores == g.highScores
    ensures GameplayFrame(g, input).newHighScoreName == g.newHighScoreName
  {
  }

  /**
    On the game-over screen nothing moves: grid, score and block stay as they are, and
    the game returns to the start screen exactly when a score is submitted or "Back to
    Start" is clicked.
  */
  lemma GameOverIsFrozen(g: Game, input: Input)
    requires Inv(g) && g.state == GameOver
    ensures var r := Update(g, input);
      && r.grid == g.grid && r.score == g.score && r.activeBlock == g.activeBlock
      && r.isPaused == g.isPaused
      && (r.state == StartScreen <==> Submits(g, input) || input.backClicked)
      && (r.state != StartScreen ==> r.state == GameOver)
  {
  }

  /**
    A submit with a non-empty name leaves at most ten records, highest score first, all
    from the old list and the new record, and clears the name field.
  */
  lemma SubmitFacts(g: Game, input: Input)
    requires Inv(g) && g.state == GameOver && Submits(g, input)
    ensures var r := Update(g, input);
      && r.state == StartScreen && r.newHighScoreName == ""
      && r.highScores == SubmitEntry(g.highScores, Entry(EditedName(g, input), g.score))
      && |r.highScores| <= MAX_HIGH_SCORES
      && SortedByScore(r.highScores)
      && multiset(r.highScores) <= multiset(g.highScores) + multiset{Entry(EditedName(g, input), g.score)}
  {
    SubmitEntryFacts(g.highScores, Entry(EditedName(g, input), g.score));
  }

  /** "Start Game" on the start screen begins a fresh game. */
  lemma StartBeginsGame(g: Game, input: Input)
    requires Inv(g) && g.state == StartScreen && input.startClicked
    ensures Update(g, input) == ResetGame(g, input.roll)
    ensures Update(g, input).state == Playing && Update(g, input).score == 0
  {
  }
}
