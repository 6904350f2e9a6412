# Crow's Tetris — a verified Dafny model of the game core

This project models the game logic of `CrowsTetris` in `src/main.rs`. The game is a Tetris
variant on a 100 × 32 grid of 0/1 cells. The model covers:

- the falling piece: seven fixed masks, spawned at column 49 of the top row;
- the two collision tests against the walls, the floor and the settled cells;
- locking a piece into the grid;
- the bottom-up line clear with its write cursor, worth 100 points per complete row;
- the gravity step (move, revert, lock, clear, respawn, game-over test);
- the screen state machine: start screen, playing with Space / arrow keys / Escape, and
  the game-over screen;
- the high-score list: the `name,score` text line, and the submit rule of push, stable
  sort by score descending, keep ten.

It has two layers.

- **Value model**. The modules `Board`, `Pieces`, `Collision`, `HighScores` and `GameModel`
  give each operation as a function on values. `GameModel.Game` is the whole game state.
  The lemmas state what each operation promises. The main one is an invariant `GameModel.Inv`,
  which every frame preserves. It says:
  - the grid keeps its shape and holds no complete row;
  - the score is a non-negative multiple of 100;
  - the block keeps its canonical mask and stays at row ≥ 0;
  - while playing, a block is present and does not collide.

  Two unguarded indexings in the source rely on this invariant to stay in bounds: the grid
  read in `check_collision_with_position` and the grid write in `lock_block`.
- **Imperative model**. Class `Game.CrowsTetris` has the fields of the Rust struct and does
  the work in place. The grid is an `array` of rows. Each loop keeps the source's shape. The two
  collision tests are double loops over the mask that return on the first clash. The lock
  is a double loop with no early exit. The line clear is a single bottom-up loop over the
  rows; it skips a complete row with `continue`, and it returns early, without replacing the
  grid, once the write cursor has filled the top row. Every method is proved to
  leave the state that the matching value-model transition computes. Its abstraction is
  `Model()`, and its invariant is `Valid()`.

Inputs the source takes from its surroundings become parameters:

- the random piece index is `roll`: indices 0..5 give I, O, T, S, Z, J and every other value L,
  as the source's `match` does;
- a key press or button click is a boolean field of `GameModel.Input`;
- the text typed into the name field is `typedName`;
- the elapsed-time test of the gravity timer is `dropDue`;
- the high-score file is the sequence of its lines, read once at start-up and returned by a
  submit.

Some behaviours of the code are modelled as written, and the lemmas state them:

- the gravity step runs in a frame even while the game is paused (`GameModel.PausedFrame`);
- the early `return` of `clear_lines` happens only when no row is complete, so it never
  drops a row (proved inside `Game.CrowsTetris.ClearLines`);
- within one frame, a gravity step that ends the game is still followed by that frame's
  arrow-key handling. The model does the same, and the invariant asks for a collision-free
  block only while playing;
- a name that contains `,` is written to the file but dropped on the next load
  (`HighScores.CommaInNameIsLost`);
- the game-over screen leaves grid, score and block as they are, but only from the frame
  after the game ends (`GameModel.GameOverIsFrozen`).

## Model

| member | source | states |
|---|---|---|
| Board.KeptPlusCleared | src/main.rs:202-214 | every row of the old grid is either copied to the new grid or counted as complete |
| Board.NonFullRowsAppend | src/main.rs:202-207 | copying the incomplete rows distributes over concatenation, so their relative order is kept, and so does the count of complete rows |
| Board.NonFullRowsMembers | src/main.rs:203-207 | the copied rows are exactly the incomplete rows of the old grid, and none of them is complete |
| Board.ClearedBoardShape | src/main.rs:199-217 | after a clear with k complete rows, the grid is still 32 × 100, its top k rows are empty, the rows below are the incomplete rows in their original order, and no complete row remains |
| Board.NoFullRowUnchanged | src/main.rs:199-217 | a clear with no complete row leaves the grid unchanged |
| Board.ClearIdempotent | src/main.rs:199-217 | clearing a cleared grid changes nothing |
| Board.FullOrEmptyClearsToEmpty | src/main.rs:199-217 | a grid whose rows are each complete or empty clears to the empty grid |
| Board.EmptyBoardClear | src/main.rs:105 | the empty grid of a new game has no complete row and is a fixed point of the clear |
| Board.ClearRemovesFullRowCells | src/main.rs:199-217 | a clear removes exactly 100 filled cells per complete row and adds none |
| Pieces.SpawnFacts | src/main.rs:110-134 | a spawned block is at (49, 0) for every kind, carries the canonical mask of the drawn kind, and that mask is rectangular, 1 or 2 rows high, 2 to 4 columns wide, with exactly four filled cells |
| Pieces.CanonicalCellCount | src/main.rs:120-128 | each of the seven masks has exactly four filled cells |
| Pieces.CanonicalHeight | src/main.rs:120-128 | each of the seven masks is one or two rows high |
| Pieces.CanonicalEdges | src/main.rs:120-128 | each mask is rectangular, with a filled cell in its first column and one in its last |
| Collision.NoCollisionLockSafe | src/main.rs:182-196 | a block that does not collide has every filled cell at y ≥ 0 on the board, so the lock's grid write stays in bounds |
| Collision.LockedBoardCells | src/main.rs:182-196 | locking keeps the grid's shape, sets exactly the cells the block covers at y ≥ 0, and leaves every other cell unchanged |
| Collision.LockedBlockIsSolid | src/main.rs:182-196 | once locked, a block with a visible filled cell collides where it stands |
| Collision.LockCompletesOnlyBlockRows | src/main.rs:182-207 | on a grid with no complete row, a lock completes only rows the block occupies, so at most as many rows as the block is high |
| Collision.SpawnCellsOnBoard | src/main.rs:129-133 | every filled cell of a spawned block lies in columns 49..52 of rows 0..1 |
| Collision.SpawnCollidesIffOccupied | src/main.rs:151-156 | a freshly spawned block collides exactly when one of its cells is already filled: never with a wall or the floor |
| Collision.SpawnFreeOnEmptyBoard | src/main.rs:101-107 | the block spawned by a reset never collides on the empty grid |
| Collision.ShiftGuardsImplied | src/main.rs:320-352 | for a canonical block, a left shift the collision test accepts has x > 0, and an accepted right shift keeps the mask inside the right wall, so the extra guards never reject a move |
| HighScores.ParseI32 | src/main.rs:58 | a parsed score is always within the i32 range |
| HighScores.ParseIntToString | src/main.rs:58 | parsing the written text of an integer gives it back exactly when it is an i32, and that text has no comma |
| HighScores.Split | src/main.rs:55 | splitting on ',' always gives at least one part |
| HighScores.SplitLength | src/main.rs:55 | a line splits into one more part than it has commas |
| HighScores.SplitAtComma | src/main.rs:55 | the first comma ends the first part |
| HighScores.ParseLine | src/main.rs:53-63 | a record read from a line always has an i32 score |
| HighScores.FormatParseRoundTrip | src/main.rs:53-77 | a record with no ',' in its name and an i32 score reads back as itself from the line written for it |
| HighScores.ParseLineNeedsOneComma | src/main.rs:55-62 | a line without exactly two comma-separated parts is skipped |
| HighScores.ParseLineNeedsI32 | src/main.rs:58-62 | a line `name,tail` whose tail is not an i32 is skipped |
| HighScores.ParseLineAccepts | src/main.rs:55-59 | a line `name,tail` with one comma and an i32 tail is read as that name and score |
| HighScores.LoadedAreStorable | src/main.rs:53-63 | every record read from a line has no ',' in its name and an i32 score |
| HighScores.LoadedListStorable | src/main.rs:49-68 | every record of a loaded list can be written and read back |
| HighScores.LoadSaveRoundTrip | src/main.rs:49-80 | saving a list of storable records and loading the lines gives the same list back |
| HighScores.CommaInNameIsLost | src/main.rs:53-77 | a record whose name contains ',' is written but not read back |
| HighScores.InsertFacts | src/main.rs:406-407 | inserting into a sorted list keeps it sorted and adds exactly that record |
| HighScores.SortByScoreCorrect | src/main.rs:406-407 | the sort returns the same records, highest score first |
| HighScores.SortByScoreSorted | src/main.rs:406-407 | the sort's result is ordered by score, highest first |
| HighScores.SortByScorePermutes | src/main.rs:406-407 | the sort's result holds the same records with the same multiplicities |
| HighScores.SortByScoreStable | src/main.rs:406-407 | the sort is stable: for every score, the records with that score keep their relative order |
| HighScores.SortByScoreCount | src/main.rs:406-407 | the sort keeps, for every v, the number of records scoring at least v |
| HighScores.SubmitRank | src/main.rs:404-408 | the new record is placed right after every earlier record with a score at least as high; when fewer than ten of those exist it is kept at that index, and otherwise the list is exactly the old top ten |
| HighScores.SubmitEntryFacts | src/main.rs:405-408 | after a submit the list has min(old length + 1, 10) records, sorted highest first, all taken from the old list and the new record; it is a prefix of the full sort, so no dropped record scores above a kept one |
| GameModel.InitialInv | src/main.rs:82-97 | the start-up state satisfies the invariant |
| GameModel.ResetGameInv | src/main.rs:101-107 | after a reset the game is playing, unpaused, on an empty grid with a block that does not collide, and the invariant holds |
| GameModel.MoveBlockDownInv | src/main.rs:136-158 | the gravity step preserves the invariant |
| GameModel.LockedStepInv | src/main.rs:145-157 | the blocked path of the gravity step (lock, clear, respawn, game-over test) preserves the invariant |
| GameModel.MoveLeftInv | src/main.rs:320-335 | the left move preserves the invariant and shifts the block by exactly one column exactly when the target does not collide; otherwise nothing changes |
| GameModel.MoveRightInv | src/main.rs:337-352 | the right move preserves the invariant and shifts the block by exactly one column exactly when the target does not collide; otherwise nothing changes |
| GameModel.GameplayFrameInv | src/main.rs:297-363 | a gameplay frame preserves the invariant |
| GameModel.UpdateInv | src/main.rs:250-256 | a frame on any screen preserves the invariant |
| GameModel.MoveBlockDownFree | src/main.rs:136-144 | when the lowered block fits, the new state is the old one with only the block's row grown by one |
| GameModel.MoveBlockDownBlocked | src/main.rs:145-157 | when the lowered block collides, the lock sets exactly the block's cells, the new grid is the clear of the locked grid, the score grows by 100 per cleared row, at most two rows clear, and a fresh block replaces the old one |
| GameModel.MoveBlockDownGameOver | src/main.rs:151-156 | on the blocked path the game ends exactly when a cell of the fresh block is already filled in the new grid |
| GameModel.PausedFrame | src/main.rs:297-311 | a paused frame runs only the gravity step when it is due; arrow keys and Escape are ignored |
| GameModel.EscapeEndsGame | src/main.rs:361-363 | Escape in an unpaused frame ends the game |
| GameModel.GameplayKeepsHighScores | src/main.rs:286-365 | a gameplay frame never touches the high-score list or the name field |
| GameModel.GameOverIsFrozen | src/main.rs:395-420 | on the game-over screen, grid, score and block stay as they are, and the state becomes StartScreen exactly when a score is submitted or "Back to Start" is clicked |
| GameModel.SubmitFacts | src/main.rs:404-412 | a submit with a non-empty name leaves at most ten records, sorted highest first, all from the old list and the new record; it clears the name field and returns to the start screen |
| GameModel.StartBeginsGame | src/main.rs:273-275 | "Start Game" resets the game, which is then playing with score 0 |
| Game.CrowsTetris.constructor | src/main.rs:82-97 | the new object holds the start-up state and satisfies the invariant |
| Game.CrowsTetris.ResetGame | src/main.rs:101-107 | the fields become the reset state, on a new empty grid array |
| Game.CrowsTetris.CheckCollision | src/main.rs:161-179 | the nested loop returns true exactly when some filled cell is beyond a wall, at or below the floor, or on a filled grid cell at y ≥ 0; an absent block never collides |
| Game.CrowsTetris.CheckCollisionWithPosition | src/main.rs:367-393 | the nested loop returns true exactly when the active mask, placed at the given position, has a filled cell that is blocked |
| Game.CrowsTetris.LockBlock | src/main.rs:182-196 | the grid array afterwards is the locked grid: the block's cells at y ≥ 0 are set, and nothing else changes |
| Game.CrowsTetris.ClearLines | src/main.rs:199-217 | the cursor loop leaves the cleared grid and adds 100 per complete row, including on the early-return path; no other field changes |
| Game.CrowsTetris.MoveBlockDown | src/main.rs:136-158 | the fields afterwards are the value-model gravity step, and the invariant is kept |
| Game.CrowsTetris.LockAndSpawn | src/main.rs:145-157 | lock, clear and respawn leave the cleared locked grid, the added score and the fresh block, and set GameOver exactly when that block collides |
| Game.CrowsTetris.MoveLeft | src/main.rs:320-335 | the fields afterwards are the value-model left move, and the invariant is kept |
| Game.CrowsTetris.MoveRight | src/main.rs:337-352 | the fields afterwards are the value-model right move, and the invariant is kept |
| Game.CrowsTetris.GameplayFrame | src/main.rs:297-363 | a gameplay frame (Space, gravity, pause check, arrow keys, Escape) leaves the value-model frame's state, and the invariant is kept |
| Game.CrowsTetris.StartScreenFrame | src/main.rs:273-275 | a start-screen frame leaves the value-model frame's state |
| Game.CrowsTetris.SubmitScore | src/main.rs:404-412 | push, sort and truncate leave the submitted list, and the returned lines are exactly what is written for that list |
| Game.CrowsTetris.GameOverFrame | src/main.rs:400-417 | a game-over frame leaves the value-model frame's state, and returns the written lines exactly when a score was submitted |
| Game.CrowsTetris.Update | src/main.rs:250-256 | dispatch to the current screen's frame, matching `GameModel.Update` and keeping the invariant |

## Left out

- Rendering and the app loop are not modelled, because they are drawing only. This covers `render_grid`, the widget layout of the three screens, the `println!` debug output, `eframe::App::update`'s window handling and `main`.
- Quitting on Q is not modelled. It spawns a thread that closes the viewport, which is concurrency and UI.
- File I/O is not modelled. The file is opened with `write(true).create(true)` and no truncate, so a shorter list leaves the old file's tail behind. The model returns only the lines written. A file that cannot be opened is an empty list of lines.
- Randomness and timing become parameters: `roll` replaces `rand::thread_rng`, and `dropDue` replaces `Instant`/`Duration`. The `last_update`, `drop_speed` and `selected_difficulty` fields are not modelled, because only the timer uses them.
- Rotation and soft drop are not modelled, because the code has none: ArrowUp and ArrowDown only print a label. `BlockType` is only a tag.
- The "Moved Left" and "Moved Right" labels and the high-score listing on the start screen are display only.
- Game.CrowsTetris.ClearLines: the score is an unbounded integer. The source's `i32` would overflow only after more than 21 million cleared rows, and that wrap-around is not modelled.
- Game.CrowsTetris.CheckCollisionWithPosition: requires the row to be ≥ 0. The source indexes the grid with a negative row cast to `usize`, which panics; the model requires what keeps the code from panicking, and the invariant always provides it.
- Game.CrowsTetris.LockBlock: requires `LockSafe`, which says every filled cell at y ≥ 0 is on the board. Otherwise the source's grid write panics. `Collision.NoCollisionLockSafe` shows that the gravity step always provides it.
- Game.CrowsTetris.GameplayFrame: requires the state to be Playing, because `update` calls `render_gameplay` only then.
- Game.CrowsTetris.MoveRight: requires `Valid()`. It rules out a block with an empty mask, for which the source's `shape[0]` would panic.
- Grid coordinates and block positions are unbounded integers, as are the shifts by one. `i32` overflow cannot arise on a 100 × 32 grid reached from a spawn.
- Names are strings of characters. The text edit widget and any newline typed into a name are not modelled.
- HighScores.SortByScore: it is a stable insertion sort standing in for Rust's `sort_by`, which is also stable. Its lemmas state what `sort_by` promises: sorted, same records, stable. They do not claim the same comparison sequence.
