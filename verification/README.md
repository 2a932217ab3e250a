# Falling-block game engine, modelled in Dafny

This project models the integer core of a 20 × 10 falling-block puzzle game in `tetris.cpp`:

- pieces of four blocks that move with a one-level undo buffer and turn a quarter turn about a pivot block;
- the generator that decodes seven 4 × 2 marker tables into pieces;
- the board, whose cell read returns -1 past the last row or column;
- the game logic: collision test, hard-drop distance, wall kick, lock and top-out, bottom-up line clearing, and spawning;
- the game-state controller with its title, playing, pause and game-over phases.

Everything is written as pure functions over immutable values. Three loops are written as methods with loop invariants:

- the shape decoder (`Shapes.ConfigureBlocks`);
- the full-row test (`Lines.IsRowFull`);
- the line clear (`Lines.ClearFullRows`).

`Lines.IsRowFull` and `Lines.ClearFullRows` are proved equal to independent definitions (a row with no empty cell; the empty rows on top of the kept rows). `Shapes.ConfigureBlocks` is proved equal to a recursive cell-by-cell scan, which `Shapes.DecodeShapeTables` ties to the seven listed shapes.

Modules, one per file:

| file | module | contents |
|---|---|---|
| `piece.dfy` | `Piece` | blocks, pieces, translation, undo, rotation |
| `board.dfy` | `Board` | the grid, the sentinel read, occupancy counts |
| `shapes.dfy` | `Shapes` | shape tables, the decoder, the generator |
| `collision.dfy` | `Collision` | validity, hard-drop scans, hard drop, wall kick |
| `lines.dfy` | `Lines` | row tests, clearing, the flying-block effects |
| `spawn.dfy` | `Spawn` | promotion of the next piece, both spawn routines |
| `world.dfy` | `GameWorld` | the game state, the player intents, the world, its invariant |
| `engine.dfy` | `Engine` | one run of the game logic |
| `controller.dfy` | `Controller` | the phase machine, and one frame (controller, then logic) |

The model follows the code as written, including three behaviours that a reader of the code may not expect.

- **The rollback after a wall kick is partial.**
  - A kick is itself a sideways move, so it overwrites the undo buffer.
  - If the kicked position is invalid, the undo restores the turned but unkicked piece, which can lie left of column 0.
  - The hard-drop distance is refreshed right afterwards. Its obstruction scan then reads a negative column, which is undefined behaviour.
  - The model turns every such read, and every write outside the board, into an explicit `Engine.Fault`.
  - `Engine.KickRollbackIsPartial` gives a concrete running world in which a lone rotation ends in that fault.
  - `Engine.UpdatePreservesInvariant` shows that nothing else can break the invariant. It is stated for frames whose rotation does not strand the piece.
- **Placement writes wherever the blocks are.** Top-out checks only for a block on row exactly 0, so the placement itself needs every block inside the board.
  - `Engine.PlaceTetrominoHere` requires this.
  - `Engine.SettledLockIsDefined` proves the code establishes it whenever the active piece is settled, because the top row provably stays empty and a piece's rows have no gap.
  - A stranded piece from the partial rollback can still reach the placement outside the board: `Engine.StrandedPieceWritesOutside` gives a running world in which a rotation followed by a gravity step ends in that fault.
- **The two spawn routines differ.**
  - The engine's routine hands the generator's colour loop the colour of the piece it promotes, so the new next piece never repeats the new active piece's colour (`Spawn.LogicSpawn`).
  - The controller's routine hands it the colour of the piece being replaced and has no retry loop, so it can repeat the colour (`Spawn.SessionSpawnMayRepeatColor`).
  - The engine's retry loop always exits on its first pass (`Spawn.RetryExitsAtOnce`).

## Model

| member | source | states |
|---|---|---|
| Piece.UndoMoveX | tetris.cpp:132-156 | undoing a sideways move gives back exactly the blocks before it, and shape, colour and pivot index never change |
| Piece.UndoDropDown | tetris.cpp:132-147 | undoing a one-row drop gives back exactly the blocks before it, identity unchanged |
| Piece.MoveXInverse | tetris.cpp:149-156 | a sideways move by -dx cancels a move by dx |
| Piece.RotateKeepsPivot | tetris.cpp:166-183 | rotation backs up the current blocks, keeps the pivot block where it is, and keeps the piece's identity |
| Piece.RotateTurnsOffsets | tetris.cpp:166-183 | rotation maps every block's offset from the pivot (dx, dy) to (-dy, dx) |
| Piece.RotateFourTimes | tetris.cpp:166-183 | four rotations restore the original blocks |
| Piece.RotateWithoutPivot | tetris.cpp:166-169 | a piece with pivot index -1 (the square) is left entirely unchanged by rotation |
| Piece.ShiftedGapless | tetris.cpp:140-164 | translation keeps the occupied rows and columns gapless |
| Piece.RotateGapless | tetris.cpp:166-183 | rotation keeps the occupied rows and columns gapless |
| Piece.ShiftedDistinct | tetris.cpp:140-164 | translation keeps the four blocks on distinct cells |
| Piece.RotateDistinct | tetris.cpp:166-183 | rotation keeps the four blocks on distinct cells |
| Board.Clear | tetris.cpp:325-334 | every cell of the cleared board is 0 and no cell is occupied |
| Board.OccupiedMeaning | tetris.cpp:336-343 | a read past the last row or column yields the -1 sentinel and counts as occupied; a read inside is occupied exactly when the cell is non-zero |
| Board.FillCell | tetris.cpp:1120-1126 | writing a piece colour into an empty cell adds exactly one occupied cell |
| Shapes.ConfigureBlocks | tetris.cpp:286-310 | the nested marker-table loop yields the same blocks and pivot index as the functional decoder |
| Shapes.ConfigureRow | tetris.cpp:292-307 | one pass of the inner loop over a table row keeps the loop in step with the functional decoder: blocks not yet written keep their old values, and decoding on from the next row gives the same result, also when four blocks end the loop early |
| Shapes.DecodeShapeTables | tetris.cpp:192-232 | each of the seven tables decodes to its listed four blocks, and the pivot is the index of the 2 marker, or -1 for the square |
| Shapes.ShapeFacts | tetris.cpp:192-310 | every decoded shape has four distinct blocks with x in {0, 1} and y in 0..3, below its height, and no gaps |
| Shapes.PickColor | tetris.cpp:239-242 | the colour loop accepts the first draw whose colour differs from the last one; it yields a piece colour in 9..15, and no colour at all exactly when every draw repeats the last colour |
| Shapes.TwoColorsPick | tetris.cpp:239-242 | when the colour draws hold two different colours, the colour loop ends with an accepted colour whatever colour it avoids |
| Shapes.GetTetromino | tetris.cpp:190-284 | a generated piece has shape id draw % 7 + 1, the decoded blocks, its pivot, an origin undo buffer, no cached distance, and the colour of one of its colour draws that differs from the last colour it was given |
| Collision.ValidityOfShifted | tetris.cpp:1242-1267 | testing a piece offsetY rows lower is the same as testing the piece moved down that far |
| Collision.GetLowestYoffset | tetris.cpp:1028-1039 | the result is the largest block row, or -10 when every block is higher |
| Collision.GetOffsetBlockedByGrid | tetris.cpp:1041-1062 | the result is the first offset in 1..dropDist at which a block reaches the last row, or 0 when there is none |
| Collision.GridScan | tetris.cpp:1046-1059 | the scan loop keeps the first floor-reaching offset once found |
| Collision.GetOffsetBlockedByMino | tetris.cpp:1064-1090 | the result is one less than the first obstructed offset in 1..dropDist, or the marker 20 exactly when nothing below 20 obstructs |
| Collision.MinoScan | tetris.cpp:1069-1083 | the scan loop lowers the bound to the first obstructed offset and keeps it there |
| Collision.GetHardDropOffsetY | tetris.cpp:1092-1118 | the distance is 0 for a piece partly above the board, and never negative or past the floor |
| Collision.HardDropDistance | tetris.cpp:1092-1118 | for a piece in view and in the columns, the distance is the floor limit or one less than the first obstruction, whichever is smaller; offsets 1..d are valid and d + 1 is not |
| Collision.DoHardDropLands | tetris.cpp:993-1014 | the d + 1 checked one-row steps leave the piece exactly d rows lower, valid when d > 0, with the next row down invalid |
| Collision.DropStepsLand | tetris.cpp:1000-1012 | each checked step moves the piece one row down until the first invalid step, which it undoes |
| Collision.GetWallKickDistanceX | tetris.cpp:1140-1165 | with nothing right of the board the kick is the smallest shift right that brings every block to column 0 or more; with nothing left of it, the smallest shift left that brings every block to the last column or less |
| Collision.WallKickRestoresColumns | tetris.cpp:1140-1165 | a piece narrower than the board is inside the columns after its kick |
| Lines.IsRowFull | tetris.cpp:1167-1177 | the scan says full exactly when no cell of the row is 0 |
| Lines.ClearRow | tetris.cpp:1188-1195 | row r empties, every other cell keeps its value, and one effect per column carries the cleared cell's position and colour |
| Lines.MoveRowDown | tetris.cpp:1179-1186 | row r's contents land num rows lower, row r empties, and every other row is unchanged |
| Lines.ClearFullRows | tetris.cpp:1197-1213 | the bottom-up loop yields the empty rows on top with the kept rows below in their order, counts the full rows, and emits the effects of exactly the cleared rows; afterwards no row is full and exactly `Cols` cells per cleared row have left the board |
| Lines.ScanMove | tetris.cpp:1205-1208 | a kept row drops onto the topmost emptied row, so the stack below stays packed |
| Lines.KeptAndCounted | tetris.cpp:1197-1213 | every row is either kept or counted, and no kept row is full |
| Lines.ClearedHasNoFullRow | tetris.cpp:1197-1213 | no row of the cleared board is full |
| Lines.ClearWithoutFullRows | tetris.cpp:1197-1213 | a board without a full row is left exactly as it was, with no effects |
| Lines.ClearedOccupancy | tetris.cpp:1197-1213 | clearing removes exactly Cols occupied cells per cleared row |
| Lines.ClearedKeepsShape | tetris.cpp:1197-1213 | clearing keeps the top row empty and introduces no colour that was not a piece colour |
| Lines.EffectsAreClearedCells | tetris.cpp:1188-1213 | each effect is a cell of a full row with that cell's colour, and there are Cols effects per full row |
| Spawn.ColumnOffset | tetris.cpp:1236 | the column draw moves the piece between 1 and Cols - 2 columns right |
| Spawn.SpawnPlacement | tetris.cpp:1215-1234 | after lifting by its height and moving to the drawn column, the piece has every block on a row of at most -1 and a column in 1..Cols-1, is valid on any board, and stays gapless with distinct blocks |
| Spawn.ColumnRetry | tetris.cpp:1234-1237 | the do-while ends only on a valid position and keeps the piece's identity |
| Spawn.RetryExitsAtOnce | tetris.cpp:1215-1237 | the retry loop never repeats: its first column is valid |
| Spawn.LogicSpawn | tetris.cpp:1215-1240 | the promoted piece keeps the next piece's identity, and because the colour loop avoids the promoted piece's colour, the fresh next piece differs in colour from the new active piece |
| Spawn.SessionSpawn | tetris.cpp:487-506 | the controller's spawn avoids only the colour of the piece being replaced |
| Spawn.SessionSpawnMayRepeatColor | tetris.cpp:487-506 | on the same colour draws, the controller's spawn can leave the new active and new next pieces in the same colour where the engine's spawn picks a different one |
| GameWorld.Initial | tetris.cpp:1293-1300 | the starting world is on the title screen with scores 0, level 1, threshold 5 and the shadow on, an empty board and the given next piece, and satisfies the invariant |
| Engine.PlaceTetrominoHere | tetris.cpp:1120-1126 | the cells under the piece take its colour, and no other cell changes |
| Engine.PaintFillsCells | tetris.cpp:1120-1126 | placing a piece on distinct empty cells adds exactly four occupied cells |
| Engine.Recache | tetris.cpp:873 | refreshing the cached hard-drop distance is defined exactly when its scans read no negative column, and leaves the blocks alone |
| Engine.Lock | tetris.cpp:904-917 | the lock is undefined exactly when the piece is below the top row and partly outside the board, and then it is an out-of-board write; it keeps the books (level, threshold, shadow and high scores unchanged, one point per Cols effects); at the top row the game ends with board, score, active and next piece untouched and no effects; otherwise the phase stays, no row of the new board is full, the occupied cells of the placed board drop by Cols per point scored, and the next piece comes into play with a fresh next piece of a different colour |
| Engine.PlaceAndSpawn | tetris.cpp:912-914 | the board becomes the filter definition of the cleared board applied to the placed board, the score rises by the number of full rows while the rest of the game state and the stored high score stay; the promoted piece keeps the next piece's identity and the fresh next piece differs from it in colour |
| Engine.HardDropStep | tetris.cpp:898-920 | after a hard drop the next piece is unchanged, or freshly drawn in a colour other than that of the piece just promoted |
| Engine.Update | tetris.cpp:857-991 | outside a running game nothing changes; inside one the move, rotate and hard-drop intents are consumed, the level, threshold, shadow switch and high scores stay as they were, the phase stays or becomes game over, and the score rises by one point per Cols effects, that is per cleared row |
| Engine.RunBooks | tetris.cpp:857-991 | the four actions of a running update together keep that bookkeeping |
| Engine.SettledLockIsDefined | tetris.cpp:1120-1138 | a settled piece that is blocked below and not on row 0 lies inside the board at row 1 or lower, so the lock writes only board cells |
| Engine.LockKeeps | tetris.cpp:904-917 | a lock below the top row is defined and brings the next piece into play settled on a board that keeps its shape |
| Engine.PlacementKeepsShape | tetris.cpp:912-913 | placing a settled, blocked piece below the top row and clearing full rows keeps the top row empty and the board free of colours other than piece colours |
| Engine.LockConservesCells | tetris.cpp:904-917 | the cells on the board after a lock, plus Cols per point scored, equal the cells before plus four |
| Engine.SettleKeeps | tetris.cpp:963-978 | what follows a drop keeps the invariant: top-out ends the game and any other lock is defined |
| Engine.MoveStepKeeps | tetris.cpp:862-874 | the sideways move keeps the invariant and changes only the active piece |
| Engine.RotateStepKeeps | tetris.cpp:877-895 | a rotation whose kick is needed only when the kicked position is valid keeps the invariant |
| Engine.HardDropStepKeeps | tetris.cpp:898-920 | the hard drop keeps the invariant and ends with the game running or over |
| Engine.GravityStepKeeps | tetris.cpp:955-979 | the gravity step keeps the invariant |
| Engine.UpdatePreservesInvariant | tetris.cpp:857-991 | one logic update of a world with the invariant is defined and keeps it, unless the rotation strands the piece |
| Engine.KickRollbackIsPartial | tetris.cpp:877-895 | whatever piece colour fills the blocking cell, a running world exists in which a lone rotation is undone only as far as the kick and the update then reads column -1 |
| Engine.KickExampleStrands | tetris.cpp:883-892 | in that world the kicked position is blocked, so the undo leaves the piece across columns -1 to 2 |
| Engine.StrandedLeftFaults | tetris.cpp:894 | a piece left across columns -1 to 2 of row 7 makes the refresh of the hard-drop distance read column -1, so the rotation step faults |
| Engine.WallExampleStrands | tetris.cpp:883-892 | against the right wall the blocked kick leaves the turned piece across columns 8 to 11 |
| Engine.StrandedRightRotates | tetris.cpp:894 | a piece left across columns 8 to 11 reads only the sentinel right of the board, so the rotation step keeps it there and changes nothing else on the board |
| Engine.StrandedRightFaults | tetris.cpp:955-979 | in a running world, a rotation that strands the piece there followed by a gravity step locks it in place and writes outside the board |
| Engine.StrandedPieceWritesOutside | tetris.cpp:877-979 | whatever piece colour fills the blocking cell, a running world exists in which a rotation strands the piece right of the board and the following gravity step locks it there, writing outside the board |
| Controller.Update | tetris.cpp:412-485 | the phase changes only on the space bar (title, game over) or the pause key (playing, pause), consuming it; the title and game-over screens change nothing without the space bar; a start from the title keeps board and score; a running game keeps its high score at least its score, raises the level by one exactly when the score reaches the threshold, and flips the shadow on request |
| Controller.RestartResets | tetris.cpp:466-478 | a restart gives an empty board, score 0, level 1 with threshold 5, and the stored high score |
| Controller.PauseRoundTrip | tetris.cpp:436-464 | when no high score is due to be taken over (score at most the high score) and no level-up is due (score below the threshold), pausing and then resuming gives back the running game unchanged |
| Controller.ShadowSwitchTwice | tetris.cpp:442-446 | switching the shadow twice restores it |
| Controller.UpdatePreservesInvariant | tetris.cpp:412-506 | the controller keeps the invariant, including level threshold equal to 5 × level and a shadow of ±1 |
| Controller.FramePreservesInvariant | tetris.cpp:1370-1371 | a frame (controller update, then logic update) of a world with the invariant is defined and keeps it, unless the rotation strands the piece |

## Left out

- Rendering and input decoding: `View`, `Colors`, window setup, and `Tetris::run`'s key-to-intent mapping. The model takes the intents as an `Input` value.
- The flying-block effects (`FxBlock`, `SpecialEffects`) are floating-point animation. `clearRow` is modelled only as emitting one `Effect(x, y, colorId)` per cleared cell.
- High-score file I/O. `storedHighScore` in the world stands for the file's content. Loading copies it and saving overwrites it. A missing or unreadable file is not modelled.
- `rand()`: each spawn takes a `SpawnDraw` of column draw, shape draw and a finite sequence of colour draws.
  - The generator's colour loop runs over those draws (`Shapes.PickColor`). The draws must hold two different colours (`Shapes.TwoColors`), so the loop ends whichever colour it avoids. A random source that never yields a second colour, on which the source would loop forever, is not modelled.
  - `Engine.DrawsAccepted` asks this of both spawns' draws of an update, whether or not a lock happens.
- Float timers (`dropTimer`, `dropDelay`, `scoreTimer`, the level-to-delay table and the fast-drop delay) are replaced by a boolean `gravityDue`. `fastDrop` affects only the timer, so the model does not read it.
- `currentScore` and `highestScore` are never initialised before the title screen. The model starts them at 0.
- The active piece before the first game is uninitialised memory. `GameWorld.Initial` takes it as a parameter.
- Integer overflow of the score and the level is not modelled; they are unbounded integers.
- Undefined behaviour (a negative-column read, an out-of-board write) is modelled as a fault that ends the update, not as whatever the compiled program would do.
- Engine.UpdatePreservesInvariant: stated only for frames whose rotation does not strand the piece, because the partial rollback can leave it outside the columns. `Engine.KickRollbackIsPartial` shows such a frame.
- Controller.FramePreservesInvariant: carries the same rotation condition as Engine.UpdatePreservesInvariant.
