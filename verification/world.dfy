/** The whole game as one value: the board, the active and next pieces, the
    game state (phase, scores, difficulty, shadow switch), the pending player
    intents, and the high score as last written to storage. */
module GameWorld {
  import opened Piece
  import opened Board
  import opened Shapes
  import opened Collision

  /** GameState::StateId */
  datatype Phase = Title | Playing | Pause | GameOver

  /** The fields of GameState the game logic reads and writes. */
  datatype GameState = GameState(
    phase: Phase,
    currentScore: int,
    highestScore: int,
    difficultyLevel: int,
    difficultyLevelStep: int,
    shadowEnabled: int)

  /** Input: the player's pending intents, set by key events and cleared by
      whoever acts on them. */
  datatype Input = Input(
    moveX: int,
    rotate: bool,
    spacebar: bool,
    fastDrop: bool,
    paused: bool,
    shadowSwitch: bool)

  const NoInput: Input := Input(0, false, false, false, false, false)

  datatype World = World(
    grid: Grid,
    active: Tetromino,
    next: Tetromino,
    state: GameState,
    storedHighScore: int)

  /** The scoring rule ties the level to the score threshold for the next
      level: five points per level. */
  predicate LevelSchedule(s: GameState)
  {
    s.difficultyLevel >= 1 && s.difficultyLevelStep == 5 * s.difficultyLevel
  }

  /** The active piece rests in a valid position, keeps the gapless shape
      of four distinct cells every tetromino has, and is drawn in a piece
      colour. */
  predicate Settled(g: Grid, t: Tetromino)
  {
    && IsCurrentPositionValid(g, t.current, 0)
    && Gapless(t.current) && Distinct(t.current)
    && ActiveColor(t.colorId)
  }

  /** What holds of every world the game reaches (for rotations the wall kick
      handles; see the engine): the top row stays empty, the board holds only
      piece colours, the next piece is a fresh one, the level schedule and
      the shadow switch keep their shape, the score is never negative, and
      while a game is running or paused the active piece is settled. */
  predicate Inv(w: World)
  {
    && TopRowEmpty(w.grid)
    && PaletteOnly(w.grid)
    && IsGenerated(w.next)
    && LevelSchedule(w.state)
    && (w.state.shadowEnabled == 1 || w.state.shadowEnabled == -1)
    && w.state.currentScore >= 0
    && (w.state.phase == Playing || w.state.phase == Pause ==> Settled(w.grid, w.active))
  }

  /** The Tetris constructor: title screen, level 1 with its threshold at 5,
      shadow on, an empty board and a generated next piece. The active piece
      is not set up yet; the score fields start at 0 here. */
  function Initial(active: Tetromino, next: Tetromino, storedHighScore: int): (w: World)
    requires IsGenerated(next)
    ensures Inv(w)
    ensures w.state == GameState(Title, 0, 0, 1, 5, 1)
    ensures Occupancy(w.grid) == 0 && w.next == next && w.storedHighScore == storedHighScore
  {
    World(Clear(), active, next, GameState(Title, 0, 0, 1, 5, 1), storedHighScore)
  }
}
