/** The game-state controller (GameState::update), run once per frame before
    the game logic: it starts and restarts games, pauses and resumes, keeps
    the high score, toggles the shadow preview and raises the level. */
module Controller {
  import opened Piece
  import opened Board
  import opened Shapes
  import opened Spawn
  import opened GameWorld
  import Engine

  /** The controller brings a piece into play when the title screen or the
      game-over screen sees the space bar. */
  predicate SpawnDue(w: World, input: Input)
  {
    (w.state.phase == Title || w.state.phase == GameOver) && input.spacebar
  }

  /** The colour draws of that spawn hold two different colours, so its
      colour loop ends. */
  predicate SpawnDrawAccepted(w: World, input: Input, d: SpawnDraw)
  {
    SpawnDue(w, input) ==> TwoColors(d.colors)
  }

  /** The running-game bookkeeping: a beaten high score is taken over and
      written to storage, then pause, shadow switch and level-up. */
  function PlayingUpdate(w: World, input: Input): (r: (World, Input))
  {
    var s := w.state;
    var beaten := s.currentScore > s.highestScore;
    var s1 := if beaten then s.(highestScore := s.currentScore) else s;
    var stored := if beaten then s.currentScore else w.storedHighScore;
    var s2 := if input.paused then s1.(phase := Pause) else s1;
    var in2 := if input.paused then input.(paused := false) else input;
    var s3 := if in2.shadowSwitch then s2.(shadowEnabled := s2.shadowEnabled * -1) else s2;
    var in3 := if in2.shadowSwitch then in2.(shadowSwitch := false) else in2;
    var s4 := if s3.currentScore >= s3.difficultyLevelStep
      then s3.(difficultyLevel := s3.difficultyLevel + 1, difficultyLevelStep := s3.difficultyLevelStep + 5)
      else s3;
    (w.(state := s4, storedHighScore := stored), in3)
  }

  /** GameState::update. The title screen and the game-over screen start a
      game on the space bar (the latter after clearing the board and resetting
      score and level), both reading the stored high score; a running game
      keeps its books and may pause; a paused game resumes on the pause key.
      Each intent acted on is consumed. */
  function Update(w: World, input: Input, d: SpawnDraw): (r: (World, Input))
    requires IsGenerated(w.next) && SpawnDrawAccepted(w, input, d)
    ensures IsGenerated(r.0.next)
    ensures r.0.state.phase == (match w.state.phase
      case Title => if input.spacebar then Playing else Title
      case Playing => if input.paused then Pause else Playing
      case Pause => if input.paused then Playing else Pause
      case GameOver => if input.spacebar then Playing else GameOver)
    ensures (w.state.phase == Title || w.state.phase == GameOver) && !input.spacebar ==> r == (w, input)
    ensures SpawnDue(w, input) ==>
      && SameIdentity(r.0.active, w.next) && r.0.next.colorId != w.active.colorId
      && r.0.state.highestScore == w.storedHighScore
      && r.0.storedHighScore == w.storedHighScore
      && r.0.state.shadowEnabled == w.state.shadowEnabled
      && r.1 == input.(spacebar := false)
    ensures w.state.phase == Title && input.spacebar ==>
      && r.0.grid == w.grid
      && r.0.state == w.state.(phase := Playing, highestScore := w.storedHighScore)
    ensures w.state.phase == Playing ==>
      && r.0.state.highestScore >= r.0.state.currentScore
      && r.0.state.highestScore >= w.state.highestScore
      && (r.0.state.highestScore == w.state.highestScore || r.0.state.highestScore == w.state.currentScore)
      && (r.0.storedHighScore == w.storedHighScore || r.0.storedHighScore == r.0.state.highestScore)
      && r.0.state.currentScore == w.state.currentScore
      && r.0.state.difficultyLevel - w.state.difficultyLevel
         == (if w.state.currentScore >= w.state.difficultyLevelStep then 1 else 0)
      && r.0.state.shadowEnabled == (if input.shadowSwitch then -w.state.shadowEnabled else w.state.shadowEnabled)
      && r.1 == input.(paused := false, shadowSwitch := false)
      && (r.0.grid, r.0.active, r.0.next) == (w.grid, w.active, w.next)
    ensures w.state.phase == Pause ==>
      r.0 == (if input.paused then w.(state := w.state.(phase := Playing)) else w)
      && r.1 == input.(paused := false)
  {
    match w.state.phase
    case Title =>
      if input.spacebar then
        var (active, next) := SessionSpawn(w.active, w.next, d);
        (w.(active := active, next := next,
            state := w.state.(phase := Playing, highestScore := w.storedHighScore)),
         input.(spacebar := false))
      else (w, input)
    case Playing =>
      PlayingUpdate(w, input)
    case Pause =>
      if input.paused then (w.(state := w.state.(phase := Playing)), input.(paused := false))
      else (w, input)
    case GameOver =>
      if input.spacebar then
        var (active, next) := SessionSpawn(w.active, w.next, d);
        (World(Clear(), active, next,
               w.state.(phase := Playing, currentScore := 0, difficultyLevel := 1,
                        difficultyLevelStep := 5, highestScore := w.storedHighScore),
               w.storedHighScore),
         input.(spacebar := false))
      else (w, input)
  }

  /** A game restarted from the game-over screen begins on an empty board at
      score 0 and level 1, with the stored high score and the shadow setting
      it had. */
  lemma RestartResets(w: World, input: Input, d: SpawnDraw)
    requires IsGenerated(w.next) && SpawnDrawAccepted(w, input, d)
    requires w.state.phase == GameOver && input.spacebar
    ensures var w1 := Update(w, input, d).0;
      && w1.state == GameState(Playing, 0, w.storedHighScore, 1, 5, w.state.shadowEnabled)
      && Occupancy(w1.grid) == 0
      && w1.storedHighScore == w.storedHighScore
  {
  }

  /** Pausing and resuming with no other intent gives back the running game
      as the pause found it. */
  lemma PauseRoundTrip(w: World)
    requires Inv(w) && w.state.phase == Playing
    requires w.state.currentScore <= w.state.highestScore
    requires w.state.currentScore < w.state.difficultyLevelStep
    ensures var paused := Update(w, NoInput.(paused := true), SpawnDraw(0, 0, [])).0;
      && paused.state.phase == Pause
      && Update(paused, NoInput.(paused := true), SpawnDraw(0, 0, [])).0 == w
  {
  }

  /** Switching the shadow twice restores it. */
  lemma ShadowSwitchTwice(w: World)
    requires Inv(w) && w.state.phase == Playing
    ensures var input := NoInput.(shadowSwitch := true);
      var w1 := Update(w, input, SpawnDraw(0, 0, [])).0;
      w1.state.phase == Playing
      ==> Update(w1, input, SpawnDraw(0, 0, [])).0.state.shadowEnabled == w.state.shadowEnabled
  {
  }

  /** The controller keeps the invariant. */
  lemma UpdatePreservesInvariant(w: World, input: Input, d: SpawnDraw)
    requires Inv(w) && SpawnDrawAccepted(w, input, d)
    ensures Inv(Update(w, input, d).0)
  {
    if SpawnDue(w, input) {
      var w1 := Update(w, input, d).0;
      SpawnPlacement(w1.grid, w.next, d.column);
      assert w1.active == Promote(w.next, d.column);
      if w.state.phase == GameOver {
        assert w1.grid == Clear();
      }
    }
  }

  /** One frame of the game loop: the controller's update, then the game
      logic's, on the intents the controller left. */
  function Frame(w: World, input: Input, d: SpawnDraw, gravityDue: bool,
                 first: SpawnDraw, second: SpawnDraw): (r: (Engine.Tick, Input))
    requires IsGenerated(w.next) && SpawnDrawAccepted(w, input, d)
    requires Engine.DrawsAccepted(first, second)
  {
    var (w1, in1) := Update(w, input, d);
    Engine.Update(w1, in1, gravityDue, first, second)
  }

  /** A frame of a world in which the invariant holds is defined and keeps the
      invariant, unless the rotation it performs strands the piece. */
  lemma FramePreservesInvariant(w: World, input: Input, d: SpawnDraw, gravityDue: bool,
                                first: SpawnDraw, second: SpawnDraw)
    requires Inv(w) && SpawnDrawAccepted(w, input, d)
    requires Engine.DrawsAccepted(first, second)
    requires Engine.TurnSafe(Update(w, input, d).0, Update(w, input, d).1)
    ensures Frame(w, input, d, gravityDue, first, second).0.Ok?
    ensures Inv(Frame(w, input, d, gravityDue, first, second).0.world)
  {
    UpdatePreservesInvariant(w, input, d);
    var (w1, in1) := Update(w, input, d);
    Engine.UpdatePreservesInvariant(w1, in1, gravityDue, first, second);
  }
}
