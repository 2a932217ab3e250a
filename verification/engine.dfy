/** The per-frame game logic (Logic::update) while a game is running: the
    sideways move, the rotation with its wall kick, the hard drop, and the
    gravity step, each followed by a lock when the piece can fall no
    further. Where the source would read or write outside the board the
    model stops with the fault instead of guessing a value. */
module Engine {
  import opened Piece
  import opened Board
  import opened Shapes
  import opened Collision
  import opened Lines
  import opened Spawn
  import opened GameWorld

  /** The two places the source's behaviour is undefined: a board read at a
      negative column (the mino scan of a piece left of the board) and a
      board write outside the board (placing a piece that is not inside). */
  datatype Fault = ReadOutsideGrid | WriteOutsideGrid

  /** The outcome of one logic update: the new world and the effects created
      by cleared rows, or the fault that makes the rest undefined. */
  datatype Tick = Ok(world: World, effects: seq<Effect>) | Undefined(fault: Fault)

  /** Every block lies on a board cell. */
  predicate InsideGrid(s: Blocks)
  {
    forall i :: 0 <= i < 4 ==> 0 <= s[i].x < Cols && 0 <= s[i].y < Rows
  }

  /** Logic::isAtTopRow */
  predicate IsAtTopRow(s: Blocks)
  {
    HasRow(s, 0)
  }

  /** Blocks i .. 3 written into the board in the given colour. */
  function Paint(g: Grid, s: Blocks, i: nat, colorId: int): (r: Grid)
    requires InsideGrid(s) && i <= 4
    ensures forall y, x :: 0 <= y < Rows && 0 <= x < Cols ==>
      r[y][x] == (if exists k :: i <= k < 4 && s[k] == Block(x, y) then colorId else g[y][x])
    decreases 4 - i
  {
    if i == 4 then g
    else
      var b := s[i];
      var painted := g[b.y := g[b.y][b.x := colorId]];
      Paint(painted, s, i + 1, colorId)
  }

  /** Logic::placeTetrominoHere: the cells under the piece take its colour and
      no other cell changes. */
  function PlaceTetrominoHere(g: Grid, t: Tetromino): (r: Grid)
    requires InsideGrid(t.current)
    ensures forall y, x :: 0 <= y < Rows && 0 <= x < Cols ==>
      r[y][x] == (if Block(x, y) in t.current then t.colorId else g[y][x])
  {
    var r := Paint(g, t.current, 0, t.colorId);
    assert forall b :: b in t.current <==> exists k :: 0 <= k < 4 && t.current[k] == b;
    r
  }

  /** The hard-drop distance stored on the piece after every action. Its scans
      read the board, so a piece left of the board in view makes it undefined. */
  function Recache(w: World, effects: seq<Effect>): (r: Tick)
    ensures r.Ok? <==> ScanReadsDefined(w.active.current)
    ensures r.Ok? ==> r.world.active.current == w.active.current && r.effects == effects
  {
    if ScanReadsDefined(w.active.current) then
      Ok(w.(active := w.active.(hardDropDistance := GetHardDropOffsetY(w.grid, w.active.current))), effects)
    else Undefined(ReadOutsideGrid)
  }

  /** A piece that can fall no further: at the top row the game is over and
      nothing else changes; otherwise it is written into the board, full rows
      are cleared and scored, and the next piece comes into play. */
  function Lock(w: World, t: Tetromino, d: SpawnDraw): (r: Tick)
    requires IsGenerated(w.next) && TwoColors(d.colors)
    ensures r.Undefined? <==> !IsAtTopRow(t.current) && !InsideGrid(t.current)
    ensures r.Undefined? ==> r.fault == WriteOutsideGrid
    ensures KeepsBooks(w, r)
    ensures IsAtTopRow(t.current) ==>
      && r.Ok? && r.world.state.phase == GameOver && r.effects == []
      && r.world.grid == w.grid && r.world.state.currentScore == w.state.currentScore
      && r.world.active == t && r.world.next == w.next
    ensures !IsAtTopRow(t.current) && InsideGrid(t.current) ==>
      && r.Ok? && r.world.state.phase == w.state.phase
      && (forall row :: 0 <= row < Rows ==> !FullRow(r.world.grid[row]))
      && Occupancy(r.world.grid) + Cols * (r.world.state.currentScore - w.state.currentScore)
         == Occupancy(PlaceTetrominoHere(w.grid, t))
      && SameIdentity(r.world.active, w.next)
      && IsGenerated(r.world.next) && r.world.next.colorId != r.world.active.colorId
  {
    if IsAtTopRow(t.current) then
      Ok(w.(active := t, state := w.state.(phase := GameOver)), [])
    else if !InsideGrid(t.current) then Undefined(WriteOutsideGrid)
    else
      var placed := PlaceTetrominoHere(w.grid, t);
      EffectsAreClearedCells(placed, 0);
      assert placed[0..] == placed;
      ClearedHasNoFullRow(placed);
      ClearedOccupancy(placed);
      Ok(PlaceAndSpawn(w, t, d), ClearEffects(placed))
  }

  /** A lock inside the board is the placement and spawn, with the effects
      of the cleared rows. */
  lemma LockPlaces(w: World, t: Tetromino, d: SpawnDraw)
    requires IsGenerated(w.next) && TwoColors(d.colors)
    requires !IsAtTopRow(t.current) && InsideGrid(t.current)
    ensures Lock(w, t, d) == Ok(PlaceAndSpawn(w, t, d), ClearEffects(PlaceTetrominoHere(w.grid, t)))
  {
  }

  /** The world after a lock inside the board: the piece placed, full rows
      cleared and scored, and the next piece in play. */
  function PlaceAndSpawn(w: World, t: Tetromino, d: SpawnDraw): (r: World)
    requires IsGenerated(w.next) && TwoColors(d.colors) && InsideGrid(t.current)
    ensures r.grid == ClearedGrid(PlaceTetrominoHere(w.grid, t))
    ensures r.state.(currentScore := w.state.currentScore) == w.state
    ensures r.state.currentScore - w.state.currentScore == FullRowCount(PlaceTetrominoHere(w.grid, t))
    ensures r.storedHighScore == w.storedHighScore
    ensures SameIdentity(r.active, w.next)
    ensures IsGenerated(r.next) && r.next.colorId != r.active.colorId
  {
    var placed := PlaceTetrominoHere(w.grid, t);
    var cleared := FullRowCount(placed);
    var (active, next) := LogicSpawn(w.next, d);
    World(ClearedGrid(placed), active, next,
          w.state.(currentScore := w.state.currentScore + cleared), w.storedHighScore)
  }

  /** What follows a drop: lock if the next row down is blocked, then (unless
      the game just ended) refresh the hard-drop distance. */
  function Settle(w: World, t: Tetromino, d: SpawnDraw): (r: Tick)
    requires IsGenerated(w.next) && TwoColors(d.colors)
  {
    if !IsPositionAfterNextDropValid(w.grid, t.current) then
      match Lock(w, t, d)
      case Undefined(f) => Undefined(f)
      case Ok(w1, effects) =>
        if w1.state.phase == GameOver then Ok(w1, effects) else Recache(w1, effects)
    else Recache(w.(active := t), [])
  }

  /** The sideways move: undone if the new position is invalid. */
  function ShiftStep(g: Grid, t: Tetromino, dx: int): Tetromino
  {
    var moved := MoveX(t, dx);
    if IsCurrentPositionValid(g, moved.current, 0) then moved else RestorePreviousPosition(moved)
  }

  /** The rotation: turn, then kick sideways back inside the columns if
      needed; if the result is invalid, undo the last backed-up move. After a
      kick that is the kick alone, so the piece stays turned and unkicked. */
  function TurnStep(g: Grid, t: Tetromino): Tetromino
  {
    var turned := Rotate(t);
    var kick := GetWallKickDistanceX(turned.current);
    var kicked := if kick != 0 then MoveX(turned, kick) else turned;
    if IsCurrentPositionValid(g, kicked.current, 0) then kicked else RestorePreviousPosition(kicked)
  }

  /** A rotation whose undo cannot leave the piece turned but unkicked: either
      no kick is needed or the kicked position is valid. */
  predicate RotationSafe(g: Grid, t: Tetromino)
  {
    var turned := Rotate(t);
    var kick := GetWallKickDistanceX(turned.current);
    kick == 0 || IsCurrentPositionValid(g, Shifted(turned.current, kick, 0), 0)
  }

  function MoveStep(w: World, dx: int): Tick
  {
    if dx != 0 then Recache(w.(active := ShiftStep(w.grid, w.active, dx)), []) else Ok(w, [])
  }

  function RotateStep(w: World, rotate: bool): Tick
  {
    if rotate then Recache(w.(active := TurnStep(w.grid, w.active)), []) else Ok(w, [])
  }

  function HardDropStep(w: World, spacebar: bool, d: SpawnDraw): (r: Tick)
    requires IsGenerated(w.next) && TwoColors(d.colors)
    ensures r.Ok? ==> r.world.next == w.next || (IsGenerated(r.world.next) && r.world.next.colorId != w.next.colorId)
  {
    if !spacebar then Ok(w, [])
    else if !ScanReadsDefined(w.active.current) then Undefined(ReadOutsideGrid)
    else Settle(w, DoHardDrop(w.grid, w.active), d)
  }

  function GravityStep(w: World, gravityDue: bool, d: SpawnDraw): (r: Tick)
    requires IsGenerated(w.next) && TwoColors(d.colors)
  {
    if !gravityDue then Ok(w, []) else Settle(w, StepDown(w.grid, w.active), d)
  }

  /** The draws of the two possible spawns of one update each hold two
      different colours, so each colour loop ends. */
  predicate DrawsAccepted(first: SpawnDraw, second: SpawnDraw)
  {
    TwoColors(first.colors) && TwoColors(second.colors)
  }

  /** The four actions of one running update in the source's order, stopping
      at a fault or at the end of the game. gravityDue stands for the drop
      timer having passed its delay. */
  function Run(w: World, input: Input, gravityDue: bool, first: SpawnDraw, second: SpawnDraw): Tick
    requires IsGenerated(w.next) && DrawsAccepted(first, second)
  {
    match MoveStep(w, input.moveX)
    case Undefined(f) => Undefined(f)
    case Ok(w1, _) =>
      match RotateStep(w1, input.rotate)
      case Undefined(f) => Undefined(f)
      case Ok(w2, _) =>
        match HardDropStep(w2, input.spacebar, first)
        case Undefined(f) => Undefined(f)
        case Ok(w3, e3) =>
          if w3.state.phase == GameOver then Ok(w3, e3)
          else
            match GravityStep(w3, gravityDue, second)
            case Undefined(f) => Undefined(f)
            case Ok(w4, e4) => Ok(w4, e3 + e4)
  }

  /** The bookkeeping of a defined outcome: the game logic leaves the level,
      its threshold, the shadow switch and both high scores alone, can only
      end the game, and scores one point per cleared row, that is per Cols
      effects. */
  predicate KeepsBooks(w: World, r: Tick)
  {
    r.Ok? ==>
      && r.world.state.(phase := w.state.phase, currentScore := w.state.currentScore) == w.state
      && r.world.state.phase in {w.state.phase, GameOver}
      && r.world.storedHighScore == w.storedHighScore
      && (r.world.state.currentScore - w.state.currentScore) * Cols == |r.effects|
  }

  /** Logic::update: nothing happens outside a running game; inside one the
      actions run, the move, rotate and hard-drop intents are consumed, and
      the only bookkeeping is the score for cleared rows and the end of the
      game. */
  function Update(w: World, input: Input, gravityDue: bool, first: SpawnDraw, second: SpawnDraw): (r: (Tick, Input))
    requires IsGenerated(w.next) && DrawsAccepted(first, second)
    ensures KeepsBooks(w, r.0)
    ensures r.0.Ok? ==> r.0.world.state.phase in {w.state.phase, GameOver}
    ensures r.0.Ok? ==> r.0.world.state.currentScore >= w.state.currentScore
    ensures w.state.phase != Playing ==> r == (Ok(w, []), input)
    ensures w.state.phase == Playing ==>
      r.1 == input.(moveX := 0, rotate := false, spacebar := false)
  {
    if w.state.phase != Playing then (Ok(w, []), input)
    else
      RunBooks(w, input, gravityDue, first, second);
      (Run(w, input, gravityDue, first, second), input.(moveX := 0, rotate := false, spacebar := false))
  }

  lemma SettleBooks(w: World, t: Tetromino, d: SpawnDraw)
    requires IsGenerated(w.next) && TwoColors(d.colors)
    ensures KeepsBooks(w, Settle(w, t, d))
  {
    if !IsPositionAfterNextDropValid(w.grid, t.current) {
      assert KeepsBooks(w, Lock(w, t, d));
    }
  }

  /** The four actions of a running update keep the books in turn. */
  lemma RunBooks(w: World, input: Input, gravityDue: bool, first: SpawnDraw, second: SpawnDraw)
    requires IsGenerated(w.next) && DrawsAccepted(first, second)
    ensures KeepsBooks(w, Run(w, input, gravityDue, first, second))
  {
    var m := MoveStep(w, input.moveX);
    if m.Ok? {
      var w1 := m.world;
      var t := RotateStep(w1, input.rotate);
      if t.Ok? {
        var w2 := t.world;
        if input.spacebar && ScanReadsDefined(w2.active.current) {
          SettleBooks(w2, DoHardDrop(w2.grid, w2.active), first);
        }
        var h := HardDropStep(w2, input.spacebar, first);
        if h.Ok? && h.world.state.phase != GameOver {
          var w3 := h.world;
          if gravityDue {
            SettleBooks(w3, StepDown(w3.grid, w3.active), second);
          }
        }
      }
    }
  }

  /** A settled piece that is blocked one row down but not on the top row
      lies wholly inside the board, at row 1 or below. Some block rests on
      the floor or on an occupied cell, which cannot be on the empty top row,
      so that block is at row 0 or below; none is on row 0; and the piece's
      rows have no gap, so none can be above row 0 either. Hence the lock
      writes only board cells. */
  lemma SettledLockIsDefined(g: Grid, t: Tetromino)
    requires TopRowEmpty(g) && Settled(g, t)
    requires !IsPositionAfterNextDropValid(g, t.current) && !IsAtTopRow(t.current)
    ensures InsideGrid(t.current)
    ensures forall i :: 0 <= i < 4 ==> 1 <= t.current[i].y
  {
    var s := t.current;
    var j :| 0 <= j < 4 && !Fits(g, s[j], 1);
    forall i | 0 <= i < 4
      ensures 1 <= s[i].y
    {
    }
  }

  /** Painting distinct empty cells in a piece colour adds one occupied cell
      per block painted. */
  lemma {:induction false} PaintFillsCells(g: Grid, s: Blocks, i: nat, colorId: int)
    requires InsideGrid(s) && Distinct(s) && i <= 4 && colorId != 0
    requires forall k :: i <= k < 4 ==> g[s[k].y][s[k].x] == 0
    ensures Occupancy(Paint(g, s, i, colorId)) == Occupancy(g) + (4 - i)
    decreases 4 - i
  {
    if i < 4 {
      var b := s[i];
      var painted := g[b.y := g[b.y][b.x := colorId]];
      FillCell(g, b.x, b.y, colorId);
      assert forall k :: i < k < 4 ==> painted[s[k].y][s[k].x] == 0 by {
        assert forall k :: i < k < 4 ==> s[k] != s[i];
      }
      PaintFillsCells(painted, s, i + 1, colorId);
    }
  }

  /** Locking a settled piece adds its four cells to the board, and every
      point scored removes one full row of Cols cells: the cells on the board
      afterwards plus Cols per point scored are the cells before plus four. */
  lemma LockConservesCells(w: World, t: Tetromino, d: SpawnDraw)
    requires Inv(w) && Settled(w.grid, t)
    requires TwoColors(d.colors)
    requires !IsPositionAfterNextDropValid(w.grid, t.current) && !IsAtTopRow(t.current)
    ensures Lock(w, t, d).Ok?
    ensures Occupancy(Lock(w, t, d).world.grid) + Cols * (Lock(w, t, d).world.state.currentScore - w.state.currentScore)
      == Occupancy(w.grid) + 4
  {
    SettledLockIsDefined(w.grid, t);
    var placed := PlaceTetrominoHere(w.grid, t);
    assert forall k :: 0 <= k < 4 ==> w.grid[t.current[k].y][t.current[k].x] == 0 by {
      assert forall k :: 0 <= k < 4 ==> Fits(w.grid, t.current[k], 0);
    }
    PaintFillsCells(w.grid, t.current, 0, t.colorId);
    ClearedOccupancy(placed);
  }

  /** A running game whose invariant holds. */
  predicate Running(w: World)
  {
    Inv(w) && w.state.phase == Playing
  }

  /** Refreshing the hard-drop distance of a settled piece is defined and
      changes nothing else the invariant looks at. */
  lemma RecacheKeeps(w: World, effects: seq<Effect>)
    requires Running(w)
    ensures Recache(w, effects).Ok?
    ensures var w1 := Recache(w, effects).world;
      Running(w1) && w1.grid == w.grid && w1.next == w.next && w1.state == w.state
      && SameIdentity(w1.active, w.active)
  {
  }

  /** Placing a settled piece that can fall no further, below the top row,
      and clearing full rows keeps the board's shape. */
  lemma PlacementKeepsShape(g: Grid, t: Tetromino)
    requires TopRowEmpty(g) && PaletteOnly(g) && Settled(g, t)
    requires !IsPositionAfterNextDropValid(g, t.current) && !IsAtTopRow(t.current)
    ensures InsideGrid(t.current)
    ensures TopRowEmpty(ClearedGrid(PlaceTetrominoHere(g, t)))
    ensures PaletteOnly(ClearedGrid(PlaceTetrominoHere(g, t)))
  {
    SettledLockIsDefined(g, t);
    var placed := PlaceTetrominoHere(g, t);
    assert TopRowEmpty(placed) by {
      forall c | 0 <= c < Cols
        ensures placed[0][c] == 0
      {
        assert Block(c, 0) !in t.current;
      }
    }
    ClearedKeepsShape(placed);
  }

  /** A lock below the top row of a settled piece is defined and brings the
      next piece into play settled, on a board that keeps its shape. */
  lemma LockKeeps(w: World, t: Tetromino, d: SpawnDraw)
    requires Running(w) && Settled(w.grid, t)
    requires TwoColors(d.colors)
    requires !IsPositionAfterNextDropValid(w.grid, t.current) && !IsAtTopRow(t.current)
    ensures Lock(w, t, d).Ok?
    ensures Running(Lock(w, t, d).world)
    ensures !IsTetrominoInViewPort(Lock(w, t, d).world.active.current)
  {
    PlacementKeepsShape(w.grid, t);
    LockPlaces(w, t, d);
    PlaceAndSpawnKeeps(w, t, d);
  }

  /** A placement that keeps the board's shape, followed by the spawn, keeps
      the game running with the new piece above the board. */
  lemma PlaceAndSpawnKeeps(w: World, t: Tetromino, d: SpawnDraw)
    requires Running(w) && TwoColors(d.colors) && InsideGrid(t.current)
    requires TopRowEmpty(ClearedGrid(PlaceTetrominoHere(w.grid, t)))
    requires PaletteOnly(ClearedGrid(PlaceTetrominoHere(w.grid, t)))
    ensures Running(PlaceAndSpawn(w, t, d))
    ensures !IsTetrominoInViewPort(PlaceAndSpawn(w, t, d).active.current)
  {
    var w1 := PlaceAndSpawn(w, t, d);
    SpawnPlacement(w1.grid, w.next, d.column);
    assert w1.active == Promote(w.next, d.column);
    assert w1.active.current[0].y < 0;
  }

  /** What follows a drop keeps the invariant when the dropped piece is
      settled: a lock at the top ends the game, any other lock is defined,
      and the next piece comes into play settled. */
  lemma SettleKeeps(w: World, t: Tetromino, d: SpawnDraw)
    requires Running(w) && Settled(w.grid, t)
    requires TwoColors(d.colors)
    ensures Settle(w, t, d).Ok?
    ensures Inv(Settle(w, t, d).world)
    ensures Settle(w, t, d).world.state.phase in {Playing, GameOver}
  {
    if !IsPositionAfterNextDropValid(w.grid, t.current) {
      if !IsAtTopRow(t.current) {
        LockKeeps(w, t, d);
        RecacheKeeps(Lock(w, t, d).world, Lock(w, t, d).effects);
      }
    } else {
      RecacheKeeps(w.(active := t), []);
    }
  }

  /** The sideways move keeps the invariant and touches only the piece. */
  lemma MoveStepKeeps(w: World, dx: int)
    requires Running(w)
    ensures MoveStep(w, dx).Ok?
    ensures var w1 := MoveStep(w, dx).world;
      Running(w1) && w1.grid == w.grid && w1.next == w.next && w1.state == w.state
  {
    if dx != 0 {
      var t := ShiftStep(w.grid, w.active, dx);
      ShiftedGapless(w.active.current, dx, 0);
      ShiftedDistinct(w.active.current, dx, 0);
      assert Settled(w.grid, t);
      RecacheKeeps(w.(active := t), []);
    }
  }

  /** A safe rotation keeps the invariant and touches only the piece. */
  lemma RotateStepKeeps(w: World, rotate: bool)
    requires Running(w)
    requires rotate ==> RotationSafe(w.grid, w.active)
    ensures RotateStep(w, rotate).Ok?
    ensures var w1 := RotateStep(w, rotate).world;
      Running(w1) && w1.grid == w.grid && w1.next == w.next && w1.state == w.state
  {
    if rotate {
      var g := w.grid;
      var t := w.active;
      var turned := Rotate(t);
      var kick := GetWallKickDistanceX(turned.current);
      RotateGapless(t);
      RotateDistinct(t);
      if t.rotationIndex < 0 {
        RotateWithoutPivot(t);
        assert kick == 0;
      }
      ShiftedGapless(turned.current, kick, 0);
      ShiftedDistinct(turned.current, kick, 0);
      assert Settled(g, TurnStep(g, t));
      RecacheKeeps(w.(active := TurnStep(g, t)), []);
    }
  }

  /** The hard drop keeps the invariant. */
  lemma HardDropStepKeeps(w: World, spacebar: bool, d: SpawnDraw)
    requires Running(w)
    requires TwoColors(d.colors)
    ensures HardDropStep(w, spacebar, d).Ok?
    ensures Inv(HardDropStep(w, spacebar, d).world)
    ensures HardDropStep(w, spacebar, d).world.state.phase in {Playing, GameOver}
  {
    if spacebar {
      var t := DoHardDrop(w.grid, w.active);
      if IsTetrominoInViewPort(w.active.current) {
        DoHardDropLands(w.grid, w.active);
        var dist := GetHardDropOffsetY(w.grid, w.active.current);
        ShiftedGapless(w.active.current, 0, dist);
        ShiftedDistinct(w.active.current, 0, dist);
        if dist == 0 {
          assert t == w.active;
        }
      }
      assert Settled(w.grid, t);
      SettleKeeps(w, t, d);
    }
  }

  /** The gravity step keeps the invariant. */
  lemma GravityStepKeeps(w: World, gravityDue: bool, d: SpawnDraw)
    requires Running(w)
    requires TwoColors(d.colors)
    ensures GravityStep(w, gravityDue, d).Ok?
    ensures Inv(GravityStep(w, gravityDue, d).world)
  {
    if gravityDue {
      var t := StepDown(w.grid, w.active);
      ShiftedGapless(w.active.current, 0, 1);
      ShiftedDistinct(w.active.current, 0, 1);
      assert Settled(w.grid, t);
      SettleKeeps(w, t, d);
    }
  }

  /** The piece the rotation acts on: the active piece after the sideways
      move, if any. */
  function PieceAfterMove(w: World, dx: int): Tetromino
  {
    if dx != 0 then ShiftStep(w.grid, w.active, dx) else w.active
  }

  /** Rotation is the one action that can break the invariant: when the
      kicked position is invalid, the undo leaves the piece turned and
      unkicked, possibly outside the columns or on occupied cells. */
  predicate TurnSafe(w: World, input: Input)
  {
    input.rotate ==> RotationSafe(w.grid, PieceAfterMove(w, input.moveX))
  }

  /** One logic update of a world in which the invariant holds is defined
      and keeps the invariant, unless a rotation's undo strands the piece. */
  lemma UpdatePreservesInvariant(w: World, input: Input, gravityDue: bool, first: SpawnDraw, second: SpawnDraw)
    requires Inv(w) && DrawsAccepted(first, second) && TurnSafe(w, input)
    ensures Update(w, input, gravityDue, first, second).0.Ok?
    ensures Inv(Update(w, input, gravityDue, first, second).0.world)
  {
    if w.state.phase == Playing {
      MoveStepKeeps(w, input.moveX);
      var w1 := MoveStep(w, input.moveX).world;
      assert w1.active.current == PieceAfterMove(w, input.moveX).current;
      RotateStepKeeps(w1, input.rotate);
      var w2 := RotateStep(w1, input.rotate).world;
      HardDropStepKeeps(w2, input.spacebar, first);
      var w3 := HardDropStep(w2, input.spacebar, first).world;
      if w3.state.phase != GameOver {
        GravityStepKeeps(w3, gravityDue, second);
      }
    }
  }

  /** A running world whose rotation step faults is stranded by a lone
      rotation intent. */
  lemma FaultingRotationStrands(w: World, first: SpawnDraw, second: SpawnDraw)
    requires Running(w) && DrawsAccepted(first, second)
    requires RotateStep(w, true) == Undefined(ReadOutsideGrid)
    ensures StrandedByRotation(w, first, second)
  {
    RotationFaultEndsUpdate(w, false, first, second);
  }

  /** A lone rotation intent in a running game: a fault of the rotation's
      refresh ends the update. */
  lemma RotationFaultEndsUpdate(w: World, gravityDue: bool, first: SpawnDraw, second: SpawnDraw)
    requires IsGenerated(w.next) && DrawsAccepted(first, second) && w.state.phase == Playing
    requires RotateStep(w, true).Undefined?
    ensures Update(w, NoInput.(rotate := true), gravityDue, first, second).0 == RotateStep(w, true)
  {
    assert MoveStep(w, 0) == Ok(w, []);
  }

  /** A lone rotation intent in a running game with the drop timer due: when
      the rotation is defined and the gravity step is not, the update ends in
      the gravity step's fault. */
  lemma GravityFaultEndsUpdate(w: World, first: SpawnDraw, second: SpawnDraw)
    requires IsGenerated(w.next) && DrawsAccepted(first, second) && w.state.phase == Playing
    requires RotateStep(w, true).Ok?
    ensures var w2 := RotateStep(w, true).world;
      && IsGenerated(w2.next)
      && (GravityStep(w2, true, second).Undefined? ==>
            Update(w, NoInput.(rotate := true), true, first, second).0 == GravityStep(w2, true, second))
  {
    assert MoveStep(w, 0) == Ok(w, []);
    var w2 := RotateStep(w, true).world;
    assert HardDropStep(w2, false, first) == Ok(w2, []);
  }

  /** A vertical I piece against the left wall, rows 5 to 8, with the cell
      at column 3 of row 7 holding the colour blocker. */
  function KickExample(blocker: int): World
  {
    var empty := Clear();
    var piece := [Block(0, 5), Block(0, 6), Block(0, 7), Block(0, 8)];
    World(empty[7 := empty[7][3 := blocker]],
          Tetromino(piece, piece, 2, ShapeI, FirstActiveColor, 0),
          Tetromino(ShapeBlocks(ShapeO), Origin, ShapePivot(ShapeO), ShapeO, FirstActiveColor + 1, -1),
          GameState(Playing, 0, 0, 1, 5, 1), 0)
  }

  lemma KickExampleRuns(blocker: int)
    requires ActiveColor(blocker)
    ensures Running(KickExample(blocker))
  {
    var w := KickExample(blocker);
    var empty := Clear();
    assert w.grid[0] == empty[0];
    assert w.active.current == Shifted(ShapeBlocks(ShapeI), 0, 5);
    ShapeFacts(ShapeI);
    ShiftedGapless(ShapeBlocks(ShapeI), 0, 5);
  }

  /** The turned I piece lies across columns -1 .. 2 of row 7. */
  lemma KickExampleTurns(blocker: int)
    ensures Rotate(KickExample(blocker).active).current == [Block(2, 7), Block(1, 7), Block(0, 7), Block(-1, 7)]
  {
  }

  lemma KickExampleStrands(blocker: int)
    requires blocker != 0
    ensures var w := KickExample(blocker);
      TurnStep(w.grid, w.active).current == [Block(2, 7), Block(1, 7), Block(0, 7), Block(-1, 7)]
  {
    var w := KickExample(blocker);
    KickExampleTurns(blocker);
    var turned := Rotate(w.active);
    assert GetWallKickDistanceX(turned.current) == 1;
    var kicked := MoveX(turned, 1);
    assert kicked.current[0] == Block(3, 7);
    assert !Fits(w.grid, kicked.current[0], 0);
  }

  /** Spawn draws for the examples: any column and shape, colours 9 then 10. */
  const ExampleDraw: SpawnDraw := SpawnDraw(0, 0, [0, 1])

  lemma ExampleDrawAccepted()
    ensures DrawsAccepted(ExampleDraw, ExampleDraw)
  {
    assert DrawColor(ExampleDraw.colors[0]) != DrawColor(ExampleDraw.colors[1]);
  }

  /** The rollback after a failed wall kick is not total. A vertical I piece
      against the left wall turns to lie across columns -1 .. 2; the kick
      moves it one column right, onto an occupied cell; the undo takes back
      only the kick, and the refreshed hard-drop distance then reads column
      -1 of the board. */
  lemma KickRollbackIsPartial(blocker: int)
    requires ActiveColor(blocker)
    ensures StrandedByRotation(KickExample(blocker), ExampleDraw, ExampleDraw)
  {
    ExampleDrawAccepted();
    KickExampleRuns(blocker);
    KickExampleFaults(blocker);
    FaultingRotationStrands(KickExample(blocker), ExampleDraw, ExampleDraw);
  }

  /** A running world with accepted draws in which a lone rotation intent
      makes the update undefined. */
  predicate StrandedByRotation(w: World, first: SpawnDraw, second: SpawnDraw)
  {
    && Running(w) && DrawsAccepted(first, second)
    && Update(w, NoInput.(rotate := true), false, first, second).0 == Undefined(ReadOutsideGrid)
  }

  /** In the example, the rotation's refresh of the hard-drop distance is
      undefined. */
  lemma KickExampleFaults(blocker: int)
    requires blocker != 0
    ensures RotateStep(KickExample(blocker), true) == Undefined(ReadOutsideGrid)
  {
    KickExampleStrands(blocker);
    StrandedLeftFaults(KickExample(blocker));
  }

  /** A piece turned to lie across columns -1 .. 2 of row 7 is in view and
      above the last row, so the refresh of its hard-drop distance would read
      column -1. */
  lemma StrandedLeftFaults(w: World)
    requires TurnStep(w.grid, w.active).current == [Block(2, 7), Block(1, 7), Block(0, 7), Block(-1, 7)]
    ensures RotateStep(w, true) == Undefined(ReadOutsideGrid)
  {
    var stranded := TurnStep(w.grid, w.active).current;
    assert IsTetrominoInViewPort(stranded);
    assert GetLowestYoffset(stranded) == 7;
    assert !ScanReadsDefined(stranded);
  }

  /** The mirror image against the right wall: a vertical I piece in column
      9, rows 5 to 8, with the cell at column 6 of row 7 holding the colour
      blocker. */
  function WallExample(blocker: int): World
  {
    var empty := Clear();
    var piece := [Block(9, 5), Block(9, 6), Block(9, 7), Block(9, 8)];
    World(empty[7 := empty[7][6 := blocker]],
          Tetromino(piece, piece, 2, ShapeI, FirstActiveColor, 0),
          Tetromino(ShapeBlocks(ShapeO), Origin, ShapePivot(ShapeO), ShapeO, FirstActiveColor + 1, -1),
          GameState(Playing, 0, 0, 1, 5, 1), 0)
  }

  lemma WallExampleRuns(blocker: int)
    requires ActiveColor(blocker)
    ensures Running(WallExample(blocker))
  {
    var w := WallExample(blocker);
    var empty := Clear();
    assert w.grid[0] == empty[0];
    assert w.active.current == Shifted(ShapeBlocks(ShapeI), 9, 5);
    ShapeFacts(ShapeI);
    ShiftedGapless(ShapeBlocks(ShapeI), 9, 5);
  }

  /** The turned piece lies across columns 8 .. 11 of row 7; the kick two
      columns left lands on the occupied cell, and the undo leaves the piece
      turned and unkicked, two blocks right of the board. */
  lemma WallExampleStrands(blocker: int)
    requires blocker != 0
    ensures var w := WallExample(blocker);
      TurnStep(w.grid, w.active).current == [Block(11, 7), Block(10, 7), Block(9, 7), Block(8, 7)]
  {
    var w := WallExample(blocker);
    var turned := Rotate(w.active);
    assert turned.current == [Block(11, 7), Block(10, 7), Block(9, 7), Block(8, 7)];
    assert GetWallKickDistanceX(turned.current) == -2;
    var kicked := MoveX(turned, -2);
    assert kicked.current[3] == Block(6, 7);
    assert !Fits(w.grid, kicked.current[3], 0);
  }

  /** A piece turned to lie right of the board still has defined scans, so
      the rotation step keeps it and changes nothing but the piece. */
  lemma StrandedRightRotates(w: World)
    requires TurnStep(w.grid, w.active).current == [Block(11, 7), Block(10, 7), Block(9, 7), Block(8, 7)]
    ensures RotateStep(w, true).Ok?
    ensures RotateStep(w, true).world.active.current == TurnStep(w.grid, w.active).current
    ensures RotateStep(w, true).world.grid == w.grid
  {
    var t := TurnStep(w.grid, w.active);
    assert ScanReadsDefined(t.current) by {
      assert forall i :: 0 <= i < 4 ==> 0 <= t.current[i].x;
    }
  }

  /** The next gravity step cannot move the stranded piece, so it locks where
      it is, and the placement writes outside the board. */
  lemma WallExampleLocksOutside(w: World, d: SpawnDraw)
    requires IsGenerated(w.next) && TwoColors(d.colors)
    requires w.active.current == [Block(11, 7), Block(10, 7), Block(9, 7), Block(8, 7)]
    ensures GravityStep(w, true, d) == Undefined(WriteOutsideGrid)
  {
    var t := StepDown(w.grid, w.active);
    assert DropDown(w.active).current[0] == Block(11, 8);
    assert !Fits(w.grid, DropDown(w.active).current[0], 0);
    assert t.current == w.active.current;
    assert !IsPositionAfterNextDropValid(w.grid, t.current);
    assert !IsAtTopRow(t.current) && !InsideGrid(t.current);
  }

  /** A running world whose rotation strands the piece right of the board
      faults at the next gravity step. */
  lemma StrandedRightFaults(w: World, first: SpawnDraw, second: SpawnDraw)
    requires Running(w) && DrawsAccepted(first, second)
    requires TurnStep(w.grid, w.active).current == [Block(11, 7), Block(10, 7), Block(9, 7), Block(8, 7)]
    ensures Update(w, NoInput.(rotate := true), true, first, second).0 == Undefined(WriteOutsideGrid)
  {
    StrandedRightRotates(w);
    GravityFaultEndsUpdate(w, first, second);
    WallExampleLocksOutside(RotateStep(w, true).world, second);
  }

  /** A piece stranded by the partial rollback can reach the placement: in a
      running world, a rotation followed by a gravity step writes outside the
      board. */
  lemma StrandedPieceWritesOutside(blocker: int)
    requires ActiveColor(blocker)
    ensures Running(WallExample(blocker)) && DrawsAccepted(ExampleDraw, ExampleDraw)
      && Update(WallExample(blocker), NoInput.(rotate := true), true, ExampleDraw, ExampleDraw).0
         == Undefined(WriteOutsideGrid)
  {
    WallExampleRuns(blocker);
    ExampleDrawAccepted();
    WallExampleStrands(blocker);
    StrandedRightFaults(WallExample(blocker), ExampleDraw, ExampleDraw);
  }
}
