/** Bringing the next piece into play: it is lifted just above the board,
    moved to a random column, and a fresh next piece is generated. The engine
    and the game-state controller each have their own copy of this step; they
    differ in which colour the fresh piece must avoid and in the engine's
    retry loop. */
module Spawn {
  import opened Piece
  import opened Board
  import opened Shapes
  import opened Collision

  /** The random draws one spawn consumes: the column offset, then the shape
      and the colour draws of the fresh next piece. */
  datatype SpawnDraw = SpawnDraw(column: nat, shape: nat, colors: seq<nat>)

  /** How far a piece is lifted: 4 for the I, 2 for the O, 3 otherwise. */
  function RiseFor(shapeId: int): int
  {
    if shapeId == ShapeI then 4 else if shapeId == ShapeO then 2 else 3
  }

  /** The column offset a draw stands for: 1 .. Cols-2. */
  function ColumnOffset(draw: nat): (c: int)
    ensures 1 <= c <= Cols - 2
  {
    draw % (Cols - 2) + 1
  }

  /** The next piece lifted above the board and moved to the drawn column. */
  function Promote(next: Tetromino, column: nat): Tetromino
  {
    MoveX(MoveUp(next, RiseFor(next.shapeId)), ColumnOffset(column))
  }

  /** A freshly generated piece is lifted by exactly its height, so its lowest
      blocks land on row -1, and the drawn column keeps it inside the board:
      the spawn position is valid on any board, and the shape stays gapless. */
  lemma SpawnPlacement(g: Grid, next: Tetromino, column: nat)
    requires IsGenerated(next)
    ensures var t := Promote(next, column);
      && SameIdentity(t, next)
      && t.current == Shifted(ShapeBlocks(next.shapeId), ColumnOffset(column), -ShapeHeight(next.shapeId))
      && (forall i :: 0 <= i < 4 ==> t.current[i].y < 0)
      && HasRow(t.current, -1)
      && (forall i :: 0 <= i < 4 ==> 1 <= t.current[i].x <= Cols - 1)
      && IsCurrentPositionValid(g, t.current, 0)
      && Gapless(t.current)
      && Distinct(t.current)
  {
    var s := next.shapeId;
    ShapeFacts(s);
    var t := Promote(next, column);
    var b := ShapeBlocks(s);
    var h := ShapeHeight(s);
    assert RiseFor(s) == h;
    assert t.current == Shifted(Shifted(b, 0, -h), ColumnOffset(column), 0);
    assert t.current == Shifted(b, ColumnOffset(column), -h);
    assert b[3].y == h - 1;
    assert t.current[3].y == -1;
    AboveBoardIsValid(g, t.current);
    ShiftedGapless(b, ColumnOffset(column), -h);
    ShiftedDistinct(b, ColumnOffset(column), -h);
  }

  /** Logic::generateNewTetromino's do-while: move sideways by the next draw
      until the position is valid. Each retry moves on from the previous
      attempt. None when the draws run out first. */
  function ColumnRetry(g: Grid, t: Tetromino, draws: seq<nat>): (r: Option<Tetromino>)
    ensures r.Some? ==> IsCurrentPositionValid(g, r.value.current, 0) && SameIdentity(r.value, t)
    decreases |draws|
  {
    if |draws| == 0 then None
    else
      var moved := MoveX(t, ColumnOffset(draws[0]));
      if IsCurrentPositionValid(g, moved.current, 0) then Some(moved)
      else ColumnRetry(g, moved, draws[1..])
  }

  /** The retry loop never repeats: the first column drawn is always valid. */
  lemma RetryExitsAtOnce(g: Grid, next: Tetromino, draws: seq<nat>)
    requires IsGenerated(next) && |draws| > 0
    ensures ColumnRetry(g, MoveUp(next, RiseFor(next.shapeId)), draws) == Some(Promote(next, draws[0]))
  {
    SpawnPlacement(g, next, draws[0]);
  }

  /** Logic::generateNewTetromino: the next piece is promoted and a fresh one
      generated, avoiding the colour of the piece it promotes. So the new
      active and next pieces always differ in colour. */
  function LogicSpawn(next: Tetromino, d: SpawnDraw): (r: (Tetromino, Tetromino))
    requires IsGenerated(next) && TwoColors(d.colors)
    ensures SameIdentity(r.0, next)
    ensures IsGenerated(r.1) && r.1.shapeId == d.shape % 7 + 1
    ensures r.1.colorId != r.0.colorId
  {
    var lastColorId := next.colorId;
    (Promote(next, d.column), GetTetromino(d.shape, d.colors, lastColorId))
  }

  /** GameState::generateNewTetromino: the same promotion without a retry
      loop, but the fresh piece only has to differ in colour from the piece
      being replaced. */
  function SessionSpawn(active: Tetromino, next: Tetromino, d: SpawnDraw): (r: (Tetromino, Tetromino))
    requires IsGenerated(next) && TwoColors(d.colors)
    ensures SameIdentity(r.0, next)
    ensures IsGenerated(r.1) && r.1.shapeId == d.shape % 7 + 1
    ensures r.1.colorId != active.colorId
  {
    var lastColorId := active.colorId;
    (Promote(next, d.column), GetTetromino(d.shape, d.colors, lastColorId))
  }

  /** Unlike the engine's spawn, the controller's spawn can leave the new
      active piece and the new next piece in the same colour: with the
      replaced piece in colour 9 and the next piece in colour 10, the draws
      10, 9 give the fresh piece colour 10 again, where the engine's spawn
      on the same draws picks 9. */
  lemma SessionSpawnMayRepeatColor()
    ensures exists active: Tetromino, next: Tetromino, d: SpawnDraw ::
      && IsGenerated(next) && TwoColors(d.colors)
      && SessionSpawn(active, next, d).0.colorId == SessionSpawn(active, next, d).1.colorId
      && LogicSpawn(next, d).1.colorId != SessionSpawn(active, next, d).1.colorId
  {
    var draws: seq<nat> := [1, 0];
    assert DrawColor(draws[0]) == 10 && DrawColor(draws[1]) == 9;
    assert TwoColors(draws);
    var next := GetTetromino(0, draws, 9);
    var active := next.(colorId := 9);
    var d := SpawnDraw(0, 0, draws);
    assert next.colorId == 10;
    assert SessionSpawn(active, next, d).1.colorId == 10;
    assert LogicSpawn(next, d).1.colorId == 9;
  }
}
