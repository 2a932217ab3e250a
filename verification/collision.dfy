/** Collision and drop distance: the validity test every move is checked
    against, the two scans whose minimum is the hard-drop distance, the
    step-by-step hard drop, and the one-shot horizontal wall kick. */
module Collision {
  import opened Piece
  import opened Board

  function Max(a: int, b: int): int
  {
    if a >= b then a else b
  }

  /** One block, offsetY rows lower, lies inside the columns, above the floor,
      and, once it has entered the board, on a cell that reads as empty. */
  predicate Fits(g: Grid, b: Block, offsetY: int)
  {
    && 0 <= b.x < Cols
    && b.y + offsetY < Rows
    && (b.y + offsetY >= 0 ==> !Occupied(g, b.x, b.y + offsetY))
  }

  /** Logic::isCurrentPositionValid: every block fits offsetY rows lower.
      Blocks still above row 0 are never obstructed by the board. */
  predicate IsCurrentPositionValid(g: Grid, s: Blocks, offsetY: int)
  {
    forall i :: 0 <= i < 4 ==> Fits(g, s[i], offsetY)
  }

  /** Logic::isPositionAfterNextDropValid */
  predicate IsPositionAfterNextDropValid(g: Grid, s: Blocks)
  {
    IsCurrentPositionValid(g, s, 1)
  }

  /** Every block lies in a board column. */
  predicate InColumns(s: Blocks)
  {
    forall i :: 0 <= i < 4 ==> 0 <= s[i].x < Cols
  }

  /** Testing a piece k rows lower is testing the piece moved down k rows. */
  lemma ValidityOfShifted(g: Grid, s: Blocks, k: int, offsetY: int)
    ensures IsCurrentPositionValid(g, Shifted(s, 0, k), offsetY) <==> IsCurrentPositionValid(g, s, offsetY + k)
  {
    var r := Shifted(s, 0, k);
    assert forall i :: 0 <= i < 4 ==> (Fits(g, r[i], offsetY) <==> Fits(g, s[i], offsetY + k));
  }

  /** A piece whose blocks are all in the columns and above row 0 is valid on
      any board. */
  lemma AboveBoardIsValid(g: Grid, s: Blocks)
    requires InColumns(s)
    requires forall i :: 0 <= i < 4 ==> s[i].y < 0
    ensures IsCurrentPositionValid(g, s, 0)
  {
  }

  /** Logic::isTetrominoInViewPort: no block above row 0. */
  predicate IsTetrominoInViewPort(s: Blocks)
  {
    forall i :: 0 <= i < 4 ==> s[i].y >= 0
  }

  function Lower(lowest: int, y: int): int
  {
    if y > lowest then y else lowest
  }

  /** Logic::getLowestYoffset: the largest row of any block, starting the
      search from -10. */
  function GetLowestYoffset(s: Blocks): (r: int)
    ensures r >= -10
    ensures forall i :: 0 <= i < 4 ==> s[i].y <= r
    ensures r == -10 || HasRow(s, r)
  {
    var r := Lower(Lower(Lower(Lower(-10, s[0].y), s[1].y), s[2].y), s[3].y);
    assert r == -10 || r == s[0].y || r == s[1].y || r == s[2].y || r == s[3].y;
    r
  }

  /** Some block would be on the last row or below it, offset rows lower. */
  predicate FloorReached(s: Blocks, offset: int)
  {
    exists i :: 0 <= i < 4 && s[i].y + offset >= Rows - 1
  }

  /** offset is the first positive offset that reaches the last row. */
  predicate FirstFloorOffset(s: Blocks, offset: int)
  {
    1 <= offset && FloorReached(s, offset) && forall o :: 1 <= o < offset ==> !FloorReached(s, o)
  }

  /** The loop of getOffsetBlockedByGrid from offsetY on: maxOffset is set
      once, at the first offset that reaches the last row. */
  function GridScan(s: Blocks, dropDist: int, offsetY: nat, maxOffset: nat): (r: nat)
    requires maxOffset == 0 ==> forall o :: 1 <= o <= offsetY ==> !FloorReached(s, o)
    requires maxOffset != 0 ==> FirstFloorOffset(s, maxOffset) && maxOffset <= offsetY
    ensures r == 0 ==> forall o :: 1 <= o <= Max(offsetY, dropDist) ==> !FloorReached(s, o)
    ensures r != 0 ==> FirstFloorOffset(s, r) && r <= Max(offsetY, dropDist)
    decreases dropDist - offsetY
  {
    if offsetY >= dropDist then maxOffset
    else
      var o := offsetY + 1;
      GridScan(s, dropDist, o, if maxOffset == 0 && FloorReached(s, o) then o else maxOffset)
  }

  /** Logic::getOffsetBlockedByGrid: the first offset in 1..dropDist at which a
      block reaches the last row, or 0 when there is none. */
  function GetOffsetBlockedByGrid(s: Blocks, dropDist: int): (r: nat)
    ensures r == 0 ==> forall o :: 1 <= o <= dropDist ==> !FloorReached(s, o)
    ensures r != 0 ==> FirstFloorOffset(s, r) && r <= dropDist
  {
    GridScan(s, dropDist, 0, 0)
  }

  /** The marker getOffsetBlockedByMino starts from and keeps when nothing
      obstructs the piece. */
  const NoObstruction: int := 20

  /** Every row the mino scan reads, one row or more below a block, is a
      non-negative row of a non-negative column. */
  predicate ReadableBelow(s: Blocks)
  {
    forall i :: 0 <= i < 4 ==> 0 <= s[i].x && 0 <= s[i].y + 1
  }

  /** Some block's cell, offset rows lower, reads as occupied (the sentinel
      past the last row or column included). */
  predicate Blocked(g: Grid, s: Blocks, offset: int)
    requires ReadableBelow(s) && offset >= 1
  {
    || Occupied(g, s[0].x, s[0].y + offset)
    || Occupied(g, s[1].x, s[1].y + offset)
    || Occupied(g, s[2].x, s[2].y + offset)
    || Occupied(g, s[3].x, s[3].y + offset)
  }

  /** offset is the first positive offset at which the piece is obstructed. */
  predicate FirstBlocked(g: Grid, s: Blocks, offset: int)
    requires ReadableBelow(s)
  {
    1 <= offset && Blocked(g, s, offset) && forall o :: 1 <= o < offset ==> !Blocked(g, s, o)
  }

  /** The loop of getOffsetBlockedByMino from offsetY on: maxOffset drops to
      the first obstructed offset below the marker and stays there. */
  function MinoScan(g: Grid, s: Blocks, dropDist: int, offsetY: nat, maxOffset: int): (r: int)
    requires ReadableBelow(s)
    requires 1 <= maxOffset <= NoObstruction
    requires maxOffset == NoObstruction ==>
      forall o :: 1 <= o <= offsetY && o < NoObstruction ==> !Blocked(g, s, o)
    requires maxOffset < NoObstruction ==> FirstBlocked(g, s, maxOffset) && maxOffset <= offsetY
    ensures 1 <= r <= NoObstruction
    ensures r == NoObstruction ==>
      forall o :: 1 <= o <= Max(offsetY, dropDist) && o < NoObstruction ==> !Blocked(g, s, o)
    ensures r < NoObstruction ==> FirstBlocked(g, s, r) && r <= Max(offsetY, dropDist)
    decreases dropDist - offsetY
  {
    if offsetY >= dropDist then maxOffset
    else
      var o := offsetY + 1;
      MinoScan(g, s, dropDist, o, if Blocked(g, s, o) && o < maxOffset then o else maxOffset)
  }

  /** Logic::getOffsetBlockedByMino: one less than the first obstructed offset
      in 1..dropDist, or the marker 20 when nothing below 20 obstructs. */
  function GetOffsetBlockedByMino(g: Grid, s: Blocks, dropDist: int): (r: int)
    requires ReadableBelow(s)
    ensures r == NoObstruction <==>
      forall o :: 1 <= o <= dropDist && o < NoObstruction ==> !Blocked(g, s, o)
    ensures r != NoObstruction ==> 0 <= r && r + 1 <= dropDist && FirstBlocked(g, s, r + 1)
  {
    var m := MinoScan(g, s, dropDist, 0, NoObstruction);
    if m != NoObstruction then m - 1 else m
  }

  /** The hard-drop scans read the board only for a piece in view that is not
      yet on the last row; such reads must not use a negative column. */
  predicate ScanReadsDefined(s: Blocks)
  {
    IsTetrominoInViewPort(s) && GetLowestYoffset(s) < Rows - 1 ==> forall i :: 0 <= i < 4 ==> 0 <= s[i].x
  }

  /** Logic::getHardDropOffsetY: 0 for a piece partly above the board,
      otherwise the smaller of the obstruction limit and the floor limit. */
  function GetHardDropOffsetY(g: Grid, s: Blocks): (r: int)
    requires ScanReadsDefined(s)
    ensures 0 <= r
    ensures !IsTetrominoInViewPort(s) ==> r == 0
    ensures r <= Max(0, Rows - 1 - GetLowestYoffset(s))
  {
    if !IsTetrominoInViewPort(s) then 0
    else
      var lowestY := GetLowestYoffset(s);
      var maxDropDist := Rows - lowestY - 1;
      if maxDropDist > 0 then
        var maxOffsetByMino := GetOffsetBlockedByMino(g, s, maxDropDist);
        var maxOffsetByGrid := GetOffsetBlockedByGrid(s, maxDropDist);
        if maxOffsetByMino < maxOffsetByGrid then maxOffsetByMino
        else if maxOffsetByGrid != 0 then maxOffsetByGrid
        else 0
      else 0
  }

  /** For a piece in view, the floor scan stops exactly at the floor limit. */
  lemma GridLimitIsFloor(s: Blocks)
    requires IsTetrominoInViewPort(s)
    requires Rows - 1 - GetLowestYoffset(s) > 0
    ensures GetOffsetBlockedByGrid(s, Rows - 1 - GetLowestYoffset(s)) == Rows - 1 - GetLowestYoffset(s)
  {
    var lowest := GetLowestYoffset(s);
    assert HasRow(s, lowest);
    var k :| 0 <= k < 4 && s[k].y == lowest;
    assert FloorReached(s, Rows - 1 - lowest);
  }

  /** An unobstructed offset that stays above the floor is a valid one. */
  lemma UnblockedIsValid(g: Grid, s: Blocks, k: int)
    requires IsTetrominoInViewPort(s) && InColumns(s)
    requires 1 <= k <= Rows - 1 - GetLowestYoffset(s)
    requires !Blocked(g, s, k)
    ensures IsCurrentPositionValid(g, s, k)
  {
  }

  /** An obstructed offset is not a valid one. */
  lemma BlockedIsInvalid(g: Grid, s: Blocks, k: int)
    requires IsTetrominoInViewPort(s) && InColumns(s)
    requires 1 <= k && Blocked(g, s, k)
    ensures !IsCurrentPositionValid(g, s, k)
  {
    assert !Fits(g, s[0], k) || !Fits(g, s[1], k) || !Fits(g, s[2], k) || !Fits(g, s[3], k);
  }

  /** The hard-drop distance d of a piece in view and in the columns is the
      smaller of the floor limit Rows-1-lowestY and one less than the first
      obstructed offset, and it is the deepest valid offset: every offset
      1..d is valid and offset d + 1 is not. */
  lemma HardDropDistance(g: Grid, s: Blocks)
    requires IsTetrominoInViewPort(s) && InColumns(s)
    ensures var d := GetHardDropOffsetY(g, s);
      && (forall k :: 1 <= k <= d ==> IsCurrentPositionValid(g, s, k))
      && !IsCurrentPositionValid(g, s, d + 1)
    ensures var d := GetHardDropOffsetY(g, s);
      var floor := Rows - 1 - GetLowestYoffset(s);
      floor > 0 ==>
        || (d == floor && forall o :: 1 <= o <= floor ==> !Blocked(g, s, o))
        || (d < floor && FirstBlocked(g, s, d + 1))
    ensures Rows - 1 - GetLowestYoffset(s) <= 0 ==> GetHardDropOffsetY(g, s) == 0
  {
    var d := GetHardDropOffsetY(g, s);
    var lowest := GetLowestYoffset(s);
    var m := Rows - lowest - 1;
    assert HasRow(s, lowest);
    var low :| 0 <= low < 4 && s[low].y == lowest;
    if m <= 0 {
      assert !Fits(g, s[low], 1);
    } else {
      GridLimitIsFloor(s);
      var byMino := GetOffsetBlockedByMino(g, s, m);
      assert d == (if byMino == NoObstruction then m else byMino);
      forall k | 1 <= k <= d
        ensures IsCurrentPositionValid(g, s, k)
      {
        assert !Blocked(g, s, k);
        UnblockedIsValid(g, s, k);
      }
      if byMino == NoObstruction {
        assert !Fits(g, s[low], d + 1);
      } else {
        BlockedIsInvalid(g, s, d + 1);
      }
    }
  }

  /** One row down, undone if the result is invalid: each step of the hard
      drop and the gravity step. */
  function StepDown(g: Grid, t: Tetromino): Tetromino
  {
    var dropped := DropDown(t);
    if IsCurrentPositionValid(g, dropped.current, 0) then dropped
    else RestorePreviousPosition(dropped)
  }

  /** n rounds of StepDown. */
  function DropSteps(g: Grid, t: Tetromino, n: nat): Tetromino
    decreases n
  {
    if n == 0 then t else DropSteps(g, StepDown(g, t), n - 1)
  }

  /** Logic::doHardDrop: d + 1 checked single-row steps for the hard-drop
      distance d, nothing when d is 0. */
  function DoHardDrop(g: Grid, t: Tetromino): Tetromino
    requires ScanReadsDefined(t.current)
  {
    var dropOffset := GetHardDropOffsetY(g, t.current);
    if dropOffset != 0 then DropSteps(g, t, dropOffset + 1) else t
  }

  /** Unfolding lemma: two vertical shifts add up. */
  lemma ShiftedTwice(s: Blocks, a: int, b: int)
    ensures Shifted(Shifted(s, 0, a), 0, b) == Shifted(s, 0, a + b)
  {
  }

  lemma {:induction false} DropStepsLand(g: Grid, t0: Tetromino, t: Tetromino, k: nat, d: nat, n: nat)
    requires t.current == Shifted(t0.current, 0, k) && SameIdentity(t, t0)
    requires k <= d && n == d + 1 - k
    requires forall j :: 1 <= j <= d ==> IsCurrentPositionValid(g, t0.current, j)
    requires !IsCurrentPositionValid(g, t0.current, d + 1)
    ensures DropSteps(g, t, n).current == Shifted(t0.current, 0, d)
    ensures SameIdentity(DropSteps(g, t, n), t0)
    decreases n
  {
    var dropped := DropDown(t);
    ShiftedTwice(t0.current, k, 1);
    ValidityOfShifted(g, t0.current, k + 1, 0);
    if k < d {
      assert StepDown(g, t) == dropped;
      DropStepsLand(g, t0, dropped, k + 1, d, n - 1);
    } else {
      assert StepDown(g, t).current == t.current;
      assert DropSteps(g, StepDown(g, t), 0) == StepDown(g, t);
    }
  }

  /** A hard drop of a piece in view and in the columns moves it down by
      exactly the hard-drop distance, after which one more row is invalid. */
  lemma DoHardDropLands(g: Grid, t: Tetromino)
    requires IsTetrominoInViewPort(t.current) && InColumns(t.current)
    ensures var d := GetHardDropOffsetY(g, t.current);
      && DoHardDrop(g, t).current == Shifted(t.current, 0, d)
      && SameIdentity(DoHardDrop(g, t), t)
      && !IsPositionAfterNextDropValid(g, DoHardDrop(g, t).current)
      && (d > 0 ==> IsCurrentPositionValid(g, DoHardDrop(g, t).current, 0))
  {
    var d := GetHardDropOffsetY(g, t.current);
    DoHardDropShifts(g, t);
    HardDropDistance(g, t.current);
    ValidityOfShifted(g, t.current, d, 1);
    ValidityOfShifted(g, t.current, d, 0);
  }

  /** The hard drop moves the piece straight down by the drop distance. */
  lemma DoHardDropShifts(g: Grid, t: Tetromino)
    requires IsTetrominoInViewPort(t.current) && InColumns(t.current)
    ensures var d := GetHardDropOffsetY(g, t.current);
      && DoHardDrop(g, t).current == Shifted(t.current, 0, d)
      && SameIdentity(DoHardDrop(g, t), t)
  {
    var d := GetHardDropOffsetY(g, t.current);
    HardDropDistance(g, t.current);
    if d != 0 {
      DropStepsLand(g, t, t, 0, d, d + 1);
    } else {
      assert Shifted(t.current, 0, 0) == t.current;
    }
  }

  /** One block's contribution to the wall kick: a block left of column 0
      asks for at least its overhang to the right, a block right of the last
      column for at least its overhang to the left. */
  function KickStep(dist: int, x: int): int
  {
    if x < 0 then (if 0 - x > dist then 0 - x else dist)
    else if x > Cols - 1 then (if (Cols - 1) - x < dist then (Cols - 1) - x else dist)
    else dist
  }

  /** Logic::getWallKickDistanceX. When no block is right of the board the
      kick is the smallest shift right that brings every block to column 0 or
      beyond; when none is left of it, the smallest shift left that brings
      every block to the last column or before. */
  function GetWallKickDistanceX(s: Blocks): (r: int)
    ensures (forall i :: 0 <= i < 4 ==> s[i].x <= Cols - 1) ==>
      r >= 0 && (forall i :: 0 <= i < 4 ==> s[i].x + r >= 0) && (r == 0 || HasColumn(s, -r))
    ensures (forall i :: 0 <= i < 4 ==> s[i].x >= 0) ==>
      r <= 0 && (forall i :: 0 <= i < 4 ==> s[i].x + r <= Cols - 1) && (r == 0 || HasColumn(s, Cols - 1 - r))
  {
    var r := KickStep(KickStep(KickStep(KickStep(0, s[0].x), s[1].x), s[2].x), s[3].x);
    assert r == 0 || r == -s[0].x || r == -s[1].x || r == -s[2].x || r == -s[3].x
      || r == Cols - 1 - s[0].x || r == Cols - 1 - s[1].x || r == Cols - 1 - s[2].x || r == Cols - 1 - s[3].x;
    r
  }

  /** A piece narrower than the board is back inside the columns after its
      wall kick. */
  lemma WallKickRestoresColumns(s: Blocks)
    requires forall i, j :: 0 <= i < 4 && 0 <= j < 4 ==> s[i].x - s[j].x < Cols
    ensures InColumns(Shifted(s, GetWallKickDistanceX(s), 0))
  {
    var r := GetWallKickDistanceX(s);
    if forall i :: 0 <= i < 4 ==> s[i].x <= Cols - 1 {
      if r != 0 {
        var k :| 0 <= k < 4 && s[k].x == -r;
      }
    } else {
      var i :| 0 <= i < 4 && s[i].x > Cols - 1;
      assert forall j :: 0 <= j < 4 ==> s[j].x >= 0;
      if r != 0 {
        var k :| 0 <= k < 4 && s[k].x == Cols - 1 - r;
      }
    }
  }
}
