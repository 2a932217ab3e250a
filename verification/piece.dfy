/** Blocks and tetrominoes: a piece is four blocks plus a one-level undo
    buffer. Translation backs up the current blocks before moving them;
    rotation turns every block a quarter turn about a pivot block. */
module Piece {

  /** A cell coordinate: column x and row y. Rows grow downwards; a negative
      row lies above the visible board. */
  datatype Block = Block(x: int, y: int)

  /** Exactly four blocks, in the order the shape decoder produced them. */
  type Blocks = s: seq<Block> | |s| == 4
    witness [Block(0, 0), Block(0, 0), Block(0, 0), Block(0, 0)]

  /** Index of the block a piece turns about; -1 for a piece that never turns. */
  type PivotIndex = i: int | -1 <= i < 4

  /** A piece: its blocks now and before the last backed-up move, its pivot,
      its shape and colour ids, and the cached hard-drop distance that the
      shadow preview draws. */
  datatype Tetromino = Tetromino(
    current: Blocks,
    previous: Blocks,
    rotationIndex: PivotIndex,
    shapeId: int,
    colorId: int,
    hardDropDistance: int)

  /** Every block moved dx columns right and dy rows down. */
  function Shifted(s: Blocks, dx: int, dy: int): Blocks
  {
    seq(4, i requires 0 <= i < 4 => Block(s[i].x + dx, s[i].y + dy))
  }

  /** The undo: the current blocks become the backed-up ones. */
  function RestorePreviousPosition(t: Tetromino): Tetromino
  {
    t.(current := t.previous)
  }

  /** One row down, after backing up the current blocks. */
  function DropDown(t: Tetromino): Tetromino
  {
    t.(previous := t.current, current := Shifted(t.current, 0, 1))
  }

  /** dx columns sideways, after backing up the current blocks. */
  function MoveX(t: Tetromino, dx: int): Tetromino
  {
    t.(previous := t.current, current := Shifted(t.current, dx, 0))
  }

  /** n rows up; the backup is left alone. */
  function MoveUp(t: Tetromino, n: int): Tetromino
  {
    t.(current := Shifted(t.current, 0, -n))
  }

  /** The position of b seen from the pivot p. */
  function Offset(b: Block, p: Block): Block
  {
    Block(b.x - p.x, b.y - p.y)
  }

  /** The quarter turn applied to a pivot-relative offset: (dx, dy) to (-dy, dx). */
  function Turn(o: Block): Block
  {
    Block(-o.y, o.x)
  }

  /** Rotation about the pivot block. A piece without a pivot is returned
      untouched, undo buffer included; otherwise the current blocks are backed
      up, the pivot stays where it is and every other block's offset from it
      is turned a quarter turn. */
  function Rotate(t: Tetromino): Tetromino
  {
    if t.rotationIndex < 0 then t
    else
      var p := t.current[t.rotationIndex];
      t.(previous := t.current,
         current := seq(4, i requires 0 <= i < 4 => TurnAbout(t.current[i], p)))
  }

  /** One block turned about p, computed the way the source does it: the row
      distance becomes a column distance to the left, the column distance a
      row distance downwards. */
  function TurnAbout(b: Block, p: Block): Block
  {
    var x := b.y - p.y;
    var y := b.x - p.x;
    Block(p.x - x, p.y + y)
  }

  /** Shape, colour and pivot index agree. */
  predicate SameIdentity(a: Tetromino, b: Tetromino)
  {
    a.shapeId == b.shapeId && a.colorId == b.colorId && a.rotationIndex == b.rotationIndex
  }

  /** Rotation about a pivot keeps the pivot block in place, keeps the
      piece's identity and backs up the blocks it started from. */
  lemma RotateKeepsPivot(t: Tetromino)
    requires t.rotationIndex >= 0
    ensures Rotate(t).previous == t.current
    ensures Rotate(t).current[t.rotationIndex] == t.current[t.rotationIndex]
    ensures SameIdentity(Rotate(t), t)
  {
  }

  /** Rotation about a pivot turns every block's offset from the pivot by
      (dx, dy) to (-dy, dx). */
  lemma RotateTurnsOffsets(t: Tetromino)
    requires t.rotationIndex >= 0
    ensures forall i :: 0 <= i < 4 ==>
      Offset(Rotate(t).current[i], t.current[t.rotationIndex])
        == Turn(Offset(t.current[i], t.current[t.rotationIndex]))
  {
    var p := t.current[t.rotationIndex];
    var r := Rotate(t).current;
    assert r == seq(4, i requires 0 <= i < 4 => TurnAbout(t.current[i], p));
    forall i | 0 <= i < 4
      ensures Offset(r[i], p) == Turn(Offset(t.current[i], p))
    {
      assert r[i] == TurnAbout(t.current[i], p);
    }
  }

  /** Undoing a sideways move gives back exactly the blocks before it. */
  lemma UndoMoveX(t: Tetromino, dx: int)
    ensures RestorePreviousPosition(MoveX(t, dx)).current == t.current
    ensures RestorePreviousPosition(MoveX(t, dx)).previous == t.current
    ensures SameIdentity(RestorePreviousPosition(MoveX(t, dx)), t)
  {
  }

  /** Undoing a drop gives back exactly the blocks before it. */
  lemma UndoDropDown(t: Tetromino)
    ensures RestorePreviousPosition(DropDown(t)).current == t.current
    ensures RestorePreviousPosition(DropDown(t)).previous == t.current
    ensures SameIdentity(RestorePreviousPosition(DropDown(t)), t)
  {
  }

  /** Moving back the other way undoes a sideways move. */
  lemma MoveXInverse(t: Tetromino, dx: int)
    ensures MoveX(MoveX(t, dx), -dx).current == t.current
  {
    var r := MoveX(MoveX(t, dx), -dx).current;
    assert forall i :: 0 <= i < 4 ==> r[i] == t.current[i];
  }

  /** Four quarter turns bring every block back to where it started. */
  lemma RotateFourTimes(t: Tetromino)
    ensures Rotate(Rotate(Rotate(Rotate(t)))).current == t.current
    ensures SameIdentity(Rotate(Rotate(Rotate(Rotate(t)))), t)
  {
    if t.rotationIndex >= 0 {
      var k := t.rotationIndex;
      var p := t.current[k];
      var t1 := Rotate(t);
      assert t1.current[k] == p;
      var t2 := Rotate(t1);
      assert t2.current[k] == p;
      var t3 := Rotate(t2);
      assert t3.current[k] == p;
      var t4 := Rotate(t3);
      forall i | 0 <= i < 4
        ensures t4.current[i] == t.current[i]
      {
        var b := t.current[i];
        assert t4.current[i] == TurnAbout(TurnAbout(TurnAbout(TurnAbout(b, p), p), p), p);
      }
    }
  }

  /** The square's table has no pivot, so turning it changes nothing. */
  lemma RotateWithoutPivot(t: Tetromino)
    requires t.rotationIndex < 0
    ensures Rotate(t) == t
  {
  }

  /** Some block sits on row v. */
  predicate HasRow(s: Blocks, v: int)
  {
    exists k :: 0 <= k < 4 && s[k].y == v
  }

  /** Some block sits in column v. */
  predicate HasColumn(s: Blocks, v: int)
  {
    exists k :: 0 <= k < 4 && s[k].x == v
  }

  /** The rows the blocks occupy form one interval, and so do their columns:
      true of every connected four-block shape. */
  predicate Gapless(s: Blocks)
  {
    && (forall i, j, v :: 0 <= i < 4 && 0 <= j < 4 && s[i].y < v < s[j].y ==> HasRow(s, v))
    && (forall i, j, v :: 0 <= i < 4 && 0 <= j < 4 && s[i].x < v < s[j].x ==> HasColumn(s, v))
  }

  /** Translation keeps rows and columns gapless. */
  lemma ShiftedGapless(s: Blocks, dx: int, dy: int)
    requires Gapless(s)
    ensures Gapless(Shifted(s, dx, dy))
  {
    var r := Shifted(s, dx, dy);
    forall i, j, v | 0 <= i < 4 && 0 <= j < 4 && r[i].y < v < r[j].y
      ensures HasRow(r, v)
    {
      assert HasRow(s, v - dy);
      var k :| 0 <= k < 4 && s[k].y == v - dy;
      assert r[k].y == v;
    }
    forall i, j, v | 0 <= i < 4 && 0 <= j < 4 && r[i].x < v < r[j].x
      ensures HasColumn(r, v)
    {
      assert HasColumn(s, v - dx);
      var k :| 0 <= k < 4 && s[k].x == v - dx;
      assert r[k].x == v;
    }
  }

  /** A quarter turn maps the column interval onto the row interval and the
      row interval, mirrored, onto the column interval, so both stay gapless. */
  lemma RotateGapless(t: Tetromino)
    requires Gapless(t.current)
    ensures Gapless(Rotate(t).current)
  {
    if t.rotationIndex >= 0 {
      var s := t.current;
      var p := s[t.rotationIndex];
      var r := Rotate(t).current;
      assert forall i :: 0 <= i < 4 ==> r[i] == TurnAbout(s[i], p);
      forall i, j, v | 0 <= i < 4 && 0 <= j < 4 && r[i].y < v < r[j].y
        ensures HasRow(r, v)
      {
        var u := v - p.y + p.x;
        assert s[i].x < u < s[j].x;
        assert HasColumn(s, u);
        var k :| 0 <= k < 4 && s[k].x == u;
        assert r[k].y == v;
      }
      forall i, j, v | 0 <= i < 4 && 0 <= j < 4 && r[i].x < v < r[j].x
        ensures HasColumn(r, v)
      {
        var u := p.x + p.y - v;
        assert s[j].y < u < s[i].y;
        assert HasRow(s, u);
        var k :| 0 <= k < 4 && s[k].y == u;
        assert r[k].x == v;
      }
    }
  }

  /** No two blocks share a cell. */
  predicate Distinct(s: Blocks)
  {
    forall i, j :: 0 <= i < j < 4 ==> s[i] != s[j]
  }

  /** Translation keeps the blocks on distinct cells. */
  lemma ShiftedDistinct(s: Blocks, dx: int, dy: int)
    requires Distinct(s)
    ensures Distinct(Shifted(s, dx, dy))
  {
    var r := Shifted(s, dx, dy);
    assert forall i :: 0 <= i < 4 ==> r[i] == Block(s[i].x + dx, s[i].y + dy);
  }

  /** A quarter turn about a pivot is one-to-one, so it keeps the blocks on
      distinct cells. */
  lemma RotateDistinct(t: Tetromino)
    requires Distinct(t.current)
    ensures Distinct(Rotate(t).current)
  {
    if t.rotationIndex >= 0 {
      var p := t.current[t.rotationIndex];
      var r := Rotate(t).current;
      forall i, j | 0 <= i < j < 4
        ensures r[i] != r[j]
      {
        assert r[i] == TurnAbout(t.current[i], p);
        assert r[j] == TurnAbout(t.current[j], p);
      }
    }
  }
}
