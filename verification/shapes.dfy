/** The piece generator: seven shape tables, the decoder that turns a table
    into four blocks and a pivot index, and the colour draw that avoids
    repeating the previous colour. The random draws are parameters. */
module Shapes {
  import opened Piece
  import opened Board

  datatype Option<T> = None | Some(value: T)

  const ShapeO: int := 1
  const ShapeS: int := 2
  const ShapeZ: int := 3
  const ShapeI: int := 4
  const ShapeL: int := 5
  const ShapeJ: int := 6
  const ShapeT: int := 7

  predicate IsShapeId(s: int)
  {
    ShapeO <= s <= ShapeT
  }

  /** A shape table: four rows of two markers; 0 is empty, 1 a block, 2 the
      block the piece turns about. */
  predicate IsTable(table: seq<seq<int>>)
  {
    |table| == 4 && forall i :: 0 <= i < 4 ==> |table[i]| == 2
  }

  function TableOf(shapeId: int): (table: seq<seq<int>>)
    requires IsShapeId(shapeId)
    ensures IsTable(table)
  {
    match shapeId
    case 1 => [[1, 1], [1, 1], [0, 0], [0, 0]]
    case 2 => [[1, 0], [1, 2], [0, 1], [0, 0]]
    case 3 => [[0, 1], [2, 1], [1, 0], [0, 0]]
    case 4 => [[1, 0], [1, 0], [2, 0], [1, 0]]
    case 5 => [[1, 0], [2, 0], [1, 1], [0, 0]]
    case 6 => [[0, 1], [0, 2], [1, 1], [0, 0]]
    case 7 => [[1, 0], [2, 1], [1, 0], [0, 0]]
  }

  /** The decoder's scan, cell k = 2 * row + column onwards, row by row: every
      positive cell becomes the next block (column as x, row as y) until four
      are found, and a 2 records the index that block receives. */
  function ScanCells(table: seq<seq<int>>, k: nat, found: seq<Block>, pivot: int): (r: (seq<Block>, int))
    requires IsTable(table) && k <= 8 && |found| <= 4 && -1 <= pivot < 4
    ensures |r.0| <= 4 && -1 <= r.1 < 4
    decreases 8 - k
  {
    if k == 8 || |found| == 4 then (found, pivot)
    else
      var i, j := k / 2, k % 2;
      if table[i][j] > 0 then
        ScanCells(table, k + 1, found + [Block(j, i)], if table[i][j] == 2 then |found| else pivot)
      else
        ScanCells(table, k + 1, found, pivot)
  }

  /** The blocks and pivot index decoding leaves in a piece whose blocks were
      `start` beforehand: decoded blocks first, untouched ones after. */
  function Decoded(table: seq<seq<int>>, start: Blocks): (r: (Blocks, PivotIndex))
    requires IsTable(table)
  {
    var (found, pivot) := ScanCells(table, 0, [], -1);
    (found + start[|found|..], pivot)
  }

  /** The decoder's loop state after k cells: the blocks not yet written are
      still those of start, and the scan from cell k on the blocks written
      so far yields the result (which they already are once four are found). */
  predicate Decoding(table: seq<seq<int>>, start: Blocks, blocks: Blocks, done: int, pivot: int,
                     k: nat, result: (seq<Block>, int))
    requires IsTable(table)
  {
    && 0 <= done <= 4 && k <= 8 && -1 <= pivot < 4
    && blocks[done..] == start[done..]
    && (done < 4 ==> ScanCells(table, k, blocks[..done], pivot) == result)
    && (done == 4 ==> (blocks[..done], pivot) == result)
  }

  /** One cell (row i, column j) of the decoder's loop keeps its state in
      step with the scan. */
  lemma DecodeStep(table: seq<seq<int>>, start: Blocks, blocks: Blocks, done: int, pivot: int,
                   i: nat, j: nat, result: (seq<Block>, int))
    requires IsTable(table) && i < 4 && j < 2 && done < 4
    requires Decoding(table, start, blocks, done, pivot, 2 * i + j, result)
    ensures table[i][j] > 0 ==>
      Decoding(table, start, blocks[done := Block(j, i)], done + 1,
               if table[i][j] == 2 then done else pivot, 2 * i + j + 1, result)
    ensures table[i][j] <= 0 ==> Decoding(table, start, blocks, done, pivot, 2 * i + j + 1, result)
  {
    var k := 2 * i + j;
    assert k / 2 == i && k % 2 == j;
    var found := blocks[..done];
    if table[i][j] > 0 {
      var b := blocks[done := Block(j, i)];
      var p := if table[i][j] == 2 then done else pivot;
      assert found + [Block(j, i)] == b[..done + 1];
      assert ScanCells(table, k, found, pivot) == ScanCells(table, k + 1, b[..done + 1], p);
      assert b[done + 1..] == start[done + 1..] by {
        assert b[done + 1..] == blocks[done..][1..];
      }
    } else {
      assert ScanCells(table, k, found, pivot) == ScanCells(table, k + 1, found, pivot);
    }
  }

  /** Generator::configureBlocks, with its nested loops and early exits. */
  method ConfigureBlocks(table: seq<seq<int>>, start: Blocks) returns (blocks: Blocks, rotationIndex: PivotIndex)
    requires IsTable(table)
    ensures (blocks, rotationIndex) == Decoded(table, start)
  {
    var result := ScanCells(table, 0, [], -1);
    blocks := start;
    rotationIndex := -1;
    var done := 0;
    var i := 0;
    assert start[..0] == [];
    while i < 4
      invariant 0 <= i <= 4
      invariant Decoding(table, start, blocks, done, rotationIndex, 2 * i, result)
    {
      blocks, done, rotationIndex := ConfigureRow(table, start, blocks, done, rotationIndex, i, result);
      i := i + 1;
    }
    assert (blocks[..done], rotationIndex) == result;
    assert blocks == blocks[..done] + start[done..];
  }

  /** The inner loop of Generator::configureBlocks: the two cells of row i,
      left to right, stopping once four blocks are found. */
  method ConfigureRow(table: seq<seq<int>>, ghost start: Blocks, blocks0: Blocks, done0: int, pivot0: PivotIndex,
                      i: nat, ghost result: (seq<Block>, int))
    returns (blocks: Blocks, done: int, rotationIndex: PivotIndex)
    requires IsTable(table) && i < 4
    requires Decoding(table, start, blocks0, done0, pivot0, 2 * i, result)
    ensures Decoding(table, start, blocks, done, rotationIndex, 2 * i + 2, result)
  {
    blocks, done, rotationIndex := blocks0, done0, pivot0;
    var j := 0;
    while j < 2
      invariant 0 <= j <= 2
      invariant Decoding(table, start, blocks, done, rotationIndex, 2 * i + j, result)
    {
      if done < 4 {
        DecodeStep(table, start, blocks, done, rotationIndex, i, j, result);
      }
      if done < 4 && table[i][j] > 0 {
        if table[i][j] == 2 {
          rotationIndex := done;
        }
        blocks := blocks[done := Block(j, i)];
        done := done + 1;
        if done == 4 {
          break;
        }
      }
      if done == 4 {
        break;
      }
      j := j + 1;
    }
  }

  /** The seven shapes written out as blocks, independently of the tables. */
  function ShapeBlocks(shapeId: int): Blocks
    requires IsShapeId(shapeId)
  {
    match shapeId
    case 1 => [Block(0, 0), Block(1, 0), Block(0, 1), Block(1, 1)]
    case 2 => [Block(0, 0), Block(0, 1), Block(1, 1), Block(1, 2)]
    case 3 => [Block(1, 0), Block(0, 1), Block(1, 1), Block(0, 2)]
    case 4 => [Block(0, 0), Block(0, 1), Block(0, 2), Block(0, 3)]
    case 5 => [Block(0, 0), Block(0, 1), Block(0, 2), Block(1, 2)]
    case 6 => [Block(1, 0), Block(1, 1), Block(0, 2), Block(1, 2)]
    case 7 => [Block(0, 0), Block(0, 1), Block(1, 1), Block(0, 2)]
  }

  /** The pivot of each shape: none for the square, the marked block otherwise. */
  function ShapePivot(shapeId: int): PivotIndex
    requires IsShapeId(shapeId)
  {
    match shapeId
    case 1 => -1
    case 2 => 2
    case 3 => 1
    case 4 => 2
    case 5 => 1
    case 6 => 1
    case 7 => 1
  }

  /** Number of rows a shape spans in its table: 4 for I, 2 for the square,
      3 for the others. */
  function ShapeHeight(shapeId: int): int
    requires IsShapeId(shapeId)
  {
    if shapeId == ShapeI then 4 else if shapeId == ShapeO then 2 else 3
  }

  /** All four blocks at the origin: the state the generator clears a piece to. */
  const Origin: Blocks := [Block(0, 0), Block(0, 0), Block(0, 0), Block(0, 0)]

  /** Decoding each of the seven tables yields the shape written out above and
      the index of its 2 marker, -1 for the square. */
  lemma DecodeShapeTables(shapeId: int, start: Blocks)
    requires IsShapeId(shapeId)
    ensures Decoded(TableOf(shapeId), start) == (ShapeBlocks(shapeId), ShapePivot(shapeId))
  {
    var table := TableOf(shapeId);
    if shapeId == 1 {
      assert [Block(0, 0), Block(1, 0), Block(0, 1)] + [Block(1, 1)] == [Block(0, 0), Block(1, 0), Block(0, 1), Block(1, 1)];
      assert ScanCells(table, 4, [Block(0, 0), Block(1, 0), Block(0, 1), Block(1, 1)], -1) == (ShapeBlocks(1), -1);
      assert [Block(0, 0), Block(1, 0)] + [Block(0, 1)] == [Block(0, 0), Block(1, 0), Block(0, 1)];
      assert ScanCells(table, 3, [Block(0, 0), Block(1, 0), Block(0, 1)], -1) == (ShapeBlocks(1), -1);
      assert [Block(0, 0)] + [Block(1, 0)] == [Block(0, 0), Block(1, 0)];
      assert ScanCells(table, 2, [Block(0, 0), Block(1, 0)], -1) == (ShapeBlocks(1), -1);
      assert [] + [Block(0, 0)] == [Block(0, 0)];
      assert ScanCells(table, 1, [Block(0, 0)], -1) == (ShapeBlocks(1), -1);
      assert ScanCells(table, 0, [], -1) == (ShapeBlocks(1), -1);
    } else if shapeId == 2 {
      assert [Block(0, 0), Block(0, 1), Block(1, 1)] + [Block(1, 2)] == [Block(0, 0), Block(0, 1), Block(1, 1), Block(1, 2)];
      assert ScanCells(table, 6, [Block(0, 0), Block(0, 1), Block(1, 1), Block(1, 2)], 2) == (ShapeBlocks(2), 2);
      assert [Block(0, 0), Block(0, 1)] + [Block(1, 1)] == [Block(0, 0), Block(0, 1), Block(1, 1)];
      assert ScanCells(table, 5, [Block(0, 0), Block(0, 1), Block(1, 1)], 2) == (ShapeBlocks(2), 2);
      assert ScanCells(table, 4, [Block(0, 0), Block(0, 1), Block(1, 1)], 2) == (ShapeBlocks(2), 2);
      assert [Block(0, 0)] + [Block(0, 1)] == [Block(0, 0), Block(0, 1)];
      assert ScanCells(table, 3, [Block(0, 0), Block(0, 1)], -1) == (ShapeBlocks(2), 2);
      assert [] + [Block(0, 0)] == [Block(0, 0)];
      assert ScanCells(table, 2, [Block(0, 0)], -1) == (ShapeBlocks(2), 2);
      assert ScanCells(table, 1, [Block(0, 0)], -1) == (ShapeBlocks(2), 2);
      assert ScanCells(table, 0, [], -1) == (ShapeBlocks(2), 2);
    } else if shapeId == 3 {
      assert [Block(1, 0), Block(0, 1), Block(1, 1)] + [Block(0, 2)] == [Block(1, 0), Block(0, 1), Block(1, 1), Block(0, 2)];
      assert ScanCells(table, 5, [Block(1, 0), Block(0, 1), Block(1, 1), Block(0, 2)], 1) == (ShapeBlocks(3), 1);
      assert [Block(1, 0), Block(0, 1)] + [Block(1, 1)] == [Block(1, 0), Block(0, 1), Block(1, 1)];
      assert ScanCells(table, 4, [Block(1, 0), Block(0, 1), Block(1, 1)], 1) == (ShapeBlocks(3), 1);
      assert [Block(1, 0)] + [Block(0, 1)] == [Block(1, 0), Block(0, 1)];
      assert ScanCells(table, 3, [Block(1, 0), Block(0, 1)], 1) == (ShapeBlocks(3), 1);
      assert [] + [Block(1, 0)] == [Block(1, 0)];
      assert ScanCells(table, 2, [Block(1, 0)], -1) == (ShapeBlocks(3), 1);
      assert ScanCells(table, 1, [], -1) == (ShapeBlocks(3), 1);
      assert ScanCells(table, 0, [], -1) == (ShapeBlocks(3), 1);
    } else if shapeId == 4 {
      assert [Block(0, 0), Block(0, 1), Block(0, 2)] + [Block(0, 3)] == [Block(0, 0), Block(0, 1), Block(0, 2), Block(0, 3)];
      assert ScanCells(table, 7, [Block(0, 0), Block(0, 1), Block(0, 2), Block(0, 3)], 2) == (ShapeBlocks(4), 2);
      assert [Block(0, 0), Block(0, 1)] + [Block(0, 2)] == [Block(0, 0), Block(0, 1), Block(0, 2)];
      assert ScanCells(table, 6, [Block(0, 0), Block(0, 1), Block(0, 2)], 2) == (ShapeBlocks(4), 2);
      assert ScanCells(table, 5, [Block(0, 0), Block(0, 1), Block(0, 2)], 2) == (ShapeBlocks(4), 2);
      assert [Block(0, 0)] + [Block(0, 1)] == [Block(0, 0), Block(0, 1)];
      assert ScanCells(table, 4, [Block(0, 0), Block(0, 1)], -1) == (ShapeBlocks(4), 2);
      assert ScanCells(table, 3, [Block(0, 0), Block(0, 1)], -1) == (ShapeBlocks(4), 2);
      assert [] + [Block(0, 0)] == [Block(0, 0)];
      assert ScanCells(table, 2, [Block(0, 0)], -1) == (ShapeBlocks(4), 2);
      assert ScanCells(table, 1, [Block(0, 0)], -1) == (ShapeBlocks(4), 2);
      assert ScanCells(table, 0, [], -1) == (ShapeBlocks(4), 2);
    } else if shapeId == 5 {
      assert [Block(0, 0), Block(0, 1), Block(0, 2)] + [Block(1, 2)] == [Block(0, 0), Block(0, 1), Block(0, 2), Block(1, 2)];
      assert ScanCells(table, 6, [Block(0, 0), Block(0, 1), Block(0, 2), Block(1, 2)], 1) == (ShapeBlocks(5), 1);
      assert [Block(0, 0), Block(0, 1)] + [Block(0, 2)] == [Block(0, 0), Block(0, 1), Block(0, 2)];
      assert ScanCells(table, 5, [Block(0, 0), Block(0, 1), Block(0, 2)], 1) == (ShapeBlocks(5), 1);
      assert [Block(0, 0)] + [Block(0, 1)] == [Block(0, 0), Block(0, 1)];
      assert ScanCells(table, 4, [Block(0, 0), Block(0, 1)], 1) == (ShapeBlocks(5), 1);
      assert ScanCells(table, 3, [Block(0, 0), Block(0, 1)], 1) == (ShapeBlocks(5), 1);
      assert [] + [Block(0, 0)] == [Block(0, 0)];
      assert ScanCells(table, 2, [Block(0, 0)], -1) == (ShapeBlocks(5), 1);
      assert ScanCells(table, 1, [Block(0, 0)], -1) == (ShapeBlocks(5), 1);
      assert ScanCells(table, 0, [], -1) == (ShapeBlocks(5), 1);
    } else if shapeId == 6 {
      assert [Block(1, 0), Block(1, 1), Block(0, 2)] + [Block(1, 2)] == [Block(1, 0), Block(1, 1), Block(0, 2), Block(1, 2)];
      assert ScanCells(table, 6, [Block(1, 0), Block(1, 1), Block(0, 2), Block(1, 2)], 1) == (ShapeBlocks(6), 1);
      assert [Block(1, 0), Block(1, 1)] + [Block(0, 2)] == [Block(1, 0), Block(1, 1), Block(0, 2)];
      assert ScanCells(table, 5, [Block(1, 0), Block(1, 1), Block(0, 2)], 1) == (ShapeBlocks(6), 1);
      assert [Block(1, 0)] + [Block(1, 1)] == [Block(1, 0), Block(1, 1)];
      assert ScanCells(table, 4, [Block(1, 0), Block(1, 1)], 1) == (ShapeBlocks(6), 1);
      assert [] + [Block(1, 0)] == [Block(1, 0)];
      assert ScanCells(table, 3, [Block(1, 0)], -1) == (ShapeBlocks(6), 1);
      assert ScanCells(table, 2, [Block(1, 0)], -1) == (ShapeBlocks(6), 1);
      assert ScanCells(table, 1, [], -1) == (ShapeBlocks(6), 1);
      assert ScanCells(table, 0, [], -1) == (ShapeBlocks(6), 1);
    } else {
      assert [Block(0, 0), Block(0, 1), Block(1, 1)] + [Block(0, 2)] == [Block(0, 0), Block(0, 1), Block(1, 1), Block(0, 2)];
      assert ScanCells(table, 5, [Block(0, 0), Block(0, 1), Block(1, 1), Block(0, 2)], 1) == (ShapeBlocks(7), 1);
      assert [Block(0, 0), Block(0, 1)] + [Block(1, 1)] == [Block(0, 0), Block(0, 1), Block(1, 1)];
      assert ScanCells(table, 4, [Block(0, 0), Block(0, 1), Block(1, 1)], 1) == (ShapeBlocks(7), 1);
      assert [Block(0, 0)] + [Block(0, 1)] == [Block(0, 0), Block(0, 1)];
      assert ScanCells(table, 3, [Block(0, 0), Block(0, 1)], 1) == (ShapeBlocks(7), 1);
      assert [] + [Block(0, 0)] == [Block(0, 0)];
      assert ScanCells(table, 2, [Block(0, 0)], -1) == (ShapeBlocks(7), 1);
      assert ScanCells(table, 1, [Block(0, 0)], -1) == (ShapeBlocks(7), 1);
      assert ScanCells(table, 0, [], -1) == (ShapeBlocks(7), 1);
    }
    var r := ScanCells(table, 0, [], -1);
    assert r == (ShapeBlocks(shapeId), ShapePivot(shapeId));
    assert r.0 + start[|r.0|..] == r.0;
  }


  /** Each shape has four distinct blocks in columns 0..1 and rows
      0..ShapeHeight - 1, with no gap in its rows or columns. */
  lemma ShapeFacts(shapeId: int)
    requires IsShapeId(shapeId)
    ensures forall i :: 0 <= i < 4 ==> 0 <= ShapeBlocks(shapeId)[i].x <= 1
    ensures forall i :: 0 <= i < 4 ==> 0 <= ShapeBlocks(shapeId)[i].y < ShapeHeight(shapeId) <= 4
    ensures forall i, j :: 0 <= i < j < 4 ==> ShapeBlocks(shapeId)[i] != ShapeBlocks(shapeId)[j]
    ensures Gapless(ShapeBlocks(shapeId))
  {
    var s := ShapeBlocks(shapeId);
    assert s[0].y == 0 && s[3].y == ShapeHeight(shapeId) - 1;
    assert HasRow(s, 1) by { assert s[1].y == 1 || s[2].y == 1; }
    if shapeId != ShapeO {
      assert HasRow(s, 2) by { assert s[2].y == 2 || s[3].y == 2; }
    }
  }

  /** The pieces the generator hands out: one of the seven shapes, freshly
      decoded, with the undo buffer at the origin, an active colour and no
      hard-drop distance computed yet. */
  predicate IsGenerated(t: Tetromino)
  {
    && IsShapeId(t.shapeId)
    && t.current == ShapeBlocks(t.shapeId)
    && t.rotationIndex == ShapePivot(t.shapeId)
    && t.previous == Origin
    && ActiveColor(t.colorId)
    && t.hardDropDistance == -1
  }

  /** The colour a single draw of the random source stands for. */
  function DrawColor(draw: nat): int
  {
    draw % 7 + FirstActiveColor
  }

  /** The colour-drawing loop: the first draw whose colour differs from
      lastColorId, or None if the given draws run out first. */
  function PickColor(draws: seq<nat>, lastColorId: int): (c: Option<int>)
    ensures c.Some? ==> ActiveColor(c.value) && c.value != lastColorId
    ensures c.None? <==> forall k :: 0 <= k < |draws| ==> DrawColor(draws[k]) == lastColorId
    ensures c.Some? ==> exists k :: 0 <= k < |draws| && c.value == DrawColor(draws[k])
                                    && forall j :: 0 <= j < k ==> DrawColor(draws[j]) == lastColorId
  {
    if |draws| == 0 then None
    else if DrawColor(draws[0]) != lastColorId then Some(DrawColor(draws[0]))
    else
      var rest := PickColor(draws[1..], lastColorId);
      assert rest.Some? ==> exists k :: 1 <= k < |draws| && rest.value == DrawColor(draws[k])
                                        && forall j :: 0 <= j < k ==> DrawColor(draws[j]) == lastColorId;
      rest
  }

  /** The random source yields two different colours among the given draws,
      so the colour loop ends whichever colour it must avoid. */
  predicate TwoColors(draws: seq<nat>)
  {
    exists i, j :: 0 <= i < j < |draws| && DrawColor(draws[i]) != DrawColor(draws[j])
  }

  /** With two different colours among the draws the colour loop always
      accepts one. */
  lemma TwoColorsPick(draws: seq<nat>, lastColorId: int)
    requires TwoColors(draws)
    ensures PickColor(draws, lastColorId).Some?
  {
    var i, j :| 0 <= i < j < |draws| && DrawColor(draws[i]) != DrawColor(draws[j]);
    assert DrawColor(draws[i]) != lastColorId || DrawColor(draws[j]) != lastColorId;
  }

  /** Generator::getTetromino: a shape draw, then colour draws until one
      differs from lastColorId. */
  function GetTetromino(shapeDraw: nat, colorDraws: seq<nat>, lastColorId: int): (t: Tetromino)
    requires TwoColors(colorDraws)
    ensures IsGenerated(t)
    ensures t.shapeId == shapeDraw % 7 + 1
    ensures t.colorId != lastColorId
    ensures exists k :: 0 <= k < |colorDraws| && t.colorId == DrawColor(colorDraws[k])
  {
    var shapeId := shapeDraw % 7 + 1;
    var (blocks, pivot) := Decoded(TableOf(shapeId), Origin);
    DecodeShapeTables(shapeId, Origin);
    TwoColorsPick(colorDraws, lastColorId);
    Tetromino(blocks, Origin, pivot, shapeId, PickColor(colorDraws, lastColorId).value, -1)
  }
}
