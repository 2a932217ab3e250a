/** Line clearing: every full row is emptied (each of its cells leaving a
    flying-block effect behind) and the rows above it close the gap, scanned
    once from the bottom row up. */
module Lines {
  import opened Board

  /** A flying-block effect created where a cleared cell was: column, row and
      the colour the cell held. */
  datatype Effect = Effect(x: int, y: int, colorId: int)

  /** What a line clear yields: the new board, the number of rows cleared
      and the effects of the cleared cells. */
  datatype Clearing = Clearing(grid: Grid, count: nat, effects: seq<Effect>)

  /** A row with no empty cell. */
  predicate FullRow(row: seq<int>)
  {
    forall c :: 0 <= c < |row| ==> row[c] != 0
  }

  /** Logic::isRowFull: scan the row for an empty cell, stopping at the first. */
  method IsRowFull(g: Grid, r: int) returns (full: bool)
    requires 0 <= r < Rows
    ensures full <==> FullRow(g[r])
  {
    var c := 0;
    while c < Cols
      invariant 0 <= c <= Cols
      invariant forall k :: 0 <= k < c ==> g[r][k] != 0
    {
      if g[r][c] == 0 {
        return false;
      }
      c := c + 1;
    }
    return true;
  }

  /** The effects clearing row r of the given contents creates, one per
      column, left to right. */
  function RowEffects(row: seq<int>, r: int): seq<Effect>
    requires |row| == Cols
  {
    seq(Cols, c requires 0 <= c < Cols => Effect(c, r, row[c]))
  }

  /** Logic::clearRow: row r empties, leaving one effect per former cell. */
  function ClearRow(g: Grid, r: int): (res: (Grid, seq<Effect>))
    requires 0 <= r < Rows
    ensures forall y, x :: 0 <= y < Rows && 0 <= x < Cols ==>
      res.0[y][x] == (if y == r then 0 else g[y][x])
    ensures |res.1| == Cols
    ensures forall c :: 0 <= c < Cols ==> res.1[c] == Effect(c, r, g[r][c])
  {
    (g[r := EmptyRow()], RowEffects(g[r], r))
  }

  /** Logic::moveRowDown: row r is copied num rows lower and then emptied;
      with num = 0 the row simply empties, as the cell-by-cell copy does. */
  function MoveRowDown(g: Grid, r: int, num: int): (res: Grid)
    requires 0 <= r && 0 <= num && r + num < Rows
    ensures forall y, x :: 0 <= y < Rows && 0 <= x < Cols ==>
      res[y][x] == (if y == r then 0 else if y == r + num then g[r][x] else g[y][x])
  {
    g[r + num := g[r]][r := EmptyRow()]
  }

  /** Number of full rows in a stack. */
  function FullRowCount(rows: seq<seq<int>>): nat
  {
    if |rows| == 0 then 0
    else (if FullRow(rows[0]) then 1 else 0) + FullRowCount(rows[1..])
  }

  /** The rows that are not full, in their original order. */
  function KeptRows(rows: seq<seq<int>>): seq<seq<int>>
  {
    if |rows| == 0 then []
    else (if FullRow(rows[0]) then [] else [rows[0]]) + KeptRows(rows[1..])
  }

  function ZeroRows(n: nat): (rows: seq<seq<int>>)
    ensures |rows| == n
  {
    seq(n, _ => EmptyRow())
  }

  /** Every row is either kept or counted. */
  lemma {:induction false} KeptAndCounted(rows: seq<seq<int>>)
    ensures |KeptRows(rows)| + FullRowCount(rows) == |rows|
    ensures forall k :: 0 <= k < |KeptRows(rows)| ==> !FullRow(KeptRows(rows)[k])
    ensures forall k :: 0 <= k < |KeptRows(rows)| ==> KeptRows(rows)[k] in rows
  {
    if |rows| > 0 {
      KeptAndCounted(rows[1..]);
      var kept := KeptRows(rows);
      var tail := KeptRows(rows[1..]);
      if !FullRow(rows[0]) {
        assert kept == [rows[0]] + tail;
        forall k | 0 <= k < |kept|
          ensures kept[k] in rows
        {
          if k > 0 {
            assert kept[k] == tail[k - 1];
            assert tail[k - 1] in rows[1..];
          }
        }
      } else {
        assert kept == tail;
        forall k | 0 <= k < |kept|
          ensures kept[k] in rows
        {
          assert tail[k] in rows[1..];
        }
      }
    }
  }

  /** The board after clearing: one empty row per cleared row on top, then
      the rows that were not full, in their original order. */
  function ClearedGrid(g: Grid): (res: Grid)
  {
    KeptAndCounted(g);
    ZeroRows(FullRowCount(g)) + KeptRows(g)
  }

  /** The effects of clearing rows r .. Rows-1, in the bottom-up order the
      clearing scan creates them. */
  function EffectsFrom(g: Grid, r: nat): seq<Effect>
    decreases Rows - r
  {
    if r >= Rows then []
    else EffectsFrom(g, r + 1) + (if FullRow(g[r]) then RowEffects(g[r], r) else [])
  }

  function ClearEffects(g: Grid): seq<Effect>
  {
    EffectsFrom(g, 0)
  }

  lemma SuffixSplit(g: Grid, r: int)
    requires 0 <= r < Rows
    ensures g[r..] == [g[r]] + g[r + 1..]
    ensures FullRowCount(g[r..]) == (if FullRow(g[r]) then 1 else 0) + FullRowCount(g[r + 1..])
    ensures KeptRows(g[r..]) == (if FullRow(g[r]) then [] else [g[r]]) + KeptRows(g[r + 1..])
  {
    assert g[r..][0] == g[r];
    assert g[r..][1..] == g[r + 1..];
  }

  /** Rows r .. Rows-1 have been scanned: the rows above r are untouched,
      and from r down come the emptied rows, then the kept ones. */
  predicate Scanned(g: Grid, res: Grid, r: int, cleared: nat)
    requires 0 <= r <= Rows
  {
    && res[..r] == g[..r]
    && cleared == FullRowCount(g[r..])
    && res[r..] == ZeroRows(cleared) + KeptRows(g[r..])
  }

  /** Scanning row r when it is full: it empties and the count grows. */
  lemma ScanFull(g: Grid, res: Grid, r: int, cleared: nat)
    requires 0 <= r < Rows && Scanned(g, res, r + 1, cleared) && FullRow(g[r])
    ensures Scanned(g, res[r := EmptyRow()], r, cleared + 1)
  {
    SuffixSplit(g, r);
    var res' := res[r := EmptyRow()];
    assert res'[..r] == res[..r + 1][..r];
    assert res'[r..] == [EmptyRow()] + res[r + 1..];
    assert ZeroRows(cleared + 1) == [EmptyRow()] + ZeroRows(cleared);
  }

  /** Scanning a kept row r once rows were cleared below it: it drops by the
      number cleared so far, landing on the topmost emptied row. */
  lemma ScanMove(g: Grid, res: Grid, r: int, cleared: nat)
    requires 0 <= r < Rows && Scanned(g, res, r + 1, cleared) && !FullRow(g[r])
    requires 0 < cleared
    ensures r + cleared < Rows
    ensures Scanned(g, MoveRowDown(res, r, cleared), r, cleared)
  {
    SuffixSplit(g, r);
    KeptAndCounted(g[r + 1..]);
    assert res[r] == g[r] by {
      assert res[..r + 1][r] == g[..r + 1][r];
    }
    var res' := MoveRowDown(res, r, cleared);
    assert res'[..r] == res[..r + 1][..r];
    assert res'[r..] == ZeroRows(cleared) + ([g[r]] + KeptRows(g[r + 1..]));
  }

  /** Scanning a kept row r with nothing cleared below it: it stays. */
  lemma ScanKeep(g: Grid, res: Grid, r: int)
    requires 0 <= r < Rows && Scanned(g, res, r + 1, 0) && !FullRow(g[r])
    ensures Scanned(g, res, r, 0)
  {
    SuffixSplit(g, r);
    assert res[r] == g[r] by {
      assert res[..r + 1][r] == g[..r + 1][r];
    }
    assert res[..r] == res[..r + 1][..r];
    assert res[r..] == [res[r]] + res[r + 1..];
  }

  /** Logic::clearFullRows: from the bottom row up, a full row is cleared
      and counted; any other row drops by the number cleared so far. The
      result is the board with every full row removed and empty rows added on
      top, the count is the number of full rows, and the effects are those of
      the cleared cells. */
  method ClearFullRows(g: Grid) returns (c: Clearing)
    ensures c == Clearing(ClearedGrid(g), FullRowCount(g), ClearEffects(g))
    ensures forall r :: 0 <= r < Rows ==> !FullRow(c.grid[r])
    ensures Occupancy(c.grid) + c.count * Cols == Occupancy(g)
  {
    var res, cleared, effects := g, 0, [];
    var r := Rows - 1;
    assert g[Rows..] == [];
    while r >= 0
      invariant -1 <= r < Rows
      invariant Scanned(g, res, r + 1, cleared)
      invariant effects == EffectsFrom(g, r + 1)
    {
      var full := IsRowFull(res, r);
      assert res[r] == g[r] by {
        assert res[..r + 1][r] == g[..r + 1][r];
      }
      if full {
        ScanFull(g, res, r, cleared);
        var e;
        res, e := ClearRow(res, r).0, ClearRow(res, r).1;
        effects := effects + e;
        cleared := cleared + 1;
      } else if cleared > 0 {
        ScanMove(g, res, r, cleared);
        res := MoveRowDown(res, r, cleared);
      } else {
        ScanKeep(g, res, r);
      }
      r := r - 1;
    }
    assert g[0..] == g;
    assert res[0..] == res;
    ClearedHasNoFullRow(g);
    ClearedOccupancy(g);
    c := Clearing(res, cleared, effects);
  }

  /** After clearing no row is full. */
  lemma ClearedHasNoFullRow(g: Grid)
    ensures forall r :: 0 <= r < Rows ==> !FullRow(ClearedGrid(g)[r])
  {
    var n := FullRowCount(g);
    KeptAndCounted(g);
    forall r | 0 <= r < Rows
      ensures !FullRow(ClearedGrid(g)[r])
    {
      if r < n {
        assert ClearedGrid(g)[r] == EmptyRow();
        assert EmptyRow()[0] == 0;
      } else {
        assert ClearedGrid(g)[r] == KeptRows(g)[r - n];
      }
    }
  }

  /** A board without a full row is left exactly as it was. */
  lemma {:induction false} NothingToClear(rows: seq<seq<int>>)
    requires forall r :: 0 <= r < |rows| ==> !FullRow(rows[r])
    ensures FullRowCount(rows) == 0
    ensures KeptRows(rows) == rows
  {
    if |rows| > 0 {
      NothingToClear(rows[1..]);
      assert rows == [rows[0]] + rows[1..];
    }
  }

  /** Clearing changes nothing when no row is full. */
  lemma ClearWithoutFullRows(g: Grid)
    requires forall r :: 0 <= r < Rows ==> !FullRow(g[r])
    ensures ClearedGrid(g) == g
    ensures ClearEffects(g) == []
  {
    NothingToClear(g);
    NoEffects(g, 0);
  }

  lemma {:induction false} NoEffects(g: Grid, r: nat)
    requires forall k :: 0 <= k < Rows ==> !FullRow(g[k])
    ensures EffectsFrom(g, r) == []
    decreases Rows - r
  {
    if r < Rows {
      NoEffects(g, r + 1);
    }
  }

  /** Each effect stands for one cell of a full row, carrying its colour, and
      there is one effect per cell of every full row. */
  lemma {:induction false} EffectsAreClearedCells(g: Grid, r: nat)
    ensures forall e :: e in EffectsFrom(g, r) ==>
      r <= e.y < Rows && 0 <= e.x < Cols && FullRow(g[e.y]) && e.colorId == g[e.y][e.x]
    ensures r <= Rows ==> |EffectsFrom(g, r)| == FullRowCount(g[r..]) * Cols
    decreases Rows - r
  {
    if r < Rows {
      EffectsAreClearedCells(g, r + 1);
      SuffixSplit(g, r);
      if FullRow(g[r]) {
        forall e | e in RowEffects(g[r], r)
          ensures r <= e.y < Rows && 0 <= e.x < Cols && FullRow(g[e.y]) && e.colorId == g[e.y][e.x]
        {
          var c :| 0 <= c < Cols && RowEffects(g[r], r)[c] == e;
        }
      }
    } else if r == Rows {
      assert g[r..] == [];
    }
  }

  /** A full row holds exactly one occupied cell per column. */
  lemma {:induction false} FullRowOccupancy(row: seq<int>)
    requires FullRow(row)
    ensures RowOccupancy(row) == |row|
  {
    if |row| > 0 {
      FullRowOccupancy(row[1..]);
    }
  }

  lemma {:induction false} OccupancyAppend(a: seq<seq<int>>, b: seq<seq<int>>)
    ensures Occupancy(a + b) == Occupancy(a) + Occupancy(b)
  {
    if |a| > 0 {
      assert (a + b)[1..] == a[1..] + b;
      OccupancyAppend(a[1..], b);
    } else {
      assert a + b == b;
    }
  }

  lemma {:induction false} ZeroRowsUnoccupied(n: nat)
    ensures Occupancy(ZeroRows(n)) == 0
  {
    EmptyRowsUnoccupied(ZeroRows(n));
  }

  lemma {:induction false} KeptOccupancy(rows: seq<seq<int>>)
    requires forall r :: 0 <= r < |rows| ==> |rows[r]| == Cols
    ensures Occupancy(KeptRows(rows)) + FullRowCount(rows) * Cols == Occupancy(rows)
  {
    if |rows| > 0 {
      KeptOccupancy(rows[1..]);
      var head: seq<seq<int>> := if FullRow(rows[0]) then [] else [rows[0]];
      OccupancyAppend(head, KeptRows(rows[1..]));
      if FullRow(rows[0]) {
        FullRowOccupancy(rows[0]);
      } else {
        assert Occupancy(head) == RowOccupancy(rows[0]) by {
          assert head[1..] == [];
        }
      }
    }
  }

  /** Clearing removes exactly Cols occupied cells per cleared row. */
  lemma ClearedOccupancy(g: Grid)
    ensures Occupancy(ClearedGrid(g)) + FullRowCount(g) * Cols == Occupancy(g)
  {
    var n := FullRowCount(g);
    OccupancyAppend(ZeroRows(n), KeptRows(g));
    ZeroRowsUnoccupied(n);
    KeptOccupancy(g);
  }

  /** Clearing keeps the top row empty and introduces no new colour. */
  lemma ClearedKeepsShape(g: Grid)
    requires PaletteOnly(g) && TopRowEmpty(g)
    ensures PaletteOnly(ClearedGrid(g)) && TopRowEmpty(ClearedGrid(g))
  {
    var n := FullRowCount(g);
    var res := ClearedGrid(g);
    KeptAndCounted(g);
    forall r, c | 0 <= r < Rows && 0 <= c < Cols
      ensures res[r][c] == 0 || ActiveColor(res[r][c])
    {
      if r >= n {
        assert res[r] == KeptRows(g)[r - n];
        var k :| 0 <= k < Rows && g[k] == res[r];
      }
    }
    if n == 0 {
      NothingFull(g);
      ClearWithoutFullRows(g);
    }
  }

  lemma {:induction false} CountZero(rows: seq<seq<int>>)
    requires FullRowCount(rows) == 0
    ensures forall r :: 0 <= r < |rows| ==> !FullRow(rows[r])
  {
    if |rows| > 0 {
      CountZero(rows[1..]);
      assert forall r :: 1 <= r < |rows| ==> rows[r] == rows[1..][r - 1];
    }
  }

  lemma NothingFull(g: Grid)
    requires FullRowCount(g) == 0
    ensures forall r :: 0 <= r < Rows ==> !FullRow(g[r])
  {
    CountZero(g);
  }
}
