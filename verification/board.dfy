/** The game board: a fixed matrix of rows by columns holding 0 for an empty
    cell and a piece colour id for an occupied one. */
module Board {

  const Rows: int := 20
  const Cols: int := 10

  /** The colour ids pieces are drawn in (TRed .. TBlueDark in the palette). */
  const FirstActiveColor: int := 9
  const LastActiveColor: int := 15

  predicate ActiveColor(c: int)
  {
    FirstActiveColor <= c <= LastActiveColor
  }

  predicate IsGrid(g: seq<seq<int>>)
  {
    |g| == Rows && forall r :: 0 <= r < Rows ==> |g[r]| == Cols
  }

  /** The board, indexed first by row and then by column. */
  type Grid = g: seq<seq<int>> | IsGrid(g) witness seq(Rows, _ => seq(Cols, _ => 0))

  function EmptyRow(): (row: seq<int>)
    ensures |row| == Cols
  {
    seq(Cols, _ => 0)
  }

  /** Number of non-zero cells of one row. */
  function RowOccupancy(row: seq<int>): nat
  {
    if |row| == 0 then 0
    else (if row[0] != 0 then 1 else 0) + RowOccupancy(row[1..])
  }

  /** Number of non-zero cells of a stack of rows. */
  function Occupancy(rows: seq<seq<int>>): nat
  {
    if |rows| == 0 then 0 else RowOccupancy(rows[0]) + Occupancy(rows[1..])
  }

  /** Grid::clear: every cell empties. */
  function Clear(): (g: Grid)
    ensures forall r, c :: 0 <= r < Rows && 0 <= c < Cols ==> g[r][c] == 0
    ensures Occupancy(g) == 0
  {
    var g := seq(Rows, _ => EmptyRow());
    EmptyRowsUnoccupied(g);
    g
  }

  lemma {:induction false} EmptyRowUnoccupied(row: seq<int>)
    requires forall c :: 0 <= c < |row| ==> row[c] == 0
    ensures RowOccupancy(row) == 0
  {
    if |row| > 0 {
      EmptyRowUnoccupied(row[1..]);
    }
  }

  lemma {:induction false} EmptyRowsUnoccupied(rows: seq<seq<int>>)
    requires forall r :: 0 <= r < |rows| ==> rows[r] == EmptyRow()
    ensures Occupancy(rows) == 0
  {
    if |rows| > 0 {
      EmptyRowUnoccupied(rows[0]);
      EmptyRowsUnoccupied(rows[1..]);
    }
  }

  /** Grid::getValue: the cell's value, or the sentinel -1 past the last row or
      column. Negative coordinates are outside what the source may ask for. */
  function GetValue(g: Grid, x: int, y: int): int
    requires 0 <= x && 0 <= y
  {
    if y < Rows && x < Cols then g[y][x] else -1
  }

  /** The truth test callers apply to GetValue: anything non-zero, sentinel
      included, reads as occupied. */
  predicate Occupied(g: Grid, x: int, y: int)
    requires 0 <= x && 0 <= y
  {
    GetValue(g, x, y) != 0
  }

  /** Unfolding lemma for the sentinel read: a read past the last row or
      column is occupied; a read inside the board is occupied exactly when the
      cell is non-zero. */
  lemma OccupiedMeaning(g: Grid, x: int, y: int)
    requires 0 <= x && 0 <= y
    ensures (x >= Cols || y >= Rows) ==> Occupied(g, x, y) && GetValue(g, x, y) == -1
    ensures (x < Cols && y < Rows) ==> (Occupied(g, x, y) <==> g[y][x] != 0)
  {
  }

  /** Every cell is empty or holds a piece colour. */
  predicate PaletteOnly(g: Grid)
  {
    forall r, c :: 0 <= r < Rows && 0 <= c < Cols ==> g[r][c] == 0 || ActiveColor(g[r][c])
  }

  /** The top row holds nothing. */
  predicate TopRowEmpty(g: Grid)
  {
    forall c :: 0 <= c < Cols ==> g[0][c] == 0
  }

  /** Overwriting one cell changes the row's count by the cell's change. */
  lemma {:induction false} RowOccupancyUpdate(row: seq<int>, x: int, c: int)
    requires 0 <= x < |row|
    ensures RowOccupancy(row[x := c]) + (if row[x] != 0 then 1 else 0)
      == RowOccupancy(row) + (if c != 0 then 1 else 0)
  {
    if x == 0 {
      assert row[x := c][1..] == row[1..];
    } else {
      assert row[x := c][1..] == row[1..][x - 1 := c];
      RowOccupancyUpdate(row[1..], x - 1, c);
    }
  }

  /** Replacing one row changes the count by the rows' difference. */
  lemma {:induction false} OccupancyUpdate(rows: seq<seq<int>>, y: int, r: seq<int>)
    requires 0 <= y < |rows|
    ensures Occupancy(rows[y := r]) + RowOccupancy(rows[y]) == Occupancy(rows) + RowOccupancy(r)
  {
    if y == 0 {
      assert rows[y := r][1..] == rows[1..];
    } else {
      assert rows[y := r][1..] == rows[1..][y - 1 := r];
      OccupancyUpdate(rows[1..], y - 1, r);
    }
  }

  /** Colouring an empty cell adds one occupied cell to the board. */
  lemma FillCell(g: Grid, x: int, y: int, c: int)
    requires 0 <= x < Cols && 0 <= y < Rows && g[y][x] == 0 && c != 0
    ensures Occupancy(g[y := g[y][x := c]]) == Occupancy(g) + 1
  {
    RowOccupancyUpdate(g[y], x, c);
    OccupancyUpdate(g, y, g[y][x := c]);
  }
}
