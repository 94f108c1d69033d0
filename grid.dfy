/**
 * The in-memory table (`ExcelTableModel`): a sequence of rows of cells,
 * row 0 being the header. The pure functions say what each operation does
 * to a table value; the class holds the table the application mutates.
 */
module Grid {
  import opened Cells

  type Row = seq<Cell>
  type Table = seq<Row>

  /** The width of a row appended to an empty table. */
  const DefaultWidth: nat := 7

  /** `columnCount()`: the header's width, 0 for an empty table. */
  function Width(g: Table): nat
  {
    if g == [] then 0 else |g[0]|
  }

  /** Every row is as wide as the header. */
  predicate Rectangular(g: Table)
  {
    forall i :: 0 <= i < |g| ==> |g[i]| == Width(g)
  }

  predicate InBounds(g: Table, row: int, col: int)
  {
    0 <= row < |g| && 0 <= col < |g[row]|
  }

  /** `getData(row, column)`: the cell, or an empty cell outside the table. */
  function GetCell(g: Table, row: int, col: int): Cell
  {
    if InBounds(g, row, col) then g[row][col] else Empty
  }

  /** `setDataAt(row, column, value)`: writes one cell inside the table and never grows it. */
  function SetCell(g: Table, row: int, col: int, v: Cell): (r: Table)
    ensures |r| == |g|
    ensures forall i :: 0 <= i < |g| ==> |r[i]| == |g[i]|
    ensures forall i, j :: InBounds(g, i, j) ==> r[i][j] == (if i == row && j == col then v else g[i][j])
    ensures !InBounds(g, row, col) ==> r == g
    ensures forall i :: 0 <= i < |g| && i != row ==> r[i] == g[i]
  {
    if InBounds(g, row, col) then g[row := g[row][col := v]] else g
  }

  function BlankRow(n: nat): (r: Row)
    ensures |r| == n && forall j :: 0 <= j < n ==> r[j] == Empty
  {
    seq(n, _ => Empty)
  }

  /** `addRow()`: one empty row as wide as the header, or 7 wide on an empty table. */
  function AppendRow(g: Table): (r: Table)
    ensures |r| == |g| + 1 && r[..|g|] == g
    ensures |r[|g|]| == (if g == [] then DefaultWidth else Width(g))
    ensures forall j :: 0 <= j < |r[|g|]| ==> r[|g|][j] == Empty
  {
    g + [BlankRow(if g == [] then DefaultWidth else Width(g))]
  }

  /** `addColumn()`: one empty cell at the end of every row; nothing on an empty table. */
  function AppendColumn(g: Table): (r: Table)
    ensures |r| == |g|
    ensures g == [] ==> r == g
    ensures forall i :: 0 <= i < |g| ==> |r[i]| == |g[i]| + 1 && r[i][..|g[i]|] == g[i] && r[i][|g[i]|] == Empty
  {
    seq(|g|, i requires 0 <= i < |g| => g[i] + [Empty])
  }

  /**
   * Reading after a write: the written cell reads back as the value when it
   * is inside the table, and every other cell reads as before.
   */
  lemma ReadAfterWrite(g: Table, row: int, col: int, v: Cell, i: int, j: int)
    ensures GetCell(SetCell(g, row, col, v), i, j) ==
      if InBounds(g, row, col) && i == row && j == col then v else GetCell(g, i, j)
  {
  }

  /** Writing a cell keeps a rectangular table rectangular, with the same width. */
  lemma SetCellKeepsShape(g: Table, row: int, col: int, v: Cell)
    requires Rectangular(g)
    ensures Rectangular(SetCell(g, row, col, v)) && Width(SetCell(g, row, col, v)) == Width(g)
  {
  }

  /** Adding a row keeps a non-empty rectangular table rectangular; an empty table becomes 7 wide. */
  lemma AppendRowKeepsShape(g: Table)
    requires Rectangular(g)
    ensures Rectangular(AppendRow(g))
    ensures Width(AppendRow(g)) == if g == [] then DefaultWidth else Width(g)
  {
    var r := AppendRow(g);
    assert forall i :: 0 <= i < |g| ==> r[i] == g[i];
  }

  /** Adding a column widens a non-empty rectangular table by exactly one. */
  lemma AppendColumnWidens(g: Table)
    requires Rectangular(g) && g != []
    ensures Rectangular(AppendColumn(g)) && Width(AppendColumn(g)) == Width(g) + 1
  {
  }

  /** The table model itself: `m_data`, mutated in place. */
  class TableModel {
    var data: Table

    constructor ()
      ensures data == []
    {
      data := [];
    }

    /** `rowCount()`: the number of rows, none without a header. */
    function RowCount(): (n: nat)
      reads this
      ensures n == |data|
      ensures n == 0 ==> ColumnCount() == 0
    {
      |data|
    }

    /** `columnCount()`: the header's width, 0 on an empty table; in a rectangular table every row has it. */
    function ColumnCount(): (n: nat)
      reads this
      ensures data != [] ==> n == |data[0]|
      ensures Rectangular(data) ==> forall i :: 0 <= i < |data| ==> |data[i]| == n
    {
      Width(data)
    }

    /** `getData(row, column)`: the stored cell, or an empty cell outside the table. */
    function GetData(row: int, column: int): (c: Cell)
      reads this
      ensures InBounds(data, row, column) ==> c == data[row][column]
      ensures c != Empty ==> 0 <= row < RowCount() && 0 <= column < |data[row]|
    {
      GetCell(data, row, column)
    }

    /** `setDataAt`: false, and nothing written, outside the table. */
    method SetDataAt(row: int, column: int, value: Cell) returns (ok: bool)
      modifies this
      ensures ok <==> InBounds(old(data), row, column)
      ensures data == SetCell(old(data), row, column, value)
      ensures ok ==> GetData(row, column) == value
      ensures RowCount() == old(RowCount()) && ColumnCount() == old(ColumnCount())
    {
      if row < 0 || row >= |data| {
        return false;
      }
      if column < 0 || column >= |data[row]| {
        return false;
      }
      data := data[row := data[row][column := value]];
      ok := true;
    }

    /** `addRow`. */
    method AddRow()
      modifies this
      ensures data == AppendRow(old(data))
      ensures RowCount() == old(RowCount()) + 1
      ensures ColumnCount() == if old(RowCount()) == 0 then DefaultWidth else old(ColumnCount())
    {
      var cols := if data == [] then DefaultWidth else |data[0]|;
      data := data + [BlankRow(cols)];
    }

    /** `addColumn`: the loop over the rows appending an empty cell to each. */
    method AddColumn()
      modifies this
      ensures data == AppendColumn(old(data))
      ensures RowCount() == old(RowCount())
      ensures ColumnCount() == if old(RowCount()) == 0 then 0 else old(ColumnCount()) + 1
    {
      if data == [] {
        return;
      }
      var i := 0;
      while i < |data|
        invariant 0 <= i <= |data| == |old(data)|
        invariant forall k :: 0 <= k < i ==> data[k] == old(data)[k] + [Empty]
        invariant forall k :: i <= k < |data| ==> data[k] == old(data)[k]
      {
        data := data[i := data[i] + [Empty]];
        i := i + 1;
      }
    }

    /** `setExcelData`: replaces the whole table. */
    method SetExcelData(d: Table)
      modifies this
      ensures data == d
    {
      data := d;
    }

    /** `clear`. */
    method Clear()
      modifies this
      ensures data == []
    {
      data := [];
    }
  }
}
