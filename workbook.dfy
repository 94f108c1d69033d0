/**
 * The worksheet as the engine reads it, and the row scan of `loadExcel`
 * that turns a worksheet into a table: clamp a malformed range, trim the
 * header to its last non-blank cell, skip blank rows, stop after five
 * consecutive blank rows, and fit every kept row to the header's width.
 * Reading the `.xlsx` file itself is not modelled: a `Sheet` is what it yields.
 */
module Workbook {
  import opened Cells
  import opened Grid

  /**
   * An already-read worksheet. Row `r`, column `c` (both 1-based, as in the
   * file) is `cells[r - 1][c - 1]` when present. The dimension is what the
   * file reports and may be malformed (a last row or column before the first).
   */
  datatype Sheet = Sheet(cells: Table, firstRow: int, lastRow: int, firstColumn: int, lastColumn: int)

  /** `cellAt(row, col)`, an absent cell (null pointer) being read as empty. */
  function CellAt(s: Sheet, row: int, col: int): Cell
  {
    GetCell(s.cells, row - 1, col - 1)
  }

  const DefaultLastRow: int := 1000
  const DefaultLastColumn: int := 26
  /** Columns beyond Z are never read. */
  const MaxColumn: int := 26
  const MaxConsecutiveEmpty: nat := 5

  function Min(a: int, b: int): int { if a <= b then a else b }
  function Max(a: int, b: int): int { if a <= b then b else a }

  /** The rows and columns the scan visits, after clamping. */
  datatype Window = Window(startRow: int, endRow: int, startCol: int, endCol: int)

  /** The range fix-up of `loadExcel`. */
  function Clamp(s: Sheet): (w: Window)
    ensures w.startRow >= 1 && w.startCol >= 1
    ensures w.startRow == Max(1, s.firstRow) && w.startCol == Max(1, s.firstColumn)
    ensures 1 <= s.firstRow <= s.lastRow && 1 <= s.firstColumn <= s.lastColumn ==>
              w == Window(s.firstRow, s.lastRow, s.firstColumn, s.lastColumn)
    ensures s.lastRow < w.startRow ==> w.endRow == DefaultLastRow
    ensures s.lastColumn < w.startCol ==> w.endCol == DefaultLastColumn
    ensures w.startRow <= s.lastRow ==> w.endRow == s.lastRow
    ensures w.startCol <= s.lastColumn ==> w.endCol == s.lastColumn
  {
    var startRow := if s.firstRow < 1 then 1 else s.firstRow;
    var startCol := if s.firstColumn < 1 then 1 else s.firstColumn;
    var endRow := if s.lastRow < startRow then DefaultLastRow else s.lastRow;
    var endCol := if s.lastColumn < startCol then DefaultLastColumn else s.lastColumn;
    Window(startRow, endRow, startCol, endCol)
  }

  /** How many cells of each row are read: from the start column to `min(endCol, 26)`. */
  function ReadWidth(w: Window): nat
  {
    Max(0, Min(w.endCol, MaxColumn) - w.startCol + 1)
  }

  /** Row `r` of the sheet as read, before any trimming or fitting. */
  function RawRow(s: Sheet, w: Window, r: int): (row: Row)
  {
    seq(ReadWidth(w), j => CellAt(s, r, w.startCol + j))
  }

  predicate RowBlank(row: Row)
  {
    forall j :: 0 <= j < |row| ==> IsBlank(row[j])
  }

  /** Row `r` of the sheet has no non-blank cell in the columns read. */
  predicate BlankAt(s: Sheet, w: Window, r: int)
  {
    RowBlank(RawRow(s, w, r))
  }

  /** A row cut after its last non-blank cell (the header's "actual columns"). */
  function TrimTrailing(row: Row): Row
  {
    if row != [] && IsBlank(row[|row| - 1]) then TrimTrailing(row[..|row| - 1]) else row
  }

  /** Trimming keeps a prefix of the row, drops only blank cells, and ends at a non-blank one. */
  lemma {:induction false} TrimTrailingSpec(row: Row)
    ensures ActualWidth(row, |TrimTrailing(row)|)
    ensures TrimTrailing(row) == row[..|TrimTrailing(row)|]
    decreases |row|
  {
    if row != [] && IsBlank(row[|row| - 1]) {
      var shorter := row[..|row| - 1];
      var last := row[|row| - 1];
      TrimTrailingSpec(shorter);
      var n := |TrimTrailing(shorter)|;
      ActualWidthSnoc(shorter, n, last);
      assert shorter + [last] == row;
      assert shorter[..n] == row[..n];
    }
  }

  /** `n` is the actual width of `row`: the cell before it is not blank and all after it are. */
  predicate ActualWidth(row: Row, n: nat)
  {
    && n <= |row|
    && (forall j :: n <= j < |row| ==> IsBlank(row[j]))
    && (n > 0 ==> !IsBlank(row[n - 1]))
  }

  /** Adding a cell moves the actual width past it unless the cell is blank. */
  lemma ActualWidthSnoc(row: Row, n: nat, c: Cell)
    requires ActualWidth(row, n)
    ensures ActualWidth(row + [c], if IsBlank(c) then n else |row| + 1)
  {
    var r := row + [c];
    assert forall j :: 0 <= j < |row| ==> r[j] == row[j];
    assert r[|row|] == c;
  }

  /** Trimming a row cuts it at its actual width. */
  lemma {:induction false} TrimTrailingAt(row: Row, n: nat)
    requires ActualWidth(row, n)
    ensures TrimTrailing(row) == row[..n]
    decreases |row|
  {
    if n < |row| {
      var shorter := row[..|row| - 1];
      assert ActualWidth(shorter, n);
      TrimTrailingAt(shorter, n);
      assert shorter[..n] == row[..n];
    }
  }

  /** A row padded with empty cells or truncated to exactly `width` cells. */
  function Fit(row: Row, width: nat): (r: Row)
    ensures |r| == width
  {
    if |row| >= width then row[..width] else row + BlankRow(width - |row|)
  }

  /** A fitted row keeps the row's cells below the width and is empty past them. */
  lemma FitSpec(row: Row, width: nat)
    ensures forall j :: 0 <= j < width ==> Fit(row, width)[j] == (if j < |row| then row[j] else Empty)
  {
  }

  /** The run of consecutive blank rows ending at `r`; the start row never counts. */
  function EmptyRun(s: Sheet, w: Window, r: int): nat
    decreases r - w.startRow
  {
    if r <= w.startRow then 0
    else if BlankAt(s, w, r) then EmptyRun(s, w, r - 1) + 1
    else 0
  }

  /** The scan breaks at row `r`. */
  predicate StopsAt(s: Sheet, w: Window, r: int)
  {
    r > w.startRow && EmptyRun(s, w, r) >= MaxConsecutiveEmpty
  }

  /** The first row at or after `r` where the scan breaks, or the row past the window. */
  function ScanEnd(s: Sheet, w: Window, r: int): int
    decreases w.endRow + 1 - r
  {
    if r > w.endRow then r
    else if StopsAt(s, w, r) then r
    else ScanEnd(s, w, r + 1)
  }

  /** The scan from `r` ends at the first row where it breaks, or just past the window. */
  lemma {:induction false} ScanEndSpec(s: Sheet, w: Window, r: int)
    ensures ScanEnd(s, w, r) >= r
    ensures forall k :: r <= k < ScanEnd(s, w, r) ==> k <= w.endRow && !StopsAt(s, w, k)
    ensures ScanEnd(s, w, r) <= w.endRow ==> StopsAt(s, w, ScanEnd(s, w, r))
    ensures ScanEnd(s, w, r) > w.endRow ==> ScanEnd(s, w, r) == Max(r, w.endRow + 1)
    decreases w.endRow + 1 - r
  {
    if r <= w.endRow && !StopsAt(s, w, r) {
      ScanEndSpec(s, w, r + 1);
    }
  }

  /** Where the scan of the whole sheet ends. */
  function Stop(s: Sheet, w: Window): int
  {
    ScanEnd(s, w, w.startRow)
  }

  /** The sheet rows in `[startRow, hi)` that are not blank, in order. */
  function Kept(s: Sheet, w: Window, hi: int): seq<int>
    decreases hi - w.startRow
  {
    if hi <= w.startRow then []
    else Kept(s, w, hi - 1) + (if BlankAt(s, w, hi - 1) then [] else [hi - 1])
  }

  /** The kept rows below `hi` are non-blank rows from the start row on, in ascending order. */
  lemma {:induction false} KeptSorted(s: Sheet, w: Window, hi: int)
    ensures forall i :: 0 <= i < |Kept(s, w, hi)| ==> w.startRow <= Kept(s, w, hi)[i] < hi && !BlankAt(s, w, Kept(s, w, hi)[i])
    ensures forall i, j :: 0 <= i < j < |Kept(s, w, hi)| ==> Kept(s, w, hi)[i] < Kept(s, w, hi)[j]
    decreases hi - w.startRow
  {
    if hi > w.startRow {
      KeptSorted(s, w, hi - 1);
      var prev := Kept(s, w, hi - 1);
      var ks := Kept(s, w, hi);
      assert ks == prev + (if BlankAt(s, w, hi - 1) then [] else [hi - 1]);
      assert forall i :: 0 <= i < |prev| ==> ks[i] == prev[i];
    }
  }

  /** Every non-blank row below `hi`, from the start row on, is kept. */
  lemma {:induction false} KeptComplete(s: Sheet, w: Window, hi: int)
    ensures forall r :: w.startRow <= r < hi && !BlankAt(s, w, r) ==> r in Kept(s, w, hi)
    decreases hi - w.startRow
  {
    if hi > w.startRow {
      KeptComplete(s, w, hi - 1);
      var prev := Kept(s, w, hi - 1);
      var ks := Kept(s, w, hi);
      assert ks == prev + (if BlankAt(s, w, hi - 1) then [] else [hi - 1]);
      forall r | w.startRow <= r < hi && !BlankAt(s, w, r)
        ensures r in ks
      {
        if r < hi - 1 {
          assert r in prev;
        }
      }
    }
  }

  /** The first kept row becomes the header; it is trimmed only when it is the start row. */
  function Header(s: Sheet, w: Window, k: int): Row
  {
    if k == w.startRow then TrimTrailing(RawRow(s, w, k)) else RawRow(s, w, k)
  }

  /** `data` holds the kept rows `ks`: the header first, every later row fitted to its width. */
  predicate Holds(s: Sheet, w: Window, ks: seq<int>, data: Table)
  {
    && |data| == |ks|
    && (|ks| > 0 ==> data[0] == Header(s, w, ks[0]))
    && (forall i :: 1 <= i < |ks| ==> data[i] == Fit(RawRow(s, w, ks[i]), |data[0]|))
  }

  /** Adding a blank cell keeps a blank row blank; adding a non-blank one never is blank. */
  lemma RowBlankSnoc(row: Row, c: Cell)
    ensures RowBlank(row + [c]) <==> RowBlank(row) && IsBlank(c)
  {
    assert forall j :: 0 <= j < |row| ==> (row + [c])[j] == row[j];
    assert (row + [c])[|row|] == c;
  }

  /** A kept row extends the table built so far by one row, keeping it rectangular. */
  lemma KeepRow(s: Sheet, w: Window, row: int, data: Table, rowData: Row)
    requires w.startRow <= row && !BlankAt(s, w, row)
    requires Holds(s, w, Kept(s, w, row), data) && Rectangular(data)
    requires row == w.startRow ==> data == []
    requires data == [] ==> rowData == Header(s, w, row)
    requires data != [] ==> rowData == Fit(RawRow(s, w, row), |data[0]|)
    ensures Holds(s, w, Kept(s, w, row + 1), data + [rowData])
    ensures Rectangular(data + [rowData])
  {
    var ks := Kept(s, w, row);
    var ks' := Kept(s, w, row + 1);
    assert ks' == ks + [row];
    var d := data + [rowData];
    if data == [] {
      assert d == [rowData] && ks' == [row];
    } else {
      assert d[0] == data[0] && ks'[0] == ks[0];
      forall i | 1 <= i < |ks'|
        ensures d[i] == Fit(RawRow(s, w, ks'[i]), |d[0]|)
      {
        if i < |ks| {
          assert d[i] == data[i] && ks'[i] == ks[i];
        }
      }
      forall i | 0 <= i < |d|
        ensures |d[i]| == Width(d)
      {
        if i < |data| {
          assert d[i] == data[i];
        }
      }
    }
  }

  /** A non-blank row ends any run of blank rows, so the scan goes on past it. */
  lemma PassRow(s: Sheet, w: Window, row: int)
    requires w.startRow <= row <= w.endRow && !BlankAt(s, w, row)
    ensures EmptyRun(s, w, row) == 0
    ensures ScanEnd(s, w, row) == ScanEnd(s, w, row + 1)
  {
  }

  /** A blank row keeps no row and moves the scan on unless it is the fifth blank in a row. */
  lemma SkipRow(s: Sheet, w: Window, row: int)
    requires w.startRow <= row <= w.endRow && BlankAt(s, w, row)
    ensures Kept(s, w, row + 1) == Kept(s, w, row)
    ensures EmptyRun(s, w, row) == if row > w.startRow then EmptyRun(s, w, row - 1) + 1 else 0
    ensures !StopsAt(s, w, row) ==> ScanEnd(s, w, row) == ScanEnd(s, w, row + 1)
    ensures StopsAt(s, w, row) ==> ScanEnd(s, w, row) == row
  {
  }

  /** The inner column loop of the scan: the row's cells, whether all are blank, and its actual width. */
  method ReadRow(s: Sheet, w: Window, row: int) returns (rowData: Row, rowIsEmpty: bool, actualColumns: nat)
    ensures |rowData| == ReadWidth(w)
    ensures rowData == RawRow(s, w, row)
    ensures rowIsEmpty <==> RowBlank(rowData)
    ensures ActualWidth(rowData, actualColumns)
  {
    rowData := [];
    rowIsEmpty := true;
    actualColumns := 0;
    var maxColToCheck := Min(w.endCol, MaxColumn);
    var col := w.startCol;
    while col <= maxColToCheck
      invariant w.startCol <= col && |rowData| == col - w.startCol
      invariant col <= maxColToCheck + 1 || col == w.startCol
      invariant ReadSoFar(s, w, row, rowData, rowIsEmpty, actualColumns)
    {
      var cell := CellAt(s, row, col);
      ReadCell(s, w, row, rowData, rowIsEmpty, actualColumns, cell);
      if !IsBlank(cell) {
        rowIsEmpty := false;
        actualColumns := Max(actualColumns, col - w.startCol + 1);
      }
      rowData := rowData + [cell];
      col := col + 1;
    }
    RawRowOf(s, w, row, rowData);
  }

  /** What the column loop knows: the cells read so far, whether all are blank, and their actual width. */
  predicate ReadSoFar(s: Sheet, w: Window, row: int, rowData: Row, rowIsEmpty: bool, actualColumns: nat)
  {
    && (forall j :: 0 <= j < |rowData| ==> rowData[j] == CellAt(s, row, w.startCol + j))
    && (rowIsEmpty <==> RowBlank(rowData))
    && ActualWidth(rowData, actualColumns)
  }

  /** Reading the next cell of a row extends what the column loop knows. */
  lemma ReadCell(s: Sheet, w: Window, row: int, rowData: Row, rowIsEmpty: bool, actualColumns: nat, cell: Cell)
    requires ReadSoFar(s, w, row, rowData, rowIsEmpty, actualColumns)
    requires cell == CellAt(s, row, w.startCol + |rowData|)
    ensures actualColumns <= |rowData|
    ensures ReadSoFar(s, w, row, rowData + [cell], rowIsEmpty && IsBlank(cell),
                      if IsBlank(cell) then actualColumns else |rowData| + 1)
  {
    var r := rowData + [cell];
    CellsSnoc(s, w, row, rowData, cell);
    RowBlankSnoc(rowData, cell);
    assert rowIsEmpty && IsBlank(cell) <==> RowBlank(r);
    ActualWidthSnoc(rowData, actualColumns, cell);
    assert ActualWidth(r, if IsBlank(cell) then actualColumns else |rowData| + 1);
  }

  /** The next cell of row `row` extends the cells read so far. */
  lemma CellsSnoc(s: Sheet, w: Window, row: int, rowData: Row, cell: Cell)
    requires forall j :: 0 <= j < |rowData| ==> rowData[j] == CellAt(s, row, w.startCol + j)
    requires cell == CellAt(s, row, w.startCol + |rowData|)
    ensures forall j :: 0 <= j < |rowData + [cell]| ==> (rowData + [cell])[j] == CellAt(s, row, w.startCol + j)
  {
    var r := rowData + [cell];
    forall j | 0 <= j < |r|
      ensures r[j] == CellAt(s, row, w.startCol + j)
    {
      if j < |rowData| {
        assert r[j] == rowData[j];
      }
    }
  }

  /** A row of the width read whose cells are the sheet's cells of row `r` is that raw row. */
  lemma RawRowOf(s: Sheet, w: Window, r: int, rowData: Row)
    requires |rowData| == ReadWidth(w)
    requires forall j :: 0 <= j < |rowData| ==> rowData[j] == CellAt(s, r, w.startCol + j)
    ensures rowData == RawRow(s, w, r)
  {
  }

  /** The `removeLast` and `append` loops that bring a row to `width` cells. */
  method FitRow(row: Row, width: nat) returns (r: Row)
    ensures r == Fit(row, width)
  {
    r := row;
    while |r| > width
      invariant r == row[..|r|]
      invariant |row| >= width ==> |r| >= width
      invariant |row| < width ==> r == row
      decreases |r|
    {
      r := r[..|r| - 1];
    }
    assert |row| >= width ==> r == row[..width];
    assert |row| < width ==> r == row;
    while |r| < width
      invariant |r| <= width
      invariant |row| >= width ==> r == row[..width]
      invariant |row| < width ==> |r| >= |row| && r[..|row|] == row
      invariant forall j :: |row| <= j < |r| ==> r[j] == Empty
    {
      r := r + [Empty];
    }
  }

  /** What the scan has established before visiting `row`. */
  predicate ScanInvariant(s: Sheet, w: Window, row: int, consecutiveEmptyRows: int, data: Table)
  {
    && w.startRow <= row
    && consecutiveEmptyRows == EmptyRun(s, w, row - 1)
    && Holds(s, w, Kept(s, w, row), data)
    && Rectangular(data)
    && (row == w.startRow ==> data == [])
  }

  /** One pass of the scan's row loop: read the row, then skip it, stop, or keep it. */
  method ScanRow(s: Sheet, w: Window, row: int, consecutiveEmptyRows: int, data: Table)
    returns (consecutive': int, data': Table, stop: bool)
    requires row <= w.endRow && ScanInvariant(s, w, row, consecutiveEmptyRows, data)
    ensures stop ==> StopsAt(s, w, row) && data' == data
    ensures !stop ==> !StopsAt(s, w, row) && ScanInvariant(s, w, row + 1, consecutive', data')
    ensures !stop ==> ScanEnd(s, w, row + 1) == ScanEnd(s, w, row)
  {
    var rowData, rowIsEmpty, actualColumns := ReadRow(s, w, row);
    if row == w.startRow && !rowIsEmpty {
      TrimTrailingAt(rowData, actualColumns);
      rowData := FitRow(rowData, actualColumns);
      assert rowData == Header(s, w, row);
    }
    data' := data;
    stop := false;
    if rowIsEmpty && row > w.startRow {
      SkipRow(s, w, row);
      consecutive' := consecutiveEmptyRows + 1;
      if consecutive' >= MaxConsecutiveEmpty {
        stop := true;
      }
    } else if !rowIsEmpty {
      consecutive' := 0;
      if row > w.startRow && data != [] {
        rowData := FitRow(rowData, |data[0]|);
      }
      KeepRow(s, w, row, data, rowData);
      PassRow(s, w, row);
      data' := data + [rowData];
    } else {
      SkipRow(s, w, row);
      consecutive' := consecutiveEmptyRows;
    }
  }

  /**
   * The closing pass of `loadExcel` that fits every row to the header width
   * once more. The scan has already done so, so on its output the pass
   * changes nothing.
   */
  method RefitRows(data: Table) returns (r: Table)
    requires Rectangular(data)
    ensures r == data
  {
    r := data;
    if r != [] {
      var maxCols := |r[0]|;
      var i := 0;
      while i < |r|
        invariant 0 <= i <= |r| && r == data
      {
        var fitted := FitRow(r[i], maxCols);
        assert fitted == r[i];
        r := r[i := fitted];
        i := i + 1;
      }
    }
  }

  /**
   * The row scan of `loadExcel`. The result holds exactly the non-blank rows
   * before the scan's stop, the first of them as header, and is rectangular.
   */
  method ReadSheet(s: Sheet) returns (data: Table)
    ensures Holds(s, Clamp(s), Kept(s, Clamp(s), Stop(s, Clamp(s))), data)
    ensures Rectangular(data)
  {
    var w := Clamp(s);
    data := ScanSheet(s, w);
    data := RefitRows(data);
  }

  /** The row loop of the scan over the window `w`. */
  method ScanSheet(s: Sheet, w: Window) returns (data: Table)
    ensures Holds(s, w, Kept(s, w, Stop(s, w)), data)
    ensures Rectangular(data)
  {
    data := [];
    var consecutiveEmptyRows := 0;
    var row := w.startRow;
    while row <= w.endRow
      invariant row <= w.endRow + 1 || row == w.startRow
      invariant Scanning(s, w, row, consecutiveEmptyRows, data)
      decreases w.endRow + 1 - row
    {
      ghost var before := consecutiveEmptyRows;
      var stopsHere;
      consecutiveEmptyRows, data, stopsHere := ScanRow(s, w, row, consecutiveEmptyRows, data);
      if stopsHere {
        ScanFinished(s, w, row, before, data);
        return;
      }
      row := row + 1;
    }
    ScanFinished(s, w, row, consecutiveEmptyRows, data);
  }

  /** What the row loop keeps: the scan invariant, and the scan from here ends where the whole scan does. */
  predicate Scanning(s: Sheet, w: Window, row: int, consecutiveEmptyRows: int, data: Table)
  {
    ScanInvariant(s, w, row, consecutiveEmptyRows, data) && ScanEnd(s, w, row) == Stop(s, w)
  }

  /** Where the scan ends, at its stop or past the window, it holds exactly the kept rows. */
  lemma ScanFinished(s: Sheet, w: Window, row: int, consecutiveEmptyRows: int, data: Table)
    requires Scanning(s, w, row, consecutiveEmptyRows, data)
    requires row > w.endRow || StopsAt(s, w, row)
    ensures Holds(s, w, Kept(s, w, Stop(s, w)), data) && Rectangular(data)
  {
  }

  /** Row `k` inside a run of `n` blank rows ending at `r` is blank and comes after the start row. */
  lemma {:induction false} InBlankRun(s: Sheet, w: Window, r: int, n: nat, k: int)
    requires EmptyRun(s, w, r) >= n
    requires r - n < k <= r
    ensures w.startRow < k && BlankAt(s, w, k)
    decreases n
  {
    assert r > w.startRow && BlankAt(s, w, r);
    if k < r {
      InBlankRun(s, w, r - 1, n - 1, k);
    }
  }

  /**
   * When the scan breaks inside the window, it does so at the fifth
   * consecutive blank row: that row and the four before it are blank, and
   * no earlier run reached five.
   */
  lemma StopIsFifthBlankRow(s: Sheet, w: Window)
    requires Stop(s, w) <= w.endRow
    ensures EmptyRun(s, w, Stop(s, w)) == MaxConsecutiveEmpty
    ensures w.startRow <= Stop(s, w) - MaxConsecutiveEmpty
    ensures forall k :: Stop(s, w) - MaxConsecutiveEmpty < k <= Stop(s, w) ==> BlankAt(s, w, k)
    ensures forall k :: w.startRow <= k < Stop(s, w) ==> EmptyRun(s, w, k) < MaxConsecutiveEmpty
  {
    var e := Stop(s, w);
    ScanEndSpec(s, w, w.startRow);
    assert StopsAt(s, w, e);
    assert !StopsAt(s, w, e - 1);
    forall k | e - MaxConsecutiveEmpty < k <= e
      ensures BlankAt(s, w, k)
    {
      InBlankRun(s, w, e, MaxConsecutiveEmpty, k);
    }
    InBlankRun(s, w, e, MaxConsecutiveEmpty, e - MaxConsecutiveEmpty + 1);
    forall k | w.startRow <= k < e
      ensures EmptyRun(s, w, k) < MaxConsecutiveEmpty
    {
      assert !StopsAt(s, w, k);
    }
  }

  /** A load yields no row exactly when every row the scan visits before its stop is blank. */
  lemma EmptyLoad(s: Sheet, w: Window)
    ensures Kept(s, w, Stop(s, w)) == [] <==> forall r :: w.startRow <= r < Stop(s, w) ==> BlankAt(s, w, r)
  {
    var ks := Kept(s, w, Stop(s, w));
    KeptSorted(s, w, Stop(s, w));
    KeptComplete(s, w, Stop(s, w));
    if ks != [] {
      assert !BlankAt(s, w, ks[0]);
    }
  }
}
