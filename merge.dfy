/**
 * The merge of a purchase sheet into the stock table (`appendFromFile`),
 * stated on table values: part lookup, the update and insert paths, one
 * merge step per purchase row folded over the purchase rows, the header
 * test that decides which files may be merged, and the read-only scans
 * (`searchAllMatches`, `getNextSerialNumber`) and `addNewItem`.
 */
module Merge {
  import opened Options
  import opened Strings
  import opened Cells
  import opened Grid
  import opened Workbook

  /** Column indices shared by the stock and purchase layouts. */
  const NameColumn: nat := 0
  const PartNoColumn: nat := 1
  const QuantityColumn: nat := 2
  const DepartmentColumn: nat := 3
  const VendorColumn: nat := 6
  /** The number of cells read from each purchase row. */
  const MergeWidth: nat := 7

  // ---------------------------------------------------------------- lookup

  /** The key of the part name in row `r` of the table. */
  function RowKey(g: Table, r: int): string
  {
    Key(GetCell(g, r, NameColumn))
  }

  /** Some data row (not the header) carries the part-name key `key`. */
  predicate Listed(g: Table, key: string)
  {
    exists r :: 1 <= r < |g| && RowKey(g, r) == key
  }

  /** The first row at or after `from` whose part-name key is `key`, or -1. */
  function FindKeyFrom(g: Table, key: string, from: nat): (found: int)
    ensures found == -1 || (from <= found < |g| && RowKey(g, found) == key)
    ensures found == -1 ==> forall k :: from <= k < |g| ==> RowKey(g, k) != key
    ensures found != -1 ==> forall k :: from <= k < found ==> RowKey(g, k) != key
    decreases |g| - from
  {
    if from >= |g| then -1
    else if RowKey(g, from) == key then from
    else FindKeyFrom(g, key, from + 1)
  }

  /**
   * `findPartByName`: the least data row whose part name, trimmed and
   * lower-cased, equals the trimmed and lower-cased query; -1 when there is
   * none. The header row is never returned.
   */
  function FindPart(g: Table, name: string): (found: int)
    ensures found == -1 || (1 <= found < |g| && RowKey(g, found) == NameKey(name))
    ensures found == -1 <==> !Listed(g, NameKey(name))
    ensures found != -1 ==> forall k :: 1 <= k < found ==> RowKey(g, k) != NameKey(name)
  {
    FindKeyFrom(g, NameKey(name), 1)
  }

  // ----------------------------------------------------------- update path

  /** The purchase quantity of a purchase row: its third cell as an integer, 0 when absent. */
  function Quantity(d: Row): int
  {
    if |d| > QuantityColumn then AsInt(d[QuantityColumn]) else 0
  }

  /** Part No, Department, Prepared, Approved and Vendor: the columns taken from a purchase row. */
  predicate IsDetailColumn(j: int)
  {
    j == PartNoColumn || DepartmentColumn <= j <= VendorColumn
  }

  /** Cell `j` of an existing part after it absorbs purchase row `d`. */
  function UpdatedCell(c: Cell, j: nat, d: Row): Cell
  {
    if j == QuantityColumn then Int(AsInt(c) + Quantity(d))
    else if IsDetailColumn(j) && |d| > j && !IsBlank(d[j]) then d[j]
    else c
  }

  /** One conditional overwrite of `updateExistingPart`: only a supplied, non-blank value is written. */
  function OverwriteIfGiven(g: Table, row: int, d: Row, j: nat): (r: Table)
    ensures |r| == |g| && forall i :: 0 <= i < |g| ==> |r[i]| == |g[i]|
    ensures forall i, k :: InBounds(g, i, k) ==>
      r[i][k] == (if i == row && k == j && |d| > j && !IsBlank(d[j]) then d[j] else g[i][k])
  {
    if |d| > j && !IsBlank(d[j]) then SetCell(g, row, j, d[j]) else g
  }

  /**
   * `updateExistingPart(row, d)`: the stock in column 2 grows by the
   * purchase quantity; Part No and columns 3-6 take the purchase value only
   * where it is non-blank; the name and every other row stay as they were.
   * A write outside the row's width is dropped, as `setDataAt` drops it.
   */
  function UpdatePart(g: Table, row: int, d: Row): (r: Table)
    ensures |r| == |g| && forall i :: 0 <= i < |g| ==> |r[i]| == |g[i]|
    ensures forall i, j :: InBounds(g, i, j) ==>
      r[i][j] == (if i == row then UpdatedCell(g[i][j], j, d) else g[i][j])
  {
    var g1 := SetCell(g, row, QuantityColumn, Int(AsInt(GetCell(g, row, QuantityColumn)) + Quantity(d)));
    var g2 := OverwriteIfGiven(g1, row, d, 1);
    var g3 := OverwriteIfGiven(g2, row, d, 3);
    var g4 := OverwriteIfGiven(g3, row, d, 4);
    var g5 := OverwriteIfGiven(g4, row, d, 5);
    OverwriteIfGiven(g5, row, d, 6)
  }

  /** The six writes of `updateExistingPart`, one after the other, are `UpdatePart`. */
  lemma UpdateSteps(g: Table, row: int, d: Row, g1: Table, g2: Table, g3: Table, g4: Table, g5: Table, h: Table)
    requires g1 == SetCell(g, row, QuantityColumn, Int(AsInt(GetCell(g, row, QuantityColumn)) + Quantity(d)))
    requires g2 == OverwriteIfGiven(g1, row, d, 1) && g3 == OverwriteIfGiven(g2, row, d, 3)
    requires g4 == OverwriteIfGiven(g3, row, d, 4) && g5 == OverwriteIfGiven(g4, row, d, 5)
    requires h == OverwriteIfGiven(g5, row, d, 6)
    ensures h == UpdatePart(g, row, d)
  {
  }

  // ----------------------------------------------------------- insert path

  /** Cell `j` of a part created from purchase row `d` under the trimmed name `name`. */
  function NewCell(name: string, j: nat, d: Row): Cell
  {
    if j == NameColumn then Text(name)
    else if j == QuantityColumn then Int(Quantity(d))
    else if IsDetailColumn(j) && |d| > j then d[j]
    else Empty
  }

  /** The cell `d[j]` when the purchase row has one, an empty cell otherwise. */
  function CellOr(d: Row, j: nat): Cell
  {
    if |d| > j then d[j] else Empty
  }

  /**
   * The insert path of `appendFromFile`: one row is appended; it carries the
   * trimmed name, the purchase quantity as its stock, and the detail cells
   * copied as they are, blank ones included.
   */
  function InsertPart(g: Table, name: string, d: Row): (r: Table)
    ensures |r| == |g| + 1 && r[..|g|] == g
    ensures |r[|g|]| == (if g == [] then DefaultWidth else Width(g))
    ensures forall j :: 0 <= j < |r[|g|]| ==> r[|g|][j] == NewCell(name, j, d)
  {
    var n := |g|;
    var g0 := AppendRow(g);
    var g1 := SetCell(g0, n, NameColumn, Text(name));
    var g2 := SetCell(g1, n, 1, CellOr(d, 1));
    var g3 := SetCell(g2, n, QuantityColumn, Int(Quantity(d)));
    var g4 := SetCell(g3, n, 3, CellOr(d, 3));
    var g5 := SetCell(g4, n, 4, CellOr(d, 4));
    var g6 := SetCell(g5, n, 5, CellOr(d, 5));
    SetCell(g6, n, 6, CellOr(d, 6))
  }

  // ------------------------------------------------------------ merge loop

  /** The variables of the merge loop: the table, the processed names and the two counters. */
  datatype MergeState = MergeState(grid: Table, seen: set<string>, added: nat, updated: nat)

  function Start(g: Table): MergeState
  {
    MergeState(g, {}, 0, 0)
  }

  /** The trimmed part name of a purchase row. */
  function PartName(d: Row): string
  {
    Trim(ToText(if |d| > 0 then d[0] else Empty))
  }

  /** The key under which a purchase row is recorded as processed. */
  function RowName(d: Row): string
  {
    ToLower(PartName(d))
  }

  /**
   * One iteration of the merge loop: a blank name or an already processed
   * name is skipped; otherwise the name is recorded, and the part is updated
   * when the table lists it and inserted when it does not.
   */
  function MergeStep(st: MergeState, d: Row): MergeState
  {
    var name := PartName(d);
    if name == [] || RowName(d) in st.seen then st
    else
      var row := FindPart(st.grid, name);
      if row != -1 then
        MergeState(UpdatePart(st.grid, row, d), st.seen + {RowName(d)}, st.added, st.updated + 1)
      else
        MergeState(InsertPart(st.grid, name, d), st.seen + {RowName(d)}, st.added + 1, st.updated)
  }

  /** The loop state after the first `n` purchase rows. */
  function MergePrefix(st: MergeState, rows: seq<Row>, n: nat): MergeState
    requires n <= |rows|
  {
    if n == 0 then st else MergeStep(MergePrefix(st, rows, n - 1), rows[n - 1])
  }

  /**
   * The whole merge of the purchase rows into table `g`: the processed
   * names are the distinct non-blank names, each counted once as added or
   * updated, and the table grows by the added ones. With a header, the
   * result is the existing rows with their updates followed by one new row
   * per new name (`MergeSplits`).
   */
  function MergeAll(g: Table, rows: seq<Row>): (r: MergeState)
    ensures r.seen == Names(rows, |rows|)
    ensures r.added + r.updated == |r.seen| && |r.grid| == |g| + r.added
    ensures |g| > 0 ==> r.grid == Split(g, rows, |rows|)
  {
    MergeAccounting(g, rows, |rows|);
    if |g| > 0 then
      MergeSplits(g, rows, |rows|);
      MergePrefix(Start(g), rows, |rows|)
    else
      MergePrefix(Start(g), rows, |rows|)
  }

  /**
   * The purchase rows of a sheet: rows 2 to the last row of its dimension, seven cells each.
   * `PurchaseRow` and `PurchaseRows` are definitions: their ensures spell the definition out
   * for callers, and what the merge reads from them is stated by `Handler.ReadPurchaseRow`.
   */
  function PurchaseRow(s: Sheet, r: int): (d: Row)
    ensures |d| == MergeWidth
    ensures forall c :: 0 <= c < MergeWidth ==> d[c] == CellAt(s, r, c + 1)
  {
    seq(MergeWidth, c => CellAt(s, r, c + 1))
  }

  function PurchaseRows(s: Sheet): (rows: seq<Row>)
    ensures |rows| == Max(0, s.lastRow - 1)
    ensures forall i :: 0 <= i < |rows| ==> rows[i] == PurchaseRow(s, i + 2)
  {
    seq(Max(0, s.lastRow - 1), i => PurchaseRow(s, i + 2))
  }

  /** The distinct non-blank names among the first `n` purchase rows, as recorded keys. */
  function Names(rows: seq<Row>, n: nat): set<string>
    requires n <= |rows|
  {
    if n == 0 then {}
    else Names(rows, n - 1) + (if PartName(rows[n - 1]) == [] then {} else {RowName(rows[n - 1])})
  }

  /** A key belongs to `Names` exactly when some earlier row with a non-blank name carries it. */
  lemma {:induction false} NamesMembers(rows: seq<Row>, n: nat, key: string)
    requires n <= |rows|
    ensures key in Names(rows, n) <==> exists j :: 0 <= j < n && PartName(rows[j]) != [] && RowName(rows[j]) == key
  {
    if n > 0 {
      NamesMembers(rows, n - 1, key);
      var d := rows[n - 1];
      var last := if PartName(d) == [] then {} else {RowName(d)};
      assert Names(rows, n) == Names(rows, n - 1) + last;
      if key in Names(rows, n - 1) {
        var j :| 0 <= j < n - 1 && PartName(rows[j]) != [] && RowName(rows[j]) == key;
        assert 0 <= j < n;
      } else if key in last {
        assert PartName(rows[n - 1]) != [] && RowName(rows[n - 1]) == key;
      }
      if j :| 0 <= j < n && PartName(rows[j]) != [] && RowName(rows[j]) == key {
        if j == n - 1 {
          assert key in last;
        }
      }
    }
  }

  /**
   * Merge accounting: the processed names are exactly the distinct non-blank
   * names read so far, `rowsAdded + rowsUpdated` counts them, and the table
   * has grown by `rowsAdded` rows.
   */
  lemma {:induction false} MergeAccounting(g: Table, rows: seq<Row>, n: nat)
    requires n <= |rows|
    ensures MergePrefix(Start(g), rows, n).seen == Names(rows, n)
    ensures MergePrefix(Start(g), rows, n).added + MergePrefix(Start(g), rows, n).updated == |Names(rows, n)|
    ensures |MergePrefix(Start(g), rows, n).grid| == |g| + MergePrefix(Start(g), rows, n).added
  {
    if n > 0 {
      MergeAccounting(g, rows, n - 1);
      StepAccounting(MergePrefix(Start(g), rows, n - 1), rows[n - 1]);
    }
  }

  /** One step records the row's name when it is non-blank, counts it once if it is new, and grows the table only on insert. */
  lemma StepAccounting(st: MergeState, d: Row)
    requires st.added + st.updated == |st.seen|
    requires |st.grid| >= st.added
    ensures MergeStep(st, d).seen == st.seen + (if PartName(d) == [] then {} else {RowName(d)})
    ensures MergeStep(st, d).added + MergeStep(st, d).updated == |MergeStep(st, d).seen|
    ensures |MergeStep(st, d).grid| - MergeStep(st, d).added == |st.grid| - st.added
  {
    if PartName(d) == [] || RowName(d) in st.seen {
      assert MergeStep(st, d) == st;
    } else {
      var row := FindPart(st.grid, PartName(d));
      if row != -1 {
        assert MergeStep(st, d) == MergeState(UpdatePart(st.grid, row, d), st.seen + {RowName(d)}, st.added, st.updated + 1);
      } else {
        assert MergeStep(st, d) == MergeState(InsertPart(st.grid, PartName(d), d), st.seen + {RowName(d)}, st.added + 1, st.updated);
      }
      assert |st.seen + {RowName(d)}| == |st.seen| + 1;
    }
  }

  /** A step leaves the loop state as it was exactly when the row's name is blank or already processed. */
  lemma StepSkipsExactly(st: MergeState, d: Row)
    ensures MergeStep(st, d) == st <==> PartName(d) == [] || RowName(d) in st.seen
  {
    if PartName(d) != [] && RowName(d) !in st.seen {
      assert RowName(d) in MergeStep(st, d).seen;
    }
  }

  /**
   * First occurrence wins: purchase row `i` changes nothing exactly when its
   * name is blank or an earlier row already carried the same name.
   */
  lemma RowTakesEffect(g: Table, rows: seq<Row>, i: nat)
    requires i < |rows|
    ensures MergePrefix(Start(g), rows, i + 1) == MergePrefix(Start(g), rows, i) <==>
      (PartName(rows[i]) == [] ||
       exists j :: 0 <= j < i && PartName(rows[j]) != [] && RowName(rows[j]) == RowName(rows[i]))
  {
    MergeAccounting(g, rows, i);
    NamesMembers(rows, i, RowName(rows[i]));
    var st := MergePrefix(Start(g), rows, i);
    if PartName(rows[i]) != [] && RowName(rows[i]) !in st.seen {
      assert RowName(rows[i]) in MergePrefix(Start(g), rows, i + 1).seen;
    }
  }

  /** Updating a data row never touches the header, and every row keeps its width and its name cell. */
  lemma UpdateKeepsRows(g: Table, row: int, d: Row)
    requires 1 <= row
    ensures |UpdatePart(g, row, d)| == |g|
    ensures forall i :: 0 <= i < |g| ==>
      |UpdatePart(g, row, d)[i]| == |g[i]| && GetCell(UpdatePart(g, row, d), i, NameColumn) == GetCell(g, i, NameColumn)
    ensures |g| > 0 ==> UpdatePart(g, row, d)[0] == g[0]
  {
    var r := UpdatePart(g, row, d);
    forall i | 0 <= i < |g|
      ensures GetCell(r, i, NameColumn) == GetCell(g, i, NameColumn)
    {
      if InBounds(g, i, NameColumn) {
        assert r[i][NameColumn] == g[i][NameColumn];
      }
    }
    if |g| > 0 {
      assert r[0] == g[0] by {
        forall j | 0 <= j < |g[0]|
          ensures r[0][j] == g[0][j]
        {
          assert InBounds(g, 0, j);
        }
      }
    }
  }

  /** Inserting a part leaves every existing row as it was. */
  lemma InsertKeepsRows(g: Table, name: string, d: Row)
    ensures |InsertPart(g, name, d)| == |g| + 1
    ensures forall i :: 0 <= i < |g| ==> InsertPart(g, name, d)[i] == g[i]
  {
    var r := InsertPart(g, name, d);
    forall i | 0 <= i < |g|
      ensures r[i] == g[i]
    {
      assert r[..|g|][i] == g[i];
    }
  }

  /** A step never touches the header, and every existing row keeps its width and its name cell. */
  lemma StepKeepsRows(st: MergeState, d: Row)
    ensures |MergeStep(st, d).grid| >= |st.grid|
    ensures forall i :: 0 <= i < |st.grid| ==>
      |MergeStep(st, d).grid[i]| == |st.grid[i]| && GetCell(MergeStep(st, d).grid, i, NameColumn) == GetCell(st.grid, i, NameColumn)
    ensures |st.grid| > 0 ==> MergeStep(st, d).grid[0] == st.grid[0]
  {
    var name := PartName(d);
    if name != [] && RowName(d) !in st.seen {
      var row := FindPart(st.grid, name);
      if row != -1 {
        UpdateKeepsRows(st.grid, row, d);
      } else {
        InsertKeepsRows(st.grid, name, d);
      }
    }
  }

  /**
   * The merge keeps the header row as it was, and every row that existed
   * before keeps its width and its part name: parts are never renamed,
   * moved or removed.
   */
  lemma {:induction false} MergeKeepsRows(st: MergeState, rows: seq<Row>, n: nat)
    requires n <= |rows|
    ensures |MergePrefix(st, rows, n).grid| >= |st.grid|
    ensures forall i :: 0 <= i < |st.grid| ==>
      |MergePrefix(st, rows, n).grid[i]| == |st.grid[i]| &&
      GetCell(MergePrefix(st, rows, n).grid, i, NameColumn) == GetCell(st.grid, i, NameColumn)
    ensures |st.grid| > 0 ==> MergePrefix(st, rows, n).grid[0] == st.grid[0]
  {
    if n > 0 {
      MergeKeepsRows(st, rows, n - 1);
      StepKeepsRows(MergePrefix(st, rows, n - 1), rows[n - 1]);
    }
  }

  /** A trimmed name's recorded key is its lookup key. */
  lemma RowNameIsKey(d: Row)
    ensures RowName(d) == NameKey(PartName(d))
  {
    TrimIdempotent(ToText(if |d| > 0 then d[0] else Empty));
  }

  /** Names stay listed once a step has run, and the step's own name becomes listed. */
  lemma StepLists(st: MergeState, d: Row)
    requires |st.grid| > 0 && |st.grid[0]| > NameColumn
    requires forall k :: k in st.seen ==> Listed(st.grid, k)
    ensures forall k :: k in MergeStep(st, d).seen ==> Listed(MergeStep(st, d).grid, k)
  {
    var r := MergeStep(st, d);
    StepKeepsRows(st, d);
    var name := PartName(d);
    if name != [] && RowName(d) !in st.seen {
      RowNameIsKey(d);
      var row := FindPart(st.grid, name);
      if row == -1 {
        var n := |st.grid|;
        assert r.grid[n][NameColumn] == Text(name);
        KeyOfTrimmedName(ToText(if |d| > 0 then d[0] else Empty));
        assert RowKey(r.grid, n) == RowName(d);
      } else {
        assert RowKey(r.grid, row) == RowKey(st.grid, row);
      }
      assert Listed(r.grid, RowName(d));
    }
    forall k | k in r.seen
      ensures Listed(r.grid, k)
    {
      if k in st.seen {
        var i :| 1 <= i < |st.grid| && RowKey(st.grid, i) == k;
        assert RowKey(r.grid, i) == k;
      }
    }
  }

  /**
   * After merging into a table with a header, every processed name can be
   * found by `findPartByName`: each purchased part ends up in the stock
   * table, updated or inserted.
   */
  lemma {:induction false} MergeListsEveryName(g: Table, rows: seq<Row>, n: nat)
    requires n <= |rows|
    requires |g| > 0 && |g[0]| > NameColumn
    ensures forall k :: k in MergePrefix(Start(g), rows, n).seen ==> Listed(MergePrefix(Start(g), rows, n).grid, k)
  {
    if n > 0 {
      MergeListsEveryName(g, rows, n - 1);
      MergeKeepsRows(Start(g), rows, n - 1);
      StepLists(MergePrefix(Start(g), rows, n - 1), rows[n - 1]);
    }
  }

  // ----------------------------------------------------- stock conservation

  /** The total stock of the data rows `1 .. n-1`. */
  function TotalStock(g: Table, n: nat): int
  {
    if n <= 1 then 0 else TotalStock(g, n - 1) + AsInt(GetCell(g, n - 1, QuantityColumn))
  }

  /** The purchase quantities of the rows the merge processes, in order. */
  function AcceptedQuantity(rows: seq<Row>, n: nat): int
    requires n <= |rows|
  {
    if n == 0 then 0
    else
      var d := rows[n - 1];
      AcceptedQuantity(rows, n - 1) + (if PartName(d) != [] && RowName(d) !in Names(rows, n - 1) then Quantity(d) else 0)
  }

  /** Every row has a stock column. */
  predicate HasStockColumn(g: Table)
  {
    forall i :: 0 <= i < |g| ==> |g[i]| > QuantityColumn
  }

  lemma {:induction false} TotalStockAgrees(g: Table, h: Table, n: nat)
    requires forall i :: 0 <= i < n ==> GetCell(g, i, QuantityColumn) == GetCell(h, i, QuantityColumn)
    ensures TotalStock(g, n) == TotalStock(h, n)
  {
    if n > 1 {
      TotalStockAgrees(g, h, n - 1);
    }
  }

  lemma {:induction false} TotalStockOneChange(g: Table, h: Table, row: nat, n: nat)
    requires 1 <= row < n
    requires forall i :: 0 <= i < n && i != row ==> GetCell(g, i, QuantityColumn) == GetCell(h, i, QuantityColumn)
    ensures TotalStock(h, n) == TotalStock(g, n) + AsInt(GetCell(h, row, QuantityColumn)) - AsInt(GetCell(g, row, QuantityColumn))
  {
    if n - 1 == row {
      TotalStockAgrees(g, h, n - 1);
    } else {
      TotalStockOneChange(g, h, row, n - 1);
    }
  }

  /** Updating a data row adds the purchase quantity to the total stock. */
  lemma UpdateStock(g: Table, row: int, d: Row)
    requires 1 <= row < |g| && HasStockColumn(g)
    ensures HasStockColumn(UpdatePart(g, row, d))
    ensures TotalStock(UpdatePart(g, row, d), |g|) == TotalStock(g, |g|) + Quantity(d)
  {
    var r := UpdatePart(g, row, d);
    assert InBounds(g, row, QuantityColumn);
    assert r[row][QuantityColumn] == UpdatedCell(g[row][QuantityColumn], QuantityColumn, d);
    assert AsInt(r[row][QuantityColumn]) == AsInt(g[row][QuantityColumn]) + Quantity(d);
    forall i | 0 <= i < |g| && i != row
      ensures GetCell(g, i, QuantityColumn) == GetCell(r, i, QuantityColumn)
    {
      assert InBounds(g, i, QuantityColumn);
    }
    TotalStockOneChange(g, r, row, |g|);
  }

  /** Inserting a part into a table with a header adds the purchase quantity to the total stock. */
  lemma InsertStock(g: Table, name: string, d: Row)
    requires |g| > 0 && HasStockColumn(g)
    ensures HasStockColumn(InsertPart(g, name, d))
    ensures TotalStock(InsertPart(g, name, d), |g| + 1) == TotalStock(g, |g|) + Quantity(d)
  {
    var r := InsertPart(g, name, d);
    InsertKeepsRows(g, name, d);
    forall i | 0 <= i < |g|
      ensures GetCell(g, i, QuantityColumn) == GetCell(r, i, QuantityColumn)
    {
      assert r[i] == g[i];
    }
    TotalStockAgrees(g, r, |g|);
    assert r[|g|][QuantityColumn] == NewCell(name, QuantityColumn, d);
    forall i | 0 <= i < |r|
      ensures |r[i]| > QuantityColumn
    {
      if i < |g| {
        assert r[i] == g[i];
      }
    }
  }

  /** A processed purchase row adds its quantity to the total stock of a table with a header. */
  lemma StepStock(st: MergeState, d: Row)
    requires |st.grid| > 0 && HasStockColumn(st.grid)
    ensures HasStockColumn(MergeStep(st, d).grid)
    ensures TotalStock(MergeStep(st, d).grid, |MergeStep(st, d).grid|) ==
      TotalStock(st.grid, |st.grid|) + (if PartName(d) != [] && RowName(d) !in st.seen then Quantity(d) else 0)
  {
    var name := PartName(d);
    if name != [] && RowName(d) !in st.seen {
      var row := FindPart(st.grid, name);
      if row != -1 {
        UpdateStock(st.grid, row, d);
      } else {
        InsertStock(st.grid, name, d);
      }
    }
  }

  /**
   * Stock conservation: with every row holding a stock column, the merge
   * raises the table's total stock by exactly the purchase quantities of the
   * first occurrence of each distinct part name.
   */
  lemma {:induction false} MergeConservesStock(g: Table, rows: seq<Row>, n: nat)
    requires n <= |rows|
    requires |g| > 0 && HasStockColumn(g)
    ensures HasStockColumn(MergePrefix(Start(g), rows, n).grid)
    ensures TotalStock(MergePrefix(Start(g), rows, n).grid, |MergePrefix(Start(g), rows, n).grid|) ==
      TotalStock(g, |g|) + AcceptedQuantity(rows, n)
  {
    if n > 0 {
      MergeConservesStock(g, rows, n - 1);
      MergeAccounting(g, rows, n - 1);
      PrefixStock(g, rows, n);
    }
  }

  /** The loop pass over purchase row `n - 1` adds its quantity when it is the first with its name. */
  lemma PrefixStock(g: Table, rows: seq<Row>, n: nat)
    requires 0 < n <= |rows|
    requires |MergePrefix(Start(g), rows, n - 1).grid| > 0 && HasStockColumn(MergePrefix(Start(g), rows, n - 1).grid)
    requires MergePrefix(Start(g), rows, n - 1).seen == Names(rows, n - 1)
    ensures HasStockColumn(MergePrefix(Start(g), rows, n).grid)
    ensures TotalStock(MergePrefix(Start(g), rows, n).grid, |MergePrefix(Start(g), rows, n).grid|) ==
      TotalStock(MergePrefix(Start(g), rows, n - 1).grid, |MergePrefix(Start(g), rows, n - 1).grid|) +
      (if PartName(rows[n - 1]) != [] && RowName(rows[n - 1]) !in Names(rows, n - 1) then Quantity(rows[n - 1]) else 0)
  {
    StepStock(MergePrefix(Start(g), rows, n - 1), rows[n - 1]);
  }

  // --------------------------------------------------------- header gate

  datatype FileType = Purchase | Stock

  /** A header cell that reads "purchase" once trimmed and lower-cased. */
  predicate IsPurchaseHeader(c: Cell)
  {
    Key(c) == "purchase"
  }

  /**
   * `getFileType`: "purchase" when the header's third cell says so, "stock" otherwise.
   * A definition; its use in the merge gate is stated by `GateMatchesFileType`.
   */
  function GetFileType(g: Table): (t: FileType)
    ensures t == Purchase <==> IsPurchaseHeader(GetCell(g, 0, QuantityColumn))
  {
    if IsPurchaseHeader(GetCell(g, 0, QuantityColumn)) then Purchase else Stock
  }

  /**
   * The decision of `validateFileStructure`: a file is accepted for merging
   * only when it opens and the cell in Excel row 1, column 3 reads "purchase".
   */
  function ValidateFileStructure(doc: Option<Sheet>): (ok: bool)
    ensures ok <==> doc.Some? && IsPurchaseHeader(CellAt(doc.value, 1, 3))
  {
    match doc
    case None => false
    case Some(s) => IsPurchaseHeader(CellAt(s, 1, 3))
  }

  /** The merge gate and `getFileType` agree on a sheet whose cells are the table. */
  lemma GateMatchesFileType(s: Sheet)
    ensures ValidateFileStructure(Some(s)) <==> GetFileType(s.cells) == Purchase
  {
    assert CellAt(s, 1, 3) == GetCell(s.cells, 0, QuantityColumn);
  }

  /** A header cell holding "Stock" is rejected, whatever the rest of the sheet holds. */
  lemma StockHeaderRejected(c: Cell)
    requires Key(c) == "stock"
    ensures !IsPurchaseHeader(c)
  {
    assert Key(c)[0] != "purchase"[0];
  }

  // ---------------------------------------------------------------- search

  /** One hit of `searchAllMatches`. */
  datatype Match = Match(row: nat, partName: Cell, partNo: Cell, stock: Cell, vendor: Cell)

  /** The search text as it is compared: trimmed and lower-cased. */
  function SearchKey(search: string): string
  {
    NameKey(search)
  }

  /** A cell's text, lower-cased but not trimmed, contains the query. */
  predicate CellContains(c: Cell, query: string)
  {
    Contains(ToLower(ToText(c)), query)
  }

  /** Row `r` matches when its part name, part number or vendor contains the query. */
  predicate RowMatches(g: Table, r: int, query: string)
  {
    CellContains(GetCell(g, r, NameColumn), query) ||
    CellContains(GetCell(g, r, PartNoColumn), query) ||
    CellContains(GetCell(g, r, VendorColumn), query)
  }

  function MatchAt(g: Table, r: nat): Match
  {
    Match(r, GetCell(g, r, NameColumn), GetCell(g, r, PartNoColumn), GetCell(g, r, QuantityColumn), GetCell(g, r, VendorColumn))
  }

  /** The hits among data rows `1 .. n-1`, in row order. */
  function SearchUpTo(g: Table, query: string, n: nat): seq<Match>
  {
    if n <= 1 then []
    else SearchUpTo(g, query, n - 1) + (if RowMatches(g, n - 1, query) then [MatchAt(g, n - 1)] else [])
  }

  /** Every hit is a matching data row, reported with its cells. */
  lemma {:induction false} SearchSound(g: Table, query: string, n: nat)
    ensures forall m :: 0 <= m < |SearchUpTo(g, query, n)| ==>
      1 <= SearchUpTo(g, query, n)[m].row < n &&
      RowMatches(g, SearchUpTo(g, query, n)[m].row, query) &&
      SearchUpTo(g, query, n)[m] == MatchAt(g, SearchUpTo(g, query, n)[m].row)
  {
    if n > 1 {
      SearchSound(g, query, n - 1);
      var prev := SearchUpTo(g, query, n - 1);
      var all := SearchUpTo(g, query, n);
      forall m | 0 <= m < |all|
        ensures 1 <= all[m].row < n && RowMatches(g, all[m].row, query) && all[m] == MatchAt(g, all[m].row)
      {
        if m < |prev| {
          assert all[m] == prev[m];
        } else {
          assert RowMatches(g, n - 1, query) && all[m] == MatchAt(g, n - 1);
        }
      }
    }
  }

  /** Every matching data row is among the hits, with its cells. */
  lemma {:induction false} SearchComplete(g: Table, query: string, n: nat, r: nat)
    requires 1 <= r < n && RowMatches(g, r, query)
    ensures MatchAt(g, r) in SearchUpTo(g, query, n)
  {
    var prev := SearchUpTo(g, query, n - 1);
    assert SearchUpTo(g, query, n) == prev + (if RowMatches(g, n - 1, query) then [MatchAt(g, n - 1)] else []);
    if r < n - 1 {
      SearchComplete(g, query, n - 1, r);
      assert MatchAt(g, r) in prev;
    } else {
      assert r == n - 1 && RowMatches(g, n - 1, query);
      assert SearchUpTo(g, query, n)[|prev|] == MatchAt(g, n - 1);
    }
  }

  /** Hits come in strictly increasing row order, so no row is reported twice. */
  lemma {:induction false} SearchOrdered(g: Table, query: string, n: nat)
    ensures forall m, m' :: 0 <= m < m' < |SearchUpTo(g, query, n)| ==>
      SearchUpTo(g, query, n)[m].row < SearchUpTo(g, query, n)[m'].row
  {
    if n > 1 {
      SearchOrdered(g, query, n - 1);
      SearchSound(g, query, n - 1);
      var prev := SearchUpTo(g, query, n - 1);
      assert SearchUpTo(g, query, n)[..|prev|] == prev;
    }
  }

  // -------------------------------------------------------- serial number

  /** The largest part-name value, read as an integer, over data rows `1 .. n-1`, and never below 0. */
  function MaxSerial(g: Table, n: nat): int
  {
    if n <= 1 then 0 else Max(MaxSerial(g, n - 1), AsInt(GetCell(g, n - 1, NameColumn)))
  }

  /**
   * `getNextSerialNumber` returns one more than `MaxSerial`: it exceeds every
   * data row's value, and it is 1 or one more than some row's value.
   */
  lemma {:induction false} MaxSerialBounds(g: Table, n: nat)
    ensures MaxSerial(g, n) >= 0
    ensures forall r :: 1 <= r < n ==> AsInt(GetCell(g, r, NameColumn)) <= MaxSerial(g, n)
    ensures MaxSerial(g, n) == 0 || exists r :: 1 <= r < n && AsInt(GetCell(g, r, NameColumn)) == MaxSerial(g, n)
  {
    if n > 1 {
      MaxSerialBounds(g, n - 1);
    }
  }

  // -------------------------------------------------------------- add item

  /** The generated part number of a row added by `addNewItem`. */
  function GeneratedPartNo(row: nat): string
  {
    "PN-" + IntToString(row)
  }

  /** The row `addNewItem` creates for an unlisted part, cell by cell. */
  function NewItemCell(partName: string, category: string, quantity: int, row: nat, j: nat): Cell
  {
    if j == NameColumn then Text(partName)
    else if j == PartNoColumn then Text(GeneratedPartNo(row))
    else if j == QuantityColumn then Int(quantity)
    else if j == DepartmentColumn then Text(category)
    else Empty
  }

  /** The stock of row `row` grows by `quantity`; nothing else changes. */
  function AddStock(g: Table, row: int, quantity: int): (r: Table)
    ensures |r| == |g| && forall i :: 0 <= i < |g| ==> |r[i]| == |g[i]|
    ensures forall i, j :: InBounds(g, i, j) ==>
      r[i][j] == (if i == row && j == QuantityColumn then Int(AsInt(g[i][j]) + quantity) else g[i][j])
  {
    SetCell(g, row, QuantityColumn, Int(AsInt(GetCell(g, row, QuantityColumn)) + quantity))
  }

  /** A new row holding the name as given, a generated part number, the quantity and the category. */
  function AppendItem(g: Table, partName: string, category: string, quantity: int): (r: Table)
    ensures |r| == |g| + 1 && r[..|g|] == g
    ensures |r[|g|]| == (if g == [] then DefaultWidth else Width(g))
    ensures forall j :: 0 <= j < |r[|g|]| ==> r[|g|][j] == NewItemCell(partName, category, quantity, |g|, j)
  {
    var n := |g|;
    var g1 := SetCell(AppendRow(g), n, NameColumn, Text(partName));
    var g2 := SetCell(g1, n, PartNoColumn, Text(GeneratedPartNo(n)));
    var g3 := SetCell(g2, n, QuantityColumn, Int(quantity));
    SetCell(g3, n, DepartmentColumn, Text(category))
  }

  /**
   * `addNewItem(partName, category, quantity)`: a listed part gains
   * `quantity` in its stock column; an unlisted one gets a new row.
   */
  function AddItem(g: Table, partName: string, category: string, quantity: int): (r: Table)
    ensures FindPart(g, partName) != -1 ==> |r| == |g|
    ensures FindPart(g, partName) == -1 ==> |r| == |g| + 1 && r[..|g|] == g
    ensures forall i :: 0 <= i < |g| && i != FindPart(g, partName) ==> r[i] == g[i]
  {
    var row := FindPart(g, partName);
    if row != -1 then AddStock(g, row, quantity) else AppendItem(g, partName, category, quantity)
  }

  /** After `addNewItem` into a table with a header, the part can be found under its name. */
  lemma AddItemLists(g: Table, partName: string, category: string, quantity: int)
    requires |g| > 0 && |g[0]| > NameColumn
    ensures FindPart(AddItem(g, partName, category, quantity), partName) != -1
  {
    var r := AddItem(g, partName, category, quantity);
    var row := FindPart(g, partName);
    if row != -1 {
      assert r == AddStock(g, row, quantity);
      if InBounds(g, row, NameColumn) {
        assert r[row][NameColumn] == g[row][NameColumn];
      }
      assert RowKey(r, row) == RowKey(g, row);
    } else {
      assert r == AppendItem(g, partName, category, quantity);
      assert r[|g|][NameColumn] == Text(partName);
      assert RowKey(r, |g|) == NameKey(partName);
    }
  }

  /**
   * On an empty table the first added item lands in row 0, the row lookup
   * treats as the header, so that item can never be found by its name.
   */
  lemma AddItemToEmptyTable(partName: string, category: string, quantity: int)
    ensures |AddItem([], partName, category, quantity)| == 1
    ensures GetCell(AddItem([], partName, category, quantity), 0, NameColumn) == Text(partName)
    ensures FindPart(AddItem([], partName, category, quantity), partName) == -1
  {
    var r := AddItem([], partName, category, quantity);
    assert r == AppendItem([], partName, category, quantity);
    assert r[0][NameColumn] == NewItemCell(partName, category, quantity, 0, NameColumn);
  }

  // ------------------------------------------------------------ merge order

  /** Purchase row `i` is the first that carries its non-blank name, so the merge acts on it. */
  predicate FirstOccurrence(rows: seq<Row>, i: nat)
    requires i < |rows|
  {
    PartName(rows[i]) != [] && RowName(rows[i]) !in Names(rows, i)
  }

  /** Row `c` of the stock table after it absorbs purchase row `d`. */
  function UpdatedRow(c: Row, d: Row): Row
  {
    seq(|c|, j requires 0 <= j < |c| => UpdatedCell(c[j], j, d))
  }

  /** The row the insert path appends to a table of width `w`. */
  function NewRow(w: nat, name: string, d: Row): Row
  {
    seq(w, j requires 0 <= j < w => NewCell(name, j, d))
  }

  /**
   * The row purchase row `i` updates when parts are looked up in `look`:
   * the row `findPartByName` gives for a row the merge acts on, -1 for a
   * row it skips and for one it inserts.
   */
  function Targets(look: Table, rows: seq<Row>): (ts: seq<int>)
    ensures |ts| == |rows|
    ensures forall i :: 0 <= i < |rows| ==> ts[i] == if FirstOccurrence(rows, i) then FindPart(look, PartName(rows[i])) else -1
  {
    seq(|rows|, i requires 0 <= i < |rows| => if FirstOccurrence(rows, i) then FindPart(look, PartName(rows[i])) else -1)
  }

  /**
   * The rows `h` after the updates of the first `n` purchase rows, purchase
   * row `i` updating row `ts[i]`; a target outside `h` changes nothing.
   */
  function Updates(h: Table, rows: seq<Row>, ts: seq<int>, n: nat): Table
    requires n <= |rows| == |ts|
  {
    if n == 0 then h
    else UpdateRowAt(Updates(h, rows, ts, n - 1), ts[n - 1], rows[n - 1])
  }

  /** The write of row `r` after it absorbs purchase row `d`; nothing when `r` is outside the table. */
  function UpdateRowAt(h: Table, r: int, d: Row): Table
  {
    if 0 <= r < |h| then h[r := UpdatedRow(h[r], d)] else h
  }

  /**
   * The rows of width `w` the first `n` purchase rows append: one per row
   * the merge acts on and finds no target for, in order.
   */
  function Inserts(w: nat, rows: seq<Row>, ts: seq<int>, n: nat): Table
    requires n <= |rows| == |ts|
  {
    if n == 0 then []
    else
      var d := rows[n - 1];
      Inserts(w, rows, ts, n - 1) + if FirstOccurrence(rows, n - 1) && ts[n - 1] == -1 then [NewRow(w, PartName(d), d)] else []
  }

  /** No target is the header row. */
  predicate SparesHeader(ts: seq<int>)
  {
    forall i :: 0 <= i < |ts| ==> ts[i] != 0
  }

  /** An update inside the table is a write of the updated row; outside it changes nothing. */
  lemma UpdatePartRow(g: Table, row: int, d: Row)
    ensures UpdatePart(g, row, d) == UpdateRowAt(g, row, d)
  {
    var r := UpdatePart(g, row, d);
    var e := UpdateRowAt(g, row, d);
    forall i | 0 <= i < |g|
      ensures r[i] == e[i]
    {
      forall j | 0 <= j < |g[i]|
        ensures r[i][j] == e[i][j]
      {
        assert InBounds(g, i, j);
      }
    }
  }

  /** An insert into a table with a header appends `NewRow` at the header's width. */
  lemma InsertPartAppends(h: Table, name: string, d: Row)
    requires h != []
    ensures InsertPart(h, name, d) == h + [NewRow(Width(h), name, d)]
  {
    var r := InsertPart(h, name, d);
    assert r[|h|] == NewRow(Width(h), name, d);
    assert r == r[..|h|] + [r[|h|]];
  }

  /** The updates keep the number of rows and every row's width and name cell, and spare the header. */
  lemma {:induction false} UpdatesKeepRows(h: Table, rows: seq<Row>, ts: seq<int>, n: nat)
    requires n <= |rows| == |ts|
    ensures |Updates(h, rows, ts, n)| == |h|
    ensures forall i :: 0 <= i < |h| ==>
      |Updates(h, rows, ts, n)[i]| == |h[i]| && GetCell(Updates(h, rows, ts, n), i, NameColumn) == GetCell(h, i, NameColumn)
    ensures |h| > 0 && SparesHeader(ts) ==> Updates(h, rows, ts, n)[0] == h[0]
  {
    if n > 0 {
      UpdatesKeepRows(h, rows, ts, n - 1);
      var u := Updates(h, rows, ts, n - 1);
      var row := ts[n - 1];
      if 0 <= row < |u| {
        var x := UpdatedRow(u[row], rows[n - 1]);
        if |u[row]| > NameColumn {
          assert x[NameColumn] == u[row][NameColumn];
        }
        assert Updates(h, rows, ts, n) == u[row := x];
      }
    }
  }

  /** Every appended row carries one of the processed names, or no name at all when the header is empty. */
  lemma {:induction false} InsertsKeys(w: nat, rows: seq<Row>, ts: seq<int>, n: nat)
    requires n <= |rows| == |ts|
    ensures forall i :: 0 <= i < |Inserts(w, rows, ts, n)| ==>
      RowKey(Inserts(w, rows, ts, n), i) == [] || RowKey(Inserts(w, rows, ts, n), i) in Names(rows, n)
  {
    if n > 0 {
      InsertsKeys(w, rows, ts, n - 1);
      var t := Inserts(w, rows, ts, n - 1);
      var r := Inserts(w, rows, ts, n);
      var d := rows[n - 1];
      assert Names(rows, n - 1) <= Names(rows, n);
      forall i | 0 <= i < |t|
        ensures RowKey(r, i) == RowKey(t, i)
      {
        assert r[i] == t[i];
      }
      if FirstOccurrence(rows, n - 1) && ts[n - 1] == -1 {
        var row := NewRow(w, PartName(d), d);
        assert r == t + [row];
        if w > 0 {
          assert r[|t|][NameColumn] == Text(PartName(d));
          KeyOfTrimmedName(ToText(if |d| > 0 then d[0] else Empty));
          assert RowKey(r, |t|) == RowName(d);
        } else {
          KeyEmptyIffBlank(Empty);
          assert RowKey(r, |t|) == Key(Empty);
        }
      }
    }
  }

  /**
   * Looking a name up in the updated rows followed by appended rows gives
   * the answer of the original table, as long as the updated rows keep the
   * names and no appended row carries the name.
   */
  lemma FindPartPastAppended(g: Table, u: Table, t: Table, name: string)
    requires |u| == |g|
    requires forall i :: 0 <= i < |g| ==> RowKey(u, i) == RowKey(g, i)
    requires forall i :: 0 <= i < |t| ==> RowKey(t, i) != NameKey(name)
    ensures FindPart(u + t, name) == FindPart(g, name)
  {
    var key := NameKey(name);
    var f := FindPart(u + t, name);
    var r0 := FindPart(g, name);
    forall i | 0 <= i < |u|
      ensures RowKey(u + t, i) == RowKey(g, i)
    {
      assert (u + t)[i] == u[i];
    }
    forall i | |u| <= i < |u + t|
      ensures RowKey(u + t, i) != key
    {
      assert (u + t)[i] == t[i - |u|];
      assert RowKey(u + t, i) == RowKey(t, i - |u|);
    }
    assert f != -1 ==> f < |u| && RowKey(g, f) == key;
    if r0 != -1 {
      assert RowKey(u + t, r0) == key;
    }
  }

  /** Updates whose targets all lie among the first rows `h` leave the rows after `h` alone. */
  lemma {:induction false} UpdatesBeforeAppended(h: Table, t: Table, rows: seq<Row>, ts: seq<int>, n: nat)
    requires n <= |rows| == |ts|
    requires forall i :: 0 <= i < |ts| ==> ts[i] < |h|
    ensures Updates(h + t, rows, ts, n) == Updates(h, rows, ts, n) + t
  {
    if n > 0 {
      UpdatesBeforeAppended(h, t, rows, ts, n - 1);
      UpdatesKeepRows(h, rows, ts, n - 1);
      var u := Updates(h, rows, ts, n - 1);
      var row := ts[n - 1];
      if 0 <= row {
        assert (u + t)[row] == u[row];
        var x := UpdatedRow(u[row], rows[n - 1]);
        assert (u + t)[row := x] == u[row := x] + t;
      }
    }
  }

  /**
   * The merge into a table with a header needs no growing table: the
   * existing rows take the updates, with every part looked up in the table
   * as it was before the merge, and the new rows follow, one per new name,
   * in the order of the purchase rows.
   */
  lemma {:induction false} MergeSplits(g: Table, rows: seq<Row>, n: nat)
    requires |g| > 0 && n <= |rows|
    ensures MergePrefix(Start(g), rows, n).seen == Names(rows, n)
    ensures MergePrefix(Start(g), rows, n).grid == Split(g, rows, n)
  {
    if n > 0 {
      MergeSplits(g, rows, n - 1);
      PrefixSplits(g, rows, n);
    }
  }

  /** The split survives the loop pass over purchase row `n - 1`. */
  lemma PrefixSplits(g: Table, rows: seq<Row>, n: nat)
    requires |g| > 0 && 0 < n <= |rows|
    requires MergePrefix(Start(g), rows, n - 1).seen == Names(rows, n - 1)
    requires MergePrefix(Start(g), rows, n - 1).grid == Split(g, rows, n - 1)
    ensures MergePrefix(Start(g), rows, n).seen == Names(rows, n)
    ensures MergePrefix(Start(g), rows, n).grid == Split(g, rows, n)
  {
    SplitStep(g, rows, n, MergePrefix(Start(g), rows, n - 1));
  }

  /** The updated rows of `g` followed by the appended ones, after the first `n` purchase rows. */
  function Split(g: Table, rows: seq<Row>, n: nat): Table
    requires n <= |rows|
  {
    Updates(g, rows, Targets(g, rows), n) + Inserts(Width(g), rows, Targets(g, rows), n)
  }

  /** One step of the merge keeps the table split into updated and appended rows. */
  lemma SplitStep(g: Table, rows: seq<Row>, n: nat, st: MergeState)
    requires |g| > 0 && 0 < n <= |rows|
    requires st.seen == Names(rows, n - 1)
    requires st.grid == Split(g, rows, n - 1)
    ensures MergeStep(st, rows[n - 1]).seen == Names(rows, n)
    ensures MergeStep(st, rows[n - 1]).grid == Split(g, rows, n)
  {
    var i := n - 1;
    StepSeen(st, rows, i);
    if !FirstOccurrence(rows, i) {
      SplitSkip(g, rows, i, st);
    } else {
      SplitLookup(g, rows, i, st);
      if Targets(g, rows)[i] != -1 {
        SplitUpdate(g, rows, i, st);
      } else {
        SplitInsert(g, rows, i, st);
      }
    }
  }

  /** One step records exactly the names of the purchase rows up to and including this one. */
  lemma StepSeen(st: MergeState, rows: seq<Row>, i: nat)
    requires i < |rows| && st.seen == Names(rows, i)
    ensures MergeStep(st, rows[i]).seen == Names(rows, i + 1)
  {
    var d := rows[i];
    if PartName(d) == [] || RowName(d) in st.seen {
      assert MergeStep(st, d) == st;
    } else {
      assert MergeStep(st, d).seen == st.seen + {RowName(d)};
    }
  }

  /** A row the merge skips leaves the split as it was. */
  lemma SplitSkip(g: Table, rows: seq<Row>, i: nat, st: MergeState)
    requires |g| > 0 && i < |rows| && !FirstOccurrence(rows, i)
    requires st.seen == Names(rows, i)
    requires st.grid == Split(g, rows, i)
    ensures MergeStep(st, rows[i]).grid == Split(g, rows, i + 1)
  {
    StepSkipsExactly(st, rows[i]);
    SplitUnchanged(g, rows, i);
  }

  /** A row the merge skips adds no update and no insert. */
  lemma SplitUnchanged(g: Table, rows: seq<Row>, i: nat)
    requires i < |rows| && !FirstOccurrence(rows, i)
    ensures Split(g, rows, i + 1) == Split(g, rows, i)
  {
    var ts := Targets(g, rows);
    UpdatesSkip(g, rows, ts, i);
    InsertsSkip(Width(g), rows, ts, i);
  }

  /** A purchase row without a target updates nothing. */
  lemma UpdatesSkip(h: Table, rows: seq<Row>, ts: seq<int>, n: nat)
    requires n < |rows| == |ts| && ts[n] == -1
    ensures Updates(h, rows, ts, n + 1) == Updates(h, rows, ts, n)
  {
  }

  /** A purchase row the merge skips appends nothing. */
  lemma InsertsSkip(w: nat, rows: seq<Row>, ts: seq<int>, n: nat)
    requires n < |rows| == |ts| && !FirstOccurrence(rows, n)
    ensures Inserts(w, rows, ts, n + 1) == Inserts(w, rows, ts, n)
  {
    assert Inserts(w, rows, ts, n) + [] == Inserts(w, rows, ts, n);
  }

  /** For a fresh name, the lookup in the split table gives the lookup in the original table. */
  lemma SplitLookup(g: Table, rows: seq<Row>, i: nat, st: MergeState)
    requires |g| > 0 && i < |rows| && FirstOccurrence(rows, i)
    requires st.grid == Split(g, rows, i)
    ensures FindPart(st.grid, PartName(rows[i])) == FindPart(g, PartName(rows[i]))
  {
    var ts := Targets(g, rows);
    var u := Updates(g, rows, ts, i);
    var t := Inserts(Width(g), rows, ts, i);
    var d := rows[i];
    UpdatesKeepRows(g, rows, ts, i);
    InsertsKeys(Width(g), rows, ts, i);
    RowNameIsKey(d);
    assert |RowName(d)| == |PartName(d)| > 0;
    FindPartPastAppended(g, u, t, PartName(d));
  }

  /** The update branch of `SplitStep`: the target row is rewritten in place. */
  lemma SplitUpdate(g: Table, rows: seq<Row>, i: nat, st: MergeState)
    requires |g| > 0 && i < |rows| && FirstOccurrence(rows, i)
    requires st.seen == Names(rows, i)
    requires st.grid == Split(g, rows, i)
    requires Targets(g, rows)[i] != -1
    requires FindPart(st.grid, PartName(rows[i])) == FindPart(g, PartName(rows[i]))
    ensures MergeStep(st, rows[i]).grid == Split(g, rows, i + 1)
  {
    var ts := Targets(g, rows);
    var u := Updates(g, rows, ts, i);
    var t := Inserts(Width(g), rows, ts, i);
    var d := rows[i];
    var row := ts[i];
    UpdatesLength(g, rows, ts, i);
    StepUpdatesGrid(st, d, row);
    UpdatePartRow(u + t, row, d);
    WriteBeforeAppended(u, t, row, d);
    SplitAfterUpdate(g, rows, i);
  }

  /** After a purchase row with a target, the split is the earlier one with that row rewritten. */
  lemma SplitAfterUpdate(g: Table, rows: seq<Row>, i: nat)
    requires i < |rows| && Targets(g, rows)[i] != -1
    ensures Split(g, rows, i + 1) ==
      UpdateRowAt(Updates(g, rows, Targets(g, rows), i), Targets(g, rows)[i], rows[i]) + Inserts(Width(g), rows, Targets(g, rows), i)
  {
  }

  /** The updates keep the number of rows. */
  lemma {:induction false} UpdatesLength(h: Table, rows: seq<Row>, ts: seq<int>, n: nat)
    requires n <= |rows| == |ts|
    ensures |Updates(h, rows, ts, n)| == |h|
  {
    if n > 0 {
      UpdatesLength(h, rows, ts, n - 1);
    }
  }

  /** A fresh purchase row whose part is listed at `row` updates that row. */
  lemma StepUpdatesGrid(st: MergeState, d: Row, row: int)
    requires PartName(d) != [] && RowName(d) !in st.seen
    requires FindPart(st.grid, PartName(d)) == row != -1
    ensures MergeStep(st, d).grid == UpdatePart(st.grid, row, d)
  {
  }

  /** Rewriting an old row does not disturb the rows appended after it. */
  lemma WriteBeforeAppended(u: Table, t: Table, row: int, d: Row)
    requires 0 <= row < |u|
    ensures UpdateRowAt(u + t, row, d) == UpdateRowAt(u, row, d) + t
  {
    assert (u + t)[row] == u[row];
    assert (u + t)[row := UpdatedRow(u[row], d)] == u[row := UpdatedRow(u[row], d)] + t;
  }

  /** The insert branch of `SplitStep`: the new row follows the appended ones. */
  lemma SplitInsert(g: Table, rows: seq<Row>, i: nat, st: MergeState)
    requires |g| > 0 && i < |rows| && FirstOccurrence(rows, i)
    requires st.seen == Names(rows, i)
    requires st.grid == Split(g, rows, i)
    requires Targets(g, rows)[i] == -1
    requires FindPart(st.grid, PartName(rows[i])) == FindPart(g, PartName(rows[i]))
    ensures MergeStep(st, rows[i]).grid == Split(g, rows, i + 1)
  {
    var ts := Targets(g, rows);
    var u := Updates(g, rows, ts, i);
    var t := Inserts(Width(g), rows, ts, i);
    var d := rows[i];
    var name := PartName(d);
    UpdatesKeepRows(g, rows, ts, i);
    InsertPartAppends(u + t, name, d);
    assert (u + t)[0] == u[0];
    assert MergeStep(st, d).grid == InsertPart(u + t, name, d);
    assert Split(g, rows, i + 1) == u + (t + [NewRow(Width(g), name, d)]);
  }

  /** An update of a row that no target names can be made before or after the updates. */
  lemma {:induction false} UpdateAcross(h: Table, rows: seq<Row>, ts: seq<int>, n: nat, r: int, d: Row)
    requires n <= |rows| == |ts|
    requires forall i :: 0 <= i < |ts| ==> ts[i] != r
    ensures UpdateRowAt(Updates(h, rows, ts, n), r, d) == Updates(UpdateRowAt(h, r, d), rows, ts, n)
  {
    if n > 0 {
      UpdateAcross(h, rows, ts, n - 1, r, d);
      UpdatesKeepRows(h, rows, ts, n - 1);
      var u := Updates(h, rows, ts, n - 1);
      var row := ts[n - 1];
      if 0 <= row < |u| && 0 <= r < |u| {
        var e := rows[n - 1];
        assert UpdateRowAt(u[row := UpdatedRow(u[row], e)], r, d) == UpdateRowAt(u, r, d)[row := UpdatedRow(u[row], e)];
      }
    }
  }

  /** The targets of two purchase files never name the same row. */
  predicate DisjointTargets(ta: seq<int>, tb: seq<int>)
  {
    forall i, j :: 0 <= i < |ta| && 0 <= j < |tb| && ta[i] != -1 ==> ta[i] != tb[j]
  }

  /** The updates of two purchase files with disjoint targets can be made in either order. */
  lemma {:induction false} UpdatesCommute(h: Table, a: seq<Row>, ta: seq<int>, b: seq<Row>, tb: seq<int>, m: nat)
    requires |a| == |ta| && m <= |b| == |tb|
    requires DisjointTargets(tb, ta)
    ensures Updates(Updates(h, a, ta, |a|), b, tb, m) == Updates(Updates(h, b, tb, m), a, ta, |a|)
  {
    if m > 0 {
      UpdatesCommute(h, a, ta, b, tb, m - 1);
      var r := tb[m - 1];
      if r != -1 {
        UpdateAcross(Updates(h, b, tb, m - 1), a, ta, |a|, r, b[m - 1]);
      } else {
        UpdatesKeepRows(h, b, tb, m - 1);
        UpdatesKeepRows(Updates(h, a, ta, |a|), b, tb, m - 1);
        UpdatesKeepRows(h, a, ta, |a|);
      }
    }
  }

  /** A row the merge acts on and finds is the row that carries its recorded name. */
  lemma TargetCarriesName(look: Table, rows: seq<Row>, i: nat)
    requires i < |rows| && Targets(look, rows)[i] != -1
    ensures RowKey(look, Targets(look, rows)[i]) == RowName(rows[i])
    ensures RowName(rows[i]) in Names(rows, |rows|)
  {
    RowNameIsKey(rows[i]);
    NamesMembers(rows, |rows|, RowName(rows[i]));
  }

  /** Purchase files with disjoint names update disjoint rows. */
  lemma DisjointNamesDisjointTargets(look: Table, a: seq<Row>, b: seq<Row>)
    requires Names(a, |a|) !! Names(b, |b|)
    ensures DisjointTargets(Targets(look, a), Targets(look, b))
  {
    var ta := Targets(look, a);
    var tb := Targets(look, b);
    forall i, j | 0 <= i < |ta| && 0 <= j < |tb| && ta[i] != -1
      ensures ta[i] != tb[j]
    {
      TargetCarriesName(look, a, i);
      if tb[j] != -1 {
        TargetCarriesName(look, b, j);
      }
    }
  }

  /**
   * The second of two merges with disjoint names: the rows the first one
   * appended stay as they are, the existing rows take the second file's
   * updates, and the second file's new rows follow.
   */
  lemma SecondMerge(g: Table, a: seq<Row>, b: seq<Row>)
    requires |g| > 0
    requires Names(a, |a|) !! Names(b, |b|)
    ensures MergeAll(MergeAll(g, a).grid, b).grid ==
      Updates(Updates(g, a, Targets(g, a), |a|), b, Targets(g, b), |b|) +
      Inserts(Width(g), a, Targets(g, a), |a|) + Inserts(Width(g), b, Targets(g, b), |b|)
  {
    var u1 := Updates(g, a, Targets(g, a), |a|);
    var t1 := Inserts(Width(g), a, Targets(g, a), |a|);
    MergeSplits(g, a, |a|);
    var g1 := u1 + t1;
    assert MergeAll(g, a).grid == g1;
    UpdatesKeepRows(g, a, Targets(g, a), |a|);
    InsertsKeys(Width(g), a, Targets(g, a), |a|);
    MergeSplits(g1, b, |b|);
    forall i | 0 <= i < |b| && FirstOccurrence(b, i)
      ensures FindPart(g1, PartName(b[i])) == FindPart(g, PartName(b[i]))
    {
      RowNameIsKey(b[i]);
      NamesMembers(b, |b|, RowName(b[i]));
      assert |RowName(b[i])| == |PartName(b[i])| > 0;
      FindPartPastAppended(g, u1, t1, PartName(b[i]));
    }
    SameLookupsSameTargets(g1, g, b);
    assert g1[0] == u1[0];
    UpdatesBeforeAppended(u1, t1, b, Targets(g, b), |b|);
  }

  /** Two lookup tables answer alike for every name the merge acts on. */
  predicate SameLookups(l1: Table, l2: Table, rows: seq<Row>)
  {
    forall i :: 0 <= i < |rows| && FirstOccurrence(rows, i) ==>
      FindPart(l1, PartName(rows[i])) == FindPart(l2, PartName(rows[i]))
  }

  /** Lookup tables that answer alike name the same targets. */
  lemma SameLookupsSameTargets(l1: Table, l2: Table, rows: seq<Row>)
    requires SameLookups(l1, l2, rows)
    ensures Targets(l1, rows) == Targets(l2, rows)
  {
  }

  /** The rows of two appended blocks, in either order, after the same first rows. */
  lemma SwappedBlocks<T>(x: seq<T>, p: seq<T>, q: seq<T>)
    ensures (x + p + q)[..|x|] == x == (x + q + p)[..|x|]
    ensures (x + p + q)[|x|..] == p + q && (x + q + p)[|x|..] == q + p
    ensures multiset((x + p + q)[|x|..]) == multiset((x + q + p)[|x|..])
  {
    assert (x + p + q)[|x|..] == p + q;
    assert (x + q + p)[|x|..] == q + p;
  }

  /**
   * Merging two purchase files whose names are disjoint commutes up to the
   * order of the appended rows: either order leaves the existing rows the
   * same, and each appends the new rows of both files, the first file's
   * before the second's.
   */
  lemma DisjointMergesCommute(g: Table, a: seq<Row>, b: seq<Row>)
    requires |g| > 0
    requires Names(a, |a|) !! Names(b, |b|)
    ensures var ab := MergeAll(MergeAll(g, a).grid, b).grid;
      var ba := MergeAll(MergeAll(g, b).grid, a).grid;
      |ab| == |ba| >= |g| && ab[..|g|] == ba[..|g|] && multiset(ab[|g|..]) == multiset(ba[|g|..])
    ensures MergeAll(MergeAll(g, a).grid, b).grid[|g|..] ==
      Inserts(Width(g), a, Targets(g, a), |a|) + Inserts(Width(g), b, Targets(g, b), |b|)
    ensures MergeAll(MergeAll(g, b).grid, a).grid[|g|..] ==
      Inserts(Width(g), b, Targets(g, b), |b|) + Inserts(Width(g), a, Targets(g, a), |a|)
  {
    SecondMerge(g, a, b);
    SecondMerge(g, b, a);
    var ta := Targets(g, a);
    var tb := Targets(g, b);
    DisjointNamesDisjointTargets(g, b, a);
    UpdatesCommute(g, a, ta, b, tb, |b|);
    var x := Updates(Updates(g, a, ta, |a|), b, tb, |b|);
    UpdatesKeepRows(Updates(g, a, ta, |a|), b, tb, |b|);
    UpdatesKeepRows(g, a, ta, |a|);
    SwappedBlocks(x, Inserts(Width(g), a, ta, |a|), Inserts(Width(g), b, tb, |b|));
  }
}
