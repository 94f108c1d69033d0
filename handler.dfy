/**
 * `ExcelHandler`: the object behind the user interface. It owns the table
 * model and the settings (current, permanent and cloud paths, user, role,
 * sync status), and it drives the merge of a purchase file, loading and
 * saving, and the push and pull of the shared copy in the cloud folder.
 *
 * What the file system, the clock and the spreadsheet library report is
 * passed in: whether a file exists, whether a write or a copy succeeds, the
 * already-read sheet (`None` when it cannot be read), the current time and
 * the lock sentinels.
 */
module Handler {
  import opened Options
  import opened Strings
  import opened Cells
  import opened Grid
  import opened Workbook
  import opened Merge
  import opened Paths
  import opened Locking

  /** `m_syncStatus`: "offline", "syncing", "synced" or "conflict". */
  datatype SyncStatus = Offline | Syncing | Synced | Conflict

  /** The handler's fields apart from the table, as one value. */
  datatype HandlerState = HandlerState(
    currentFile: string,
    permanentFile: string,
    cloudFolder: string,
    currentUser: string,
    userRole: string,
    syncStatus: SyncStatus,
    lastSyncTime: Option<int>)

  /** The rows `loadExcel` keeps from a sheet. */
  function LoadedRows(s: Sheet): seq<int>
  {
    Kept(s, Clamp(s), Stop(s, Clamp(s)))
  }

  /** `loadExcel` of the cleaned path `clean` succeeds: the file exists, is an Excel file, is readable and has data. */
  predicate LoadSucceeds(clean: string, fileExists: bool, doc: Option<Sheet>)
  {
    fileExists && IsExcelPath(clean) && doc.Some? && LoadedRows(doc.value) != []
  }

  /** The permanent file after a failed load: cleared only when the load refused it for its suffix. */
  function PermanentAfterFailedLoad(clean: string, fileExists: bool, permanent: string): string
  {
    if fileExists && !IsExcelPath(clean) && clean == permanent then [] else permanent
  }

  /**
   * The file `syncFromCloud` leaves current after loading the cloud copy
   * `cloud`: the permanent file, else the previous current file, when the
   * copy to it succeeds; the cloud copy itself otherwise.
   */
  function PulledFile(cloud: string, permanent: string, original: string, copyOk: bool): (r: string)
    ensures r == cloud || r == permanent || r == original
    ensures copyOk && permanent != [] ==> r == permanent
    ensures copyOk && permanent == [] && original != [] ==> r == original
    ensures !copyOk || permanent == original == [] ==> r == cloud
  {
    if permanent != [] then (if copyOk then permanent else cloud)
    else if original != [] then (if copyOk then original else cloud)
    else cloud
  }

  /** The file `saveExcel(path)` leaves current, `None` when the save fails. */
  function SavedFile(path: string, current: string, onLinux: bool, writeOk: bool): (r: Option<string>)
    ensures r.Some? ==> IsExcelPath(r.value)
  {
    var t := SaveTarget(path, current, onLinux);
    if t.Some? && writeOk then t else None
  }

  /** The inner loop of `appendFromFile`: the first seven cells of sheet row `row`. */
  method ReadPurchaseRow(s: Sheet, row: int) returns (rowData: Row)
    ensures rowData == PurchaseRow(s, row)
  {
    rowData := [];
    var col := 1;
    while col <= MergeWidth
      invariant 1 <= col <= MergeWidth + 1
      invariant |rowData| == col - 1
      invariant forall c :: 0 <= c < col - 1 ==> rowData[c] == CellAt(s, row, c + 1)
    {
      rowData := rowData + [CellAt(s, row, col)];
      col := col + 1;
    }
    assert forall c :: 0 <= c < MergeWidth ==> rowData[c] == PurchaseRow(s, row)[c];
  }

  /** The loop of `findPartByName`: rows 1 onwards, stopping at the first whose key is the query's. */
  method ScanForPart(g: Table, partName: string) returns (row: int)
    ensures row == FindPart(g, partName)
  {
    var rows := |g|;
    var searchName := NameKey(partName);
    var r := 1;
    while r < rows
      invariant 1 <= r
      invariant FindKeyFrom(g, searchName, r) == FindPart(g, partName)
    {
      if Key(GetCell(g, r, NameColumn)) == searchName {
        return r;
      }
      r := r + 1;
    }
    return -1;
  }

  /** The test `searchAllMatches` makes of one row: its name, part number or vendor, lower-cased, contains the search text. */
  method RowHit(g: Table, row: int, search: string) returns (hit: bool)
    ensures hit == RowMatches(g, row, search)
  {
    var partName := ToLower(ToText(GetCell(g, row, NameColumn)));
    var partNo := ToLower(ToText(GetCell(g, row, PartNoColumn)));
    var vendor := ToLower(ToText(GetCell(g, row, VendorColumn)));
    hit := Contains(partName, search) || Contains(partNo, search) || Contains(vendor, search);
  }

  /** The loop of `searchAllMatches`: the hits among rows 1 onwards, in row order. */
  method ScanForMatches(g: Table, search: string) returns (results: seq<Match>)
    ensures results == SearchUpTo(g, search, |g|)
  {
    results := [];
    var rows := |g|;
    var r := 1;
    while r < rows
      invariant 1 <= r <= Max(rows, 1)
      invariant results == SearchUpTo(g, search, r)
    {
      results := CollectHit(g, search, r, results);
      r := r + 1;
    }
  }

  /** One pass of that loop: row `r` is appended when it is a hit. */
  method CollectHit(g: Table, search: string, r: int, results: seq<Match>) returns (results': seq<Match>)
    requires 1 <= r && results == SearchUpTo(g, search, r)
    ensures results' == SearchUpTo(g, search, r + 1)
  {
    var hit := RowHit(g, r, search);
    results' := results;
    if hit {
      results' := results + [MatchAt(g, r)];
    }
  }

  /** The loop of `getNextSerialNumber`: one more than the largest part-name value of rows 1 onwards, at least 1. */
  method ScanForSerial(g: Table) returns (n: int)
    ensures n == MaxSerial(g, |g|) + 1
    ensures n >= 1
    ensures forall r :: 1 <= r < |g| ==> AsInt(GetCell(g, r, NameColumn)) < n
  {
    var maxNo := 0;
    var rows := |g|;
    var row := 1;
    while row < rows
      invariant 1 <= row <= Max(rows, 1)
      invariant maxNo == MaxSerial(g, row)
    {
      var no := AsInt(GetCell(g, row, NameColumn));
      if no > maxNo {
        maxNo := no;
      }
      row := row + 1;
    }
    MaxSerialBounds(g, rows);
    if rows == 0 {
      assert maxNo == MaxSerial(g, 0);
    } else {
      assert row == rows;
    }
    n := maxNo + 1;
  }

  class ExcelHandler {
    const model: TableModel
    /** Whether the program runs on Linux, where `cleanFilePath` makes paths absolute. */
    const onLinux: bool
    var currentFile: string
    var permanentFile: string
    var cloudFolder: string
    var currentUser: string
    var userRole: string
    var syncStatus: SyncStatus
    /** `m_lastSyncTime`, `None` standing for "Never". */
    var lastSyncTime: Option<int>

    function State(): HandlerState
      reads this
    {
      HandlerState(currentFile, permanentFile, cloudFolder, currentUser, userRole, syncStatus, lastSyncTime)
    }

    /**
     * The constructor with the saved settings: the permanent file is kept
     * only when it still exists and is an Excel file; the status is "synced"
     * when the saved cloud folder exists and "offline" otherwise; user and
     * role default to "User" and "editor".
     */
    constructor (onLinux: bool, savedPermanent: string, savedPermanentExists: bool,
                 savedFolder: string, savedFolderExists: bool,
                 savedUser: Option<string>, savedRole: Option<string>, savedLastSync: Option<int>)
      ensures fresh(model) && model.data == []
      ensures this.onLinux == onLinux
      ensures State() == HandlerState(
        [],
        if savedPermanent != [] && savedPermanentExists && IsExcelPath(savedPermanent) then savedPermanent else [],
        savedFolder,
        savedUser.GetOr("User"),
        savedRole.GetOr("editor"),
        if savedFolder != [] && savedFolderExists then Synced else Offline,
        savedLastSync)
    {
      model := new TableModel();
      this.onLinux := onLinux;
      currentFile := [];
      permanentFile := [];
      if savedPermanent != [] && savedPermanentExists && IsExcelPath(savedPermanent) {
        permanentFile := savedPermanent;
      }
      cloudFolder := savedFolder;
      currentUser := savedUser.GetOr("User");
      userRole := savedRole.GetOr("editor");
      lastSyncTime := savedLastSync;
      syncStatus := Offline;
      if savedFolder != [] && savedFolderExists {
        syncStatus := Synced;
      }
    }

    // ------------------------------------------------------------- queries

    /** `getCloudFilePath`: the cloud folder joined with the current file's name, empty without either. */
    function GetCloudFilePath(): (p: string)
      reads this
      ensures p == [] <==> cloudFolder == [] || currentFile == []
      ensures p != [] ==> StartsWith(p, cloudFolder + "/") && FileName(p) == FileName(currentFile)
    {
      if cloudFolder != [] && currentFile != [] then
        CloudCopyKeepsName(cloudFolder, currentFile);
        CloudFilePath(cloudFolder, currentFile)
      else
        []
    }

    /** `getFileName`: the current file's last path component, "Untitled" without a current file; the cloud copy carries the same name. */
    function GetFileName(): (name: string)
      reads this
      ensures currentFile == [] ==> name == "Untitled"
      ensures currentFile != [] ==> '/' !in name && |name| <= |currentFile| && currentFile[|currentFile| - |name|..] == name
      ensures currentFile != [] ==> name == FileName(currentFile)
      ensures currentFile != [] && |name| < |currentFile| ==> currentFile[|currentFile| - |name| - 1] == '/'
      ensures GetCloudFilePath() != [] ==> name == FileName(GetCloudFilePath())
    {
      if currentFile == [] then "Untitled" else FileNameAfterLastSlash(currentFile); FileName(currentFile)
    }

    /** `getFileType` of the table on screen. */
    function FileType(): Merge.FileType
      reads this, model
    {
      GetFileType(model.data)
    }

    /** `isFileLocked(path)` for the current user. */
    predicate LockedFor(locks: Sentinels, path: string, now: int)
      reads this
    {
      IsFileLocked(locks, path, now, currentUser)
    }

    /**
     * `checkForUpdates`: true only with a cloud folder, a current file and a
     * cloud copy that is strictly newer than the local file. It reports and
     * changes nothing else: the sync status is left as it is.
     */
    function CheckForUpdates(cloudExists: bool, localMtime: int, cloudMtime: int): (newer: bool)
      reads this
      ensures newer ==> GetCloudFilePath() != [] && cloudExists
      ensures newer ==> cloudMtime > localMtime
      ensures GetCloudFilePath() != [] && cloudExists && cloudMtime > localMtime ==> newer
    {
      if cloudFolder == [] || currentFile == [] then false
      else if !cloudExists then false
      else cloudMtime > localMtime
    }

    // ------------------------------------------------------------- scans

    /** `findPartByName` on the table. */
    method FindPartByName(partName: string) returns (row: int)
      ensures row == FindPart(model.data, partName)
    {
      row := ScanForPart(model.data, partName);
    }

    /** `searchAllMatches` on the table. */
    method SearchAllMatches(searchText: string) returns (results: seq<Match>)
      ensures results == SearchUpTo(model.data, SearchKey(searchText), |model.data|)
    {
      results := ScanForMatches(model.data, SearchKey(searchText));
    }

    /** `getNextSerialNumber` on the table: above every data row's value. */
    method GetNextSerialNumber() returns (n: int)
      ensures n == MaxSerial(model.data, |model.data|) + 1
      ensures n >= 1
      ensures forall r :: 1 <= r < |model.data| ==> AsInt(GetCell(model.data, r, NameColumn)) < n
    {
      n := ScanForSerial(model.data);
    }

    // ------------------------------------------------------------- merge

    /** `updateExistingPart(row, mergeData)`: always reports success. */
    method UpdateExistingPart(row: int, mergeData: Row) returns (ok: bool)
      modifies model
      ensures ok
      ensures model.data == UpdatePart(old(model.data), row, mergeData)
    {
      ghost var g := model.data;
      var currentStock := AsInt(model.GetData(row, QuantityColumn));
      var purchaseQty := Quantity(mergeData);
      ok := model.SetDataAt(row, QuantityColumn, Int(currentStock + purchaseQty));
      ghost var g1 := model.data;
      SetIfGiven(row, mergeData, 1);
      ghost var g2 := model.data;
      SetIfGiven(row, mergeData, 3);
      ghost var g3 := model.data;
      SetIfGiven(row, mergeData, 4);
      ghost var g4 := model.data;
      SetIfGiven(row, mergeData, 5);
      ghost var g5 := model.data;
      SetIfGiven(row, mergeData, 6);
      UpdateSteps(g, row, mergeData, g1, g2, g3, g4, g5, model.data);
      ok := true;
    }

    /** One "update if provided" step of `updateExistingPart`: column `j` takes a supplied, non-blank value. */
    method SetIfGiven(row: int, mergeData: Row, j: nat)
      modifies model
      ensures model.data == OverwriteIfGiven(old(model.data), row, mergeData, j)
    {
      if |mergeData| > j && !IsBlank(mergeData[j]) {
        var written := model.SetDataAt(row, j, mergeData[j]);
      }
    }

    /** The insert path of `appendFromFile`: `addRow`, then the seven cell writes. */
    method InsertNewPart(partName: string, rowData: Row)
      modifies model
      ensures model.data == InsertPart(old(model.data), partName, rowData)
    {
      model.AddRow();
      var newRow := model.RowCount() - 1;
      var written := model.SetDataAt(newRow, NameColumn, Text(partName));
      written := model.SetDataAt(newRow, 1, CellOr(rowData, 1));
      written := model.SetDataAt(newRow, QuantityColumn, Int(Quantity(rowData)));
      written := model.SetDataAt(newRow, 3, CellOr(rowData, 3));
      written := model.SetDataAt(newRow, 4, CellOr(rowData, 4));
      written := model.SetDataAt(newRow, 5, CellOr(rowData, 5));
      written := model.SetDataAt(newRow, 6, CellOr(rowData, 6));
    }

    /**
     * One pass of the row loop of `appendFromFile`: a blank or an already
     * processed name is skipped; otherwise the name is recorded, the part is
     * updated or inserted, and the matching counter goes up.
     */
    method MergeRow(rowData: Row, processedParts: set<string>, rowsAdded: nat, rowsUpdated: nat)
      returns (processed: set<string>, added: nat, updated: nat)
      modifies model
      ensures MergeState(model.data, processed, added, updated) ==
        MergeStep(MergeState(old(model.data), processedParts, rowsAdded, rowsUpdated), rowData)
    {
      ghost var st := MergeState(model.data, processedParts, rowsAdded, rowsUpdated);
      processed, added, updated := processedParts, rowsAdded, rowsUpdated;
      var partName := PartName(rowData);
      if partName == [] {
        assert MergeStep(st, rowData) == st;
        return;
      }
      var partNameLower := ToLower(partName);
      if partNameLower in processedParts {
        assert RowName(rowData) in st.seen;
        return;
      }
      processed := processedParts + {partNameLower};
      ghost var row := FindPart(st.grid, partName);
      var listed := UpdateOrInsert(partName, rowData);
      if listed {
        updated := rowsUpdated + 1;
        assert MergeStep(st, rowData) == MergeState(UpdatePart(st.grid, row, rowData), processed, added, updated);
      } else {
        added := rowsAdded + 1;
        assert MergeStep(st, rowData) == MergeState(InsertPart(st.grid, partName, rowData), processed, added, updated);
      }
    }

    /** The part of a merge pass that touches the table: update the listed part, or insert a new one. */
    method UpdateOrInsert(partName: string, rowData: Row) returns (listed: bool)
      modifies model
      ensures listed <==> FindPart(old(model.data), partName) != -1
      ensures listed ==> model.data == UpdatePart(old(model.data), FindPart(old(model.data), partName), rowData)
      ensures !listed ==> model.data == InsertPart(old(model.data), partName, rowData)
    {
      var existingRow := FindPartByName(partName);
      listed := existingRow != -1;
      if listed {
        var ok := UpdateExistingPart(existingRow, rowData);
      } else {
        InsertNewPart(partName, rowData);
      }
    }

    /**
     * `appendFromFile`: a file that is not a purchase file is refused and
     * nothing changes; otherwise rows 2 to the last row are merged into the
     * table, and the result is saved to the permanent file when one is set.
     * `doc` is the sheet as read, `None` when it cannot be read; `saveOk`
     * says whether that save's write succeeds.
     */
    method AppendFromFile(doc: Option<Sheet>, saveOk: bool) returns (ok: bool, rowsAdded: nat, rowsUpdated: nat)
      modifies this, model
      ensures ok <==> ValidateFileStructure(doc)
      ensures !ok ==> rowsAdded == 0 && rowsUpdated == 0
      ensures !ok ==> model.data == old(model.data) && State() == old(State())
      ensures ok ==> model.data == MergeAll(old(model.data), PurchaseRows(doc.value)).grid
      ensures ok ==> rowsAdded == MergeAll(old(model.data), PurchaseRows(doc.value)).added
      ensures ok ==> rowsUpdated == MergeAll(old(model.data), PurchaseRows(doc.value)).updated
      ensures ok ==> rowsAdded + rowsUpdated == |Names(PurchaseRows(doc.value), |PurchaseRows(doc.value)|)|
      ensures ok ==> |model.data| == |old(model.data)| + rowsAdded
      ensures ok && old(permanentFile) != [] ==>
        State() == old(State()).(currentFile := SavedFile(old(permanentFile), old(currentFile), onLinux, saveOk).GetOr(old(currentFile)))
      ensures ok && old(permanentFile) == [] ==> State() == old(State())
    {
      if !ValidateFileStructure(doc) {
        return false, 0, 0;
      }
      var sheet := doc.value;
      ghost var rows := PurchaseRows(sheet);
      ghost var g0 := model.data;
      var processedParts;
      processedParts, rowsAdded, rowsUpdated := MergeSheet(sheet);
      ghost var merged := MergeAll(g0, rows);
      assert merged == MergePrefix(Start(g0), rows, |rows|);
      assert model.data == merged.grid && rowsAdded == merged.added && rowsUpdated == merged.updated;
      if permanentFile != [] {
        var saved := SaveToPermanent(saveOk);
      }
      ok := true;
    }

    /** The row loop of `appendFromFile`: every purchase row of the sheet passes through `MergeRow` in order. */
    method MergeSheet(sheet: Sheet) returns (processedParts: set<string>, rowsAdded: nat, rowsUpdated: nat)
      modifies model
      ensures MergeState(model.data, processedParts, rowsAdded, rowsUpdated) ==
        MergePrefix(Start(old(model.data)), PurchaseRows(sheet), |PurchaseRows(sheet)|)
    {
      ghost var rows := PurchaseRows(sheet);
      ghost var g0 := model.data;
      rowsAdded, rowsUpdated := 0, 0;
      processedParts := {};
      var row := 2;
      while row <= sheet.lastRow
        invariant 2 <= row <= Max(2, sheet.lastRow + 1)
        invariant MergePrefix(Start(g0), rows, row - 2) == MergeState(model.data, processedParts, rowsAdded, rowsUpdated)
      {
        var rowData := ReadPurchaseRow(sheet, row);
        assert rowData == rows[row - 2];
        processedParts, rowsAdded, rowsUpdated := MergeRow(rowData, processedParts, rowsAdded, rowsUpdated);
        row := row + 1;
      }
      assert row - 2 == |rows|;
    }

    /** `addNewItem(partName, category, quantity)`; the unit price is not used by the source. */
    method AddNewItem(partName: string, category: string, quantity: int)
      modifies model
      ensures model.data == AddItem(old(model.data), partName, category, quantity)
    {
      var existingRow := FindPartByName(partName);
      if existingRow != -1 {
        var currentStock := AsInt(model.GetData(existingRow, QuantityColumn));
        var written := model.SetDataAt(existingRow, QuantityColumn, Int(currentStock + quantity));
      } else {
        AppendNewItem(partName, category, quantity);
      }
    }

    /** The new-part path of `addNewItem`: `addRow`, then the four cell writes. */
    method AppendNewItem(partName: string, category: string, quantity: int)
      modifies model
      ensures model.data == AppendItem(old(model.data), partName, category, quantity)
    {
      model.AddRow();
      var newRow := model.RowCount() - 1;
      var written := model.SetDataAt(newRow, NameColumn, Text(partName));
      written := model.SetDataAt(newRow, PartNoColumn, Text(GeneratedPartNo(newRow)));
      written := model.SetDataAt(newRow, QuantityColumn, Int(quantity));
      written := model.SetDataAt(newRow, DepartmentColumn, Text(category));
    }

    // ------------------------------------------------------- load and save

    /**
     * `loadExcel(filePath)`: the cleaned path must exist, have an Excel suffix
     * (a refused suffix also clears a permanent file with that path), be
     * readable and hold data; on success the table is the normalised content
     * of the sheet and the cleaned path becomes current.
     */
    method LoadExcel(filePath: string, fileExists: bool, doc: Option<Sheet>) returns (ok: bool)
      modifies this, model
      ensures ok <==> LoadSucceeds(CleanFilePath(filePath, onLinux), fileExists, doc)
      ensures ok ==> Holds(doc.value, Clamp(doc.value), LoadedRows(doc.value), model.data) && Rectangular(model.data)
      ensures ok ==> State() == old(State()).(currentFile := CleanFilePath(filePath, onLinux))
      ensures !ok ==> model.data == old(model.data)
      ensures !ok ==> State() == old(State()).(
        permanentFile := PermanentAfterFailedLoad(CleanFilePath(filePath, onLinux), fileExists, old(permanentFile)))
    {
      var cleanPath := CleanFilePath(filePath, onLinux);
      var accepted := CheckLoadPath(cleanPath, fileExists);
      if !accepted {
        return false;
      }
      ok := LoadSheet(cleanPath, doc);
    }

    /**
     * The path checks of `loadExcel`: the file must exist and have an Excel
     * suffix; a refused suffix also clears a permanent file with that path.
     */
    method CheckLoadPath(cleanPath: string, fileExists: bool) returns (accepted: bool)
      modifies this
      ensures accepted <==> fileExists && IsExcelPath(cleanPath)
      ensures State() == old(State()).(permanentFile := PermanentAfterFailedLoad(cleanPath, fileExists, old(permanentFile)))
    {
      if !fileExists {
        return false;
      }
      if !IsExcelPath(cleanPath) {
        if cleanPath == permanentFile {
          permanentFile := [];
        }
        return false;
      }
      accepted := true;
    }

    /**
     * The reading part of `loadExcel`: an unreadable sheet or one without
     * data is refused; otherwise its normalised content replaces the table
     * and `cleanPath` becomes current.
     */
    method LoadSheet(cleanPath: string, doc: Option<Sheet>) returns (ok: bool)
      modifies this, model
      ensures ok <==> doc.Some? && LoadedRows(doc.value) != []
      ensures ok ==> Holds(doc.value, Clamp(doc.value), LoadedRows(doc.value), model.data) && Rectangular(model.data)
      ensures ok ==> State() == old(State()).(currentFile := cleanPath)
      ensures !ok ==> model.data == old(model.data) && State() == old(State())
    {
      if doc.None? {
        return false;
      }
      var data := ReadSheet(doc.value);
      if data == [] {
        return false;
      }
      model.SetExcelData(data);
      currentFile := cleanPath;
      ok := true;
    }

    /**
     * `saveExcel(filePath)`: the cleaned path, or the current file when none
     * is given, with ".xlsx" forced; on success that file becomes current.
     * `writeOk` says whether the spreadsheet write succeeds.
     */
    method SaveExcel(filePath: string, writeOk: bool) returns (ok: bool)
      modifies this
      ensures ok <==> SavedFile(filePath, old(currentFile), onLinux, writeOk).Some?
      ensures State() == old(State()).(currentFile := SavedFile(filePath, old(currentFile), onLinux, writeOk).GetOr(old(currentFile)))
      ensures ok ==> IsExcelPath(currentFile)
    {
      var savePath := SaveTarget(filePath, currentFile, onLinux);
      if savePath.None? {
        return false;
      }
      if !writeOk {
        return false;
      }
      currentFile := savePath.value;
      ok := true;
    }

    /** `saveToPermanent`: refused without a permanent file, otherwise `saveExcel` of it. */
    method SaveToPermanent(writeOk: bool) returns (ok: bool)
      modifies this
      ensures old(permanentFile) == [] ==> !ok && State() == old(State())
      ensures old(permanentFile) != [] ==>
        (ok <==> SavedFile(old(permanentFile), old(currentFile), onLinux, writeOk).Some?)
      ensures old(permanentFile) != [] ==>
        State() == old(State()).(currentFile := SavedFile(old(permanentFile), old(currentFile), onLinux, writeOk).GetOr(old(currentFile)))
    {
      if permanentFile == [] {
        return false;
      }
      ok := SaveExcel(permanentFile, writeOk);
    }

    /** `setPermanentFile(filePath)`: an existing Excel file becomes both the permanent and the current file. */
    method SetPermanentFile(filePath: string, fileExists: bool) returns (ok: bool)
      modifies this
      ensures ok <==> fileExists && IsExcelPath(CleanFilePath(filePath, onLinux))
      ensures ok ==> State() == old(State()).(permanentFile := CleanFilePath(filePath, onLinux), currentFile := CleanFilePath(filePath, onLinux))
      ensures !ok ==> State() == old(State())
    {
      var cleanPath := CleanFilePath(filePath, onLinux);
      if !fileExists {
        return false;
      }
      if !IsExcelPath(cleanPath) {
        return false;
      }
      permanentFile := cleanPath;
      currentFile := cleanPath;
      ok := true;
    }

    /**
     * `loadPermanentFile`: refused without a permanent file; a permanent file
     * that no longer exists is forgotten; otherwise it is loaded.
     */
    method LoadPermanentFile(fileExists: bool, doc: Option<Sheet>) returns (ok: bool)
      modifies this, model
      ensures old(permanentFile) == [] ==> !ok && model.data == old(model.data) && State() == old(State())
      ensures old(permanentFile) != [] && !fileExists ==>
        !ok && model.data == old(model.data) && State() == old(State()).(permanentFile := [])
      ensures old(permanentFile) != [] && fileExists ==>
        (ok <==> LoadSucceeds(CleanFilePath(old(permanentFile), onLinux), true, doc))
      ensures old(permanentFile) != [] && fileExists && ok ==>
        Holds(doc.value, Clamp(doc.value), LoadedRows(doc.value), model.data) &&
        State() == old(State()).(currentFile := CleanFilePath(old(permanentFile), onLinux))
      ensures old(permanentFile) != [] && fileExists && !ok ==>
        model.data == old(model.data) &&
        State() == old(State()).(permanentFile := PermanentAfterFailedLoad(CleanFilePath(old(permanentFile), onLinux), true, old(permanentFile)))
    {
      if permanentFile == [] {
        return false;
      }
      if !fileExists {
        permanentFile := [];
        return false;
      }
      ok := LoadExcel(permanentFile, fileExists, doc);
    }

    // ---------------------------------------------------------- settings

    /** `setCloudFolder(folder)`: an existing folder becomes the cloud folder, cleaned. */
    method SetCloudFolder(folder: string, dirExists: bool)
      modifies this
      ensures dirExists ==> State() == old(State()).(cloudFolder := CleanFilePath(folder, onLinux))
      ensures !dirExists ==> State() == old(State())
    {
      var cleanPath := CleanFilePath(folder, onLinux);
      if !dirExists {
        return;
      }
      cloudFolder := cleanPath;
    }

    /** `setCurrentUser`. */
    method SetCurrentUser(username: string)
      modifies this
      ensures State() == old(State()).(currentUser := username)
    {
      currentUser := username;
    }

    /** `setUserRole`. */
    method SetUserRole(role: string)
      modifies this
      ensures State() == old(State()).(userRole := role)
    {
      userRole := role;
    }

    // -------------------------------------------------------------- sync

    /** The checks `syncToCloud` makes before it starts: a cloud folder, a current file and an editing role. */
    predicate PushReady()
      reads this
    {
      cloudFolder != [] && currentFile != [] && Paths.CanEdit(userRole)
    }

    /**
     * `syncToCloud`. Without a folder, a file or an editing role nothing
     * happens. When the current file already is the cloud copy (`sameFile`:
     * the two canonical paths compare equal) it is only saved. Otherwise a
     * copy locked by another user is a conflict and nothing is written;
     * else the lock is taken (its result is not looked at), the file is
     * saved and copied; after a failed save or copy the sentinel is
     * unlocked again, which removes it only when the removal succeeds
     * (`removeOk`). A failed save leaves the status "synced". After a
     * successful copy the sentinel stays, as the delayed unlock is a later
     * step.
     */
    method SyncToCloud(locks: Sentinels, now: int, sameFile: bool, lockWriteOk: bool, saveOk: bool, copyOk: bool, removeOk: bool)
      returns (ok: bool, after: Sentinels)
      modifies this
      ensures !old(PushReady()) ==> !ok && after == locks && State() == old(State())
      ensures old(userRole) != "owner" && old(userRole) != "editor" ==> !ok && after == locks && State() == old(State())
      ensures old(PushReady()) && sameFile ==> after == locks
      ensures old(PushReady()) && sameFile ==>
        (ok <==> SavedFile(old(currentFile), old(currentFile), onLinux, saveOk).Some?)
      ensures old(PushReady()) && sameFile ==>
        State() == old(State()).(
          currentFile := SavedFile(old(currentFile), old(currentFile), onLinux, saveOk).GetOr(old(currentFile)),
          syncStatus := if ok then Synced else Offline,
          lastSyncTime := if ok then Some(now) else old(lastSyncTime))
      ensures old(PushReady()) && !sameFile && IsFileLocked(locks, old(GetCloudFilePath()), now, old(currentUser)) ==>
        !ok && after == locks && State() == old(State()).(syncStatus := Conflict)
      ensures old(PushReady()) && !sameFile && !IsFileLocked(locks, old(GetCloudFilePath()), now, old(currentUser)) ==>
        (ok <==> SavedFile(old(currentFile), old(currentFile), onLinux, saveOk).Some? && copyOk)
      ensures old(PushReady()) && !sameFile && !IsFileLocked(locks, old(GetCloudFilePath()), now, old(currentUser)) ==>
        after == (if ok then LockFile(locks, old(GetCloudFilePath()), now, old(currentUser), lockWriteOk).after
                  else UnlockFile(LockFile(locks, old(GetCloudFilePath()), now, old(currentUser), lockWriteOk).after, old(GetCloudFilePath()), removeOk).after)
      ensures old(PushReady()) && !sameFile && !IsFileLocked(locks, old(GetCloudFilePath()), now, old(currentUser)) ==>
        State() == old(State()).(
          currentFile := SavedFile(old(currentFile), old(currentFile), onLinux, saveOk).GetOr(old(currentFile)),
          syncStatus := if ok || SavedFile(old(currentFile), old(currentFile), onLinux, saveOk).None? then Synced else Offline,
          lastSyncTime := if ok then Some(now) else old(lastSyncTime))
    {
      after := locks;
      if cloudFolder == [] || currentFile == [] || !Paths.CanEdit(userRole) {
        return false, after;
      }
      syncStatus := Syncing;
      var cloudFilePath := GetCloudFilePath();
      if sameFile {
        ok := SaveInPlace(now, saveOk);
        return ok, after;
      }
      if IsFileLocked(locks, cloudFilePath, now, currentUser) {
        syncStatus := Conflict;
        return false, after;
      }
      ok, after := PushCopy(locks, now, cloudFilePath, lockWriteOk, saveOk, copyOk, removeOk);
    }

    /** The push of a file that is its own cloud copy: it is only saved. */
    method SaveInPlace(now: int, saveOk: bool) returns (ok: bool)
      modifies this
      ensures ok <==> SavedFile(old(currentFile), old(currentFile), onLinux, saveOk).Some?
      ensures State() == old(State()).(
        currentFile := SavedFile(old(currentFile), old(currentFile), onLinux, saveOk).GetOr(old(currentFile)),
        syncStatus := if ok then Synced else Offline,
        lastSyncTime := if ok then Some(now) else old(lastSyncTime))
    {
      ok := SaveExcel(currentFile, saveOk);
      if ok {
        lastSyncTime := Some(now);
        syncStatus := Synced;
      } else {
        syncStatus := Offline;
      }
    }

    /**
     * The push to a cloud copy nobody else holds: take the lock, save, copy;
     * a failed save or copy unlocks again, with the removal outcome `removeOk`.
     */
    method PushCopy(locks: Sentinels, now: int, cloudFilePath: string, lockWriteOk: bool, saveOk: bool, copyOk: bool, removeOk: bool)
      returns (ok: bool, after: Sentinels)
      modifies this
      ensures ok <==> SavedFile(old(currentFile), old(currentFile), onLinux, saveOk).Some? && copyOk
      ensures after == (if ok then LockFile(locks, cloudFilePath, now, old(currentUser), lockWriteOk).after
                        else UnlockFile(LockFile(locks, cloudFilePath, now, old(currentUser), lockWriteOk).after, cloudFilePath, removeOk).after)
      ensures State() == old(State()).(
        currentFile := SavedFile(old(currentFile), old(currentFile), onLinux, saveOk).GetOr(old(currentFile)),
        syncStatus := if ok || SavedFile(old(currentFile), old(currentFile), onLinux, saveOk).None? then Synced else Offline,
        lastSyncTime := if ok then Some(now) else old(lastSyncTime))
    {
      var taken := LockFile(locks, cloudFilePath, now, currentUser, lockWriteOk).after;
      var released := UnlockFile(taken, cloudFilePath, removeOk).after;
      var saved := SaveExcel(currentFile, saveOk);
      if !saved {
        syncStatus := Synced;
        return false, released;
      }
      if copyOk {
        lastSyncTime := Some(now);
        syncStatus := Synced;
        return true, taken;
      }
      syncStatus := Offline;
      ok, after := false, released;
    }

    /** The checks `syncFromCloud` passes before it loads: a folder, an existing cloud copy, and no lock by another user. */
    predicate PullReady(locks: Sentinels, now: int, cloudExists: bool)
      reads this
    {
      cloudFolder != [] && GetCloudFilePath() != [] && cloudExists && !IsFileLocked(locks, GetCloudFilePath(), now, currentUser)
    }

    /**
     * `syncFromCloud`. Without a folder nothing happens. A missing cloud copy
     * (always so without a current file, whose cloud path is empty) sets
     * "offline"; a copy locked by another user sets "conflict". Otherwise the
     * cloud copy is loaded; on success it is copied over the permanent file,
     * or over the previous current file when there is no permanent one, and
     * that file becomes current; when that copy fails the cloud copy stays
     * current. `cloudExists` says whether the cloud copy exists, `loadExists`
     * whether its cleaned path does, `copyOk` whether the local copy succeeds.
     */
    method SyncFromCloud(locks: Sentinels, now: int, cloudExists: bool, loadExists: bool, doc: Option<Sheet>, copyOk: bool)
      returns (ok: bool)
      modifies this, model
      ensures old(cloudFolder) == [] ==> !ok && model.data == old(model.data) && State() == old(State())
      ensures old(cloudFolder) != [] && (old(GetCloudFilePath()) == [] || !cloudExists) ==>
        !ok && model.data == old(model.data) && State() == old(State()).(syncStatus := Offline)
      ensures (old(cloudFolder) != [] && old(GetCloudFilePath()) != [] && cloudExists &&
               IsFileLocked(locks, old(GetCloudFilePath()), now, old(currentUser))) ==>
        !ok && model.data == old(model.data) && State() == old(State()).(syncStatus := Conflict)
      ensures old(PullReady(locks, now, cloudExists)) ==>
        (ok <==> LoadSucceeds(CleanFilePath(old(GetCloudFilePath()), onLinux), loadExists, doc))
      ensures old(PullReady(locks, now, cloudExists)) && ok ==>
        Holds(doc.value, Clamp(doc.value), LoadedRows(doc.value), model.data) &&
        State() == old(State()).(
          currentFile := PulledFile(old(GetCloudFilePath()), old(permanentFile), old(currentFile), copyOk),
          syncStatus := Synced,
          lastSyncTime := Some(now))
      ensures old(PullReady(locks, now, cloudExists)) && !ok ==>
        model.data == old(model.data) &&
        State() == old(State()).(
          permanentFile := PermanentAfterFailedLoad(CleanFilePath(old(GetCloudFilePath()), onLinux), loadExists, old(permanentFile)),
          syncStatus := Offline)
      ensures ok ==> syncStatus == Synced && lastSyncTime == Some(now)
    {
      if cloudFolder == [] {
        return false;
      }
      syncStatus := Syncing;
      var cloudFilePath := GetCloudFilePath();
      if cloudFilePath == [] || !cloudExists {
        syncStatus := Offline;
        return false;
      }
      if IsFileLocked(locks, cloudFilePath, now, currentUser) {
        syncStatus := Conflict;
        return false;
      }
      ok := PullCloudCopy(cloudFilePath, now, loadExists, doc, copyOk);
    }

    /**
     * The part of `syncFromCloud` after its checks: the cloud copy is loaded
     * and, on success, the file it was copied to becomes current.
     */
    method PullCloudCopy(cloudFilePath: string, now: int, loadExists: bool, doc: Option<Sheet>, copyOk: bool)
      returns (ok: bool)
      modifies this, model
      ensures ok <==> LoadSucceeds(CleanFilePath(cloudFilePath, onLinux), loadExists, doc)
      ensures ok ==>
        Holds(doc.value, Clamp(doc.value), LoadedRows(doc.value), model.data) &&
        State() == old(State()).(
          currentFile := PulledFile(cloudFilePath, old(permanentFile), old(currentFile), copyOk),
          syncStatus := Synced,
          lastSyncTime := Some(now))
      ensures !ok ==>
        model.data == old(model.data) &&
        State() == old(State()).(
          permanentFile := PermanentAfterFailedLoad(CleanFilePath(cloudFilePath, onLinux), loadExists, old(permanentFile)),
          syncStatus := Offline)
    {
      var originalFile := currentFile;
      var loaded := LoadExcel(cloudFilePath, loadExists, doc);
      if loaded {
        UseLocalCopy(cloudFilePath, originalFile, copyOk, now);
        ok := true;
      } else {
        syncStatus := Offline;
        ok := false;
      }
    }

    /**
     * After a successful pull, `syncFromCloud` copies the cloud copy over the
     * permanent file, or over the previous current file when there is no
     * permanent one, and makes that file current; when the copy fails, or
     * there is neither, the cloud copy stays current.
     */
    method UseLocalCopy(cloudFilePath: string, originalFile: string, copyOk: bool, now: int)
      modifies this
      ensures State() == old(State()).(
        currentFile := PulledFile(cloudFilePath, old(permanentFile), originalFile, copyOk),
        syncStatus := Synced,
        lastSyncTime := Some(now))
    {
      if permanentFile != [] {
        currentFile := if copyOk then permanentFile else cloudFilePath;
      } else if originalFile != [] {
        currentFile := if copyOk then originalFile else cloudFilePath;
      } else {
        currentFile := cloudFilePath;
      }
      lastSyncTime := Some(now);
      syncStatus := Synced;
    }
  }
}
