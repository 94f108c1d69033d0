# Stock manager reconciliation engine in Dafny

This project models the core of the Einstein Robotics stock manager (`excelhandler.cpp`). The program keeps an inventory table of parts in an Excel workbook. The first row is a header, and every later row is one part with these columns: Part Name, Part No, Stock, Department, Prepared, Approved and Vendor Name. The model covers:

- **The table model** (`ExcelTableModel`). A mutable grid of cells: bounds-checked reads and writes, adding a row, adding a column, replacing the grid.
- **The merge** (`appendFromFile`). Folds a *purchase* file into the *stock* table. A part already listed has its stock raised by the purchased quantity, and its detail columns are overwritten where the purchase file supplies a value. An unlisted part gets a new row. Blank names are skipped, and only the first row with a given name counts. Two purchase files with no part name in common can be merged in either order: the resulting tables differ only in the order of the appended rows.
- **The header gate** (`validateFileStructure`, `getFileType`). Only a file whose third header cell reads "purchase" may be merged.
- **The load scan** (`loadExcel`). Turns a worksheet into a table. A malformed range is clamped and the header is cut after its last non-blank cell. Blank rows are skipped, the scan stops at the fifth blank row in a row, and every kept row is fitted to the header's width.
- **Saving** (`saveExcel`). Forces the `.xlsx` suffix. Also the permanent-file operations built on load and save.
- **The cloud folder protocol.**
  - The advisory lock is a sentinel file `<path>.lock` holding the owner's name. A sentinel older than 300 seconds is ignored.
  - `syncToCloud` and `syncFromCloud` move the sync status between "offline", "syncing", "synced" and "conflict".
  - `checkForUpdates` compares modification times.
- **Read-only scans and a quick add.** `findPartByName`, `searchAllMatches`, `getNextSerialNumber` and `addNewItem`.

## Layout

| file | module | contents |
|---|---|---|
| `options.dfy` | `Options` | the optional value used for absent or invalid results |
| `strings.dfy` | `Strings` | trimming, lower-casing, prefix and containment tests, the last path component, and rendering and parsing of integers |
| `cells.dfy` | `Cells` | the cell type (empty, text, integer) and its conversions to text, to a number and to a name key |
| `grid.dfy` | `Grid` | table values and the class `TableModel`, whose methods update the grid in place |
| `workbook.dfy` | `Workbook` | an already-read worksheet and the row scan of `loadExcel`, as methods with loop invariants, proved against the functions `Kept`, `Header` and `Fit` |
| `merge.dfy` | `Merge` | the merge as functions over table values (lookup, update, insert, one loop step, the fold), with its accounting, table-preservation, listing, stock-conservation and merge-order lemmas; also the header gate, search, serial numbers and `addNewItem` |
| `locking.dfy` | `Locking` | the lock decision and the sentinel files as a map |
| `paths.dfy` | `Paths` | `cleanFilePath`, file name and suffix, the forced save suffix, the cloud path and `canEdit` |
| `handler.dfy` | `Handler` | the class `ExcelHandler`. Its fields are the current, permanent and cloud paths, the user, the role, the sync status and the last sync time. Its methods are the merge, load and save loops and the push and pull state machine. |

`ExcelHandler` does not touch the file system, the clock or the spreadsheet library. Whatever they would report is passed in as a parameter:

- whether a file or folder exists;
- whether a write, a save or a copy succeeds;
- the worksheet as read (`None` when it cannot be read);
- the current time and the modification times;
- whether the current file and its cloud copy have the same canonical path (`sameFile`);
- the sentinel files, passed in and returned as a map.

## Behaviour of the code as written

The model follows the code, including where the code behaves in ways one might not expect:

- **A failed local save during a push leaves the status "synced"** (`excelhandler.cpp:1219-1224`): the failure is reported, but the status is not set to "offline". This is stated in `Handler.ExcelHandler.SyncToCloud` and `Handler.ExcelHandler.PushCopy`.
- **The result of `lockFile` is ignored during a push** (`excelhandler.cpp:1216`). A failed sentinel write does not stop the upload.
- **`checkForUpdates` changes no state**, the sync status included (`excelhandler.cpp:1335-1358`). One might expect a strictly newer cloud copy to move the status to "conflict"; the code only returns true and emits `conflictDetected`, and the model follows the code.
- **The third branch of the pull is dead** (`excelhandler.cpp:1312-1315`). Without a current file the cloud path is empty, and an empty path never exists, so the pull fails before it loads.
- **A user is blocked by their own lock when their name has surrounding whitespace.** The sentinel stores the name as given, but its content is trimmed before it is compared with the untrimmed current user (`Locking.PaddedUserBlocksThemself`).
- **`setDataAt` silently drops a write outside the row's width** (`excelhandler.cpp:87`). An update or insert on a table narrower than seven columns therefore loses the writes to the missing columns. `Merge.UpdatePart` and `Merge.InsertPart` state exactly which cells are written.
- **On an empty table, the first item that `addNewItem` adds lands in row 0**, which every lookup treats as the header, so it can never be found by name (`Merge.AddItemToEmptyTable`). The insert path of the merge does the same: `InsertPart` writes the new part into row `rowCount() - 1` after `addRow` (`excelhandler.cpp:433-436`), which is row 0 on an empty table. This is why `Merge.MergeListsEveryName` and `Merge.InsertStock` require a table with a header. `addNewItem` also stores the name untrimmed, while the merge stores it trimmed.
- **A row kept by the load scan can end up blank.** A row that is non-blank only in columns beyond the header's width is kept, then cut to that width.
- **The closing pass of `loadExcel` changes nothing** (`excelhandler.cpp:786-799`). Every row already has the header's width (`Workbook.RefitRows`).
- **`cleanFilePath` is idempotent on Linux but not elsewhere.** A doubled `file://` prefix loses one layer per call (`Paths.CleanNotIdempotentElsewhere`).
- **A failed removal of a sentinel goes unnoticed** (`excelhandler.cpp:1152-1155`). `unlockFile` reports success as soon as the sentinel exists, whether or not `QFile::remove` deletes it; a sentinel left behind keeps blocking other users until it turns stale (`Locking.FailedUnlockKeepsOthersOut`).
- **`syncFromCloud` removes the permanent or previous file before copying over it.** If the copy fails, the cloud copy stays current and the local file is gone. The removal is not modelled; the resulting current file is (`Handler.PulledFile`).

## Model

| member | source | states |
|---|---|---|
| Cells.AsInt | excelhandler.cpp:302-305 | `toInt` of a cell: an integer is its value, an empty cell is 0, a text is its parsed number or 0 when it is not numeric |
| Cells.BlankCells | excelhandler.cpp:318 | a cell is blank (empty once trimmed) exactly when it is empty or an all-whitespace text; an integer cell is never blank |
| Cells.AsIntOfText | excelhandler.cpp:302 | a cell rendered as text and read back as a number gives the same quantity, so a stock written as a number and reloaded as text keeps its value |
| Cells.KeyOfTrimmedName | excelhandler.cpp:442 | the trimmed name the merge writes into a new row has the same lookup key as the name itself |
| Strings.TrimSpec | excelhandler.cpp:284 | trimming empties exactly the all-whitespace strings and leaves no whitespace at either end |
| Strings.TrimIdempotent | excelhandler.cpp:393 | trimming an already trimmed name changes nothing |
| Strings.ToLowerSpec | excelhandler.cpp:284 | lower-casing works character by character |
| Strings.ContainsAt | excelhandler.cpp:497 | `contains` holds exactly when the needle occurs at some offset of the text |
| Strings.IntRoundTrip | excelhandler.cpp:302 | parsing the decimal rendering of any integer gives that integer back |
| Strings.NonNumericParsesToNone | excelhandler.cpp:302 | a text holding a character that is not whitespace, a digit or a sign does not parse, so its `toInt` is 0 |
| Grid.SetCell | excelhandler.cpp:83-94 | a write keeps the number of rows and every row's width, changes exactly the addressed cell when it is inside the table, and changes nothing when it is outside |
| Grid.AppendRow | excelhandler.cpp:96-103 | one empty row is added after the old rows, as wide as the header, or 7 wide on an empty table |
| Grid.AppendColumn | excelhandler.cpp:105-116 | every row gains one empty cell at its end and keeps its old cells; an empty table is unchanged |
| Grid.SetCellKeepsShape | excelhandler.cpp:83-94 | a write keeps a rectangular table rectangular with the same width |
| Grid.AppendRowKeepsShape | excelhandler.cpp:96-103 | adding a row keeps a rectangular table rectangular, 7 wide when it was empty |
| Grid.AppendColumnWidens | excelhandler.cpp:105-116 | adding a column widens a non-empty rectangular table by exactly one |
| Grid.TableModel.constructor | excelhandler.cpp:5-8 | a new table model is empty |
| Grid.ReadAfterWrite | excelhandler.cpp:74-94 | reading a cell after a write gives the written value at the addressed cell when it is inside the table, and the old value everywhere else |
| Grid.TableModel.RowCount | excelhandler.cpp:10-15 | the number of rows; an empty model has no columns either |
| Grid.TableModel.ColumnCount | excelhandler.cpp:17-22 | the width of the first row, 0 without rows; in a rectangular grid every row has that width |
| Grid.TableModel.GetData | excelhandler.cpp:74-81 | a cell inside the table reads as stored; a non-empty answer only comes from inside the table |
| Grid.TableModel.SetDataAt | excelhandler.cpp:83-94 | the result is true exactly when the cell is inside the table, and the grid becomes `SetCell` of the old grid; a successful write reads back, and the row and column counts are unchanged |
| Grid.TableModel.AddRow | excelhandler.cpp:96-103 | the grid becomes `AppendRow` of the old grid: one more row, the column count kept, or 7 on an empty model |
| Grid.TableModel.AddColumn | excelhandler.cpp:105-116 | the loop over the rows makes the grid `AppendColumn` of the old grid: the row count kept and one more column, none on an empty model |
| Grid.TableModel.SetExcelData | excelhandler.cpp:62-67 | the grid is replaced by the given table |
| Grid.TableModel.Clear | excelhandler.cpp:118-123 | the grid becomes empty |
| Workbook.Clamp | excelhandler.cpp:706-715 | start row and start column are raised to 1; a last row or column before the start becomes 1000 or 26; a well-formed range is kept as it is |
| Workbook.ReadRow | excelhandler.cpp:731-748 | the column loop reads the sheet's cells from the start column to `min(endCol, 26)`; `rowIsEmpty` holds exactly when all of them are blank; `actualColumns` is the position of the last non-blank cell |
| Workbook.ReadCell | excelhandler.cpp:737-747 | reading one more cell extends the cells read, the all-blank flag and the actual width as the loop body does |
| Workbook.ActualWidthSnoc | excelhandler.cpp:741-744 | a non-blank cell moves the actual width to its own position; a blank one leaves it |
| Workbook.TrimTrailingSpec | excelhandler.cpp:751-757 | trimming the header keeps a prefix of it, drops only blank cells, and ends at a non-blank cell |
| Workbook.TrimTrailingAt | excelhandler.cpp:751-757 | the `removeLast` loop down to `actualColumns` is exactly the trimmed header |
| Workbook.FitRow | excelhandler.cpp:771-779 | the `removeLast` and `append` loops bring a row to the header's width: its first cells kept, empty cells after them |
| Workbook.FitSpec | excelhandler.cpp:771-779 | a fitted row holds the row's cells below the width and empty cells past them |
| Workbook.ScanEndSpec | excelhandler.cpp:760-766 | the scan ends at the first row where five consecutive blank rows have been seen, or just past the range |
| Workbook.KeptSorted | excelhandler.cpp:760-781 | the kept rows are non-blank sheet rows from the start row on, in strictly ascending order |
| Workbook.KeptComplete | excelhandler.cpp:767-781 | every non-blank row before the scan's end is kept |
| Workbook.KeepRow | excelhandler.cpp:767-781 | appending a kept row, either as the header or fitted to the header's width, keeps the table rectangular and holding exactly the kept rows |
| Workbook.ScanRow | excelhandler.cpp:750-782 | one pass of the row loop either stops at the fifth consecutive blank row with the table unchanged, or keeps the scan invariant for the next row |
| Workbook.ScanSheet | excelhandler.cpp:725-783 | the row loop ends holding exactly the non-blank rows before the stop, the first as header and the rest fitted to its width, in a rectangular table |
| Workbook.RefitRows | excelhandler.cpp:786-799 | the closing normalisation pass returns a rectangular table unchanged |
| Workbook.ReadSheet | excelhandler.cpp:706-799 | the whole scan over the clamped range yields the kept rows, header first, every row the header's width |
| Workbook.StopIsFifthBlankRow | excelhandler.cpp:760-766 | a stop inside the range lies at the fifth blank row of a run of five after the start row, and no earlier run reached five |
| Workbook.EmptyLoad | excelhandler.cpp:801-804 | the load yields no row exactly when every row the scan visits before its stop is blank |
| Merge.FindKeyFrom | excelhandler.cpp:283-288 | the first row at or after `from` with the given key, or -1 when no row from there on has it |
| Merge.FindPart | excelhandler.cpp:278-291 | -1 exactly when no data row has the query's trimmed, lower-cased name; otherwise the least data row (never the header) with that name |
| Merge.OverwriteIfGiven | excelhandler.cpp:318-320 | a detail cell takes the purchase value only when one is supplied and non-blank; nothing else changes |
| Merge.UpdatePart | excelhandler.cpp:293-339 | in the updated row the stock becomes old stock plus purchase quantity, and Part No and columns 3-6 take non-blank purchase values; every other cell, the name and every other row are unchanged |
| Merge.InsertPart | excelhandler.cpp:433-448 | one row is appended after the old rows, holding the trimmed name, the purchase quantity as stock, and the detail cells copied as they are, blank ones included |
| Merge.PurchaseRow | excelhandler.cpp:387-390 | a purchase row is the seven cells of columns 1-7 of a sheet row, an absent cell being empty |
| Merge.PurchaseRows | excelhandler.cpp:382-390 | the merged rows are sheet rows 2 to the last row of the dimension, in order |
| Merge.NamesMembers | excelhandler.cpp:393-411 | a key is a processed name exactly when some earlier purchase row with a non-blank name carries it |
| Merge.StepSkipsExactly | excelhandler.cpp:393-452 | one loop pass leaves the table, the processed set and the counters as they were exactly when the row's name is blank or already processed |
| Merge.StepAccounting | excelhandler.cpp:393-452 | one loop pass records a non-blank name, counts a new name exactly once, and grows the table only when it inserts |
| Merge.MergeAccounting | excelhandler.cpp:374-453 | after the loop the processed set is exactly the distinct non-blank names, `rowsAdded + rowsUpdated` is their number, and the table has grown by `rowsAdded` rows |
| Merge.MergeAll | excelhandler.cpp:381-452 | the loop records exactly the distinct non-blank names, its counters add up to their number, the table grows by `rowsAdded`, and on a table with a header the result is the old rows with the updates applied followed by one new row per unlisted name, in order |
| Merge.MergeSplits | excelhandler.cpp:381-452 | on a table with a header, the loop records exactly the distinct non-blank names, and its table equals updating each listed part's row in place and appending one new row per first occurrence of an unlisted name |
| Merge.DisjointMergesCommute | excelhandler.cpp:381-452 | merging two purchase files with no part name in common into a table with a header gives, in either order, the same table up to the order of the appended rows: the same old rows and the same multiset of new rows |
| Merge.RowTakesEffect | excelhandler.cpp:393-411 | a purchase row changes nothing exactly when its name is blank or an earlier row carried the same name: the first occurrence wins |
| Merge.UpdateKeepsRows | excelhandler.cpp:293-339 | an update keeps the number of rows, every row's width and name cell, and the header row |
| Merge.InsertKeepsRows | excelhandler.cpp:433-448 | an insert adds one row and leaves every existing row as it was |
| Merge.StepKeepsRows | excelhandler.cpp:422-450 | one loop pass never shrinks the table, never changes the header, and keeps every row's width and name |
| Merge.MergeKeepsRows | excelhandler.cpp:382-453 | the whole merge keeps the header, and parts are never renamed, moved, removed or resized |
| Merge.RowNameIsKey | excelhandler.cpp:393-422 | the key recorded as processed is the key `findPartByName` looks up |
| Merge.StepLists | excelhandler.cpp:405-450 | after one pass every processed name, the new one included, is listed in the table |
| Merge.MergeListsEveryName | excelhandler.cpp:382-453 | after merging into a table with a header, every processed name can be found by `findPartByName` |
| Merge.UpdateStock | excelhandler.cpp:302-315 | an update raises the table's total stock by exactly the purchase quantity |
| Merge.InsertStock | excelhandler.cpp:436-444 | an insert into a table with a header raises the total stock by exactly the purchase quantity |
| Merge.StepStock | excelhandler.cpp:422-450 | one pass raises the total stock by the row's quantity when it processes the row, and by nothing when it skips it |
| Merge.MergeConservesStock | excelhandler.cpp:382-453 | the merge raises the total stock by exactly the quantities of the first occurrence of each distinct part name |
| Merge.GetFileType | excelhandler.cpp:641-652 | the file type is "purchase" exactly when the third header cell, trimmed and lower-cased, reads "purchase", and "stock" otherwise |
| Merge.ValidateFileStructure | excelhandler.cpp:864-913 | a file is accepted for merging exactly when it can be read and its Excel cell (1, 3), trimmed and lower-cased, reads "purchase" |
| Merge.GateMatchesFileType | excelhandler.cpp:892-898 | the merge gate accepts a sheet exactly when `getFileType` of its table says "purchase" |
| Merge.StockHeaderRejected | excelhandler.cpp:902-906 | a file whose third header reads "stock" is always rejected |
| Merge.SearchSound | excelhandler.cpp:492-506 | every search hit is a data row whose name, part number or vendor, lower-cased, contains the search text, reported with that row's cells |
| Merge.SearchComplete | excelhandler.cpp:492-506 | every matching data row is among the hits |
| Merge.SearchOrdered | excelhandler.cpp:492-506 | hits come in strictly increasing row order, so no row is reported twice |
| Merge.MaxSerialBounds | excelhandler.cpp:942-955 | the largest serial value is at least 0, at least every data row's number, and either 0 or some row's number |
| Merge.AddStock | excelhandler.cpp:924-926 | `addNewItem` on a listed part raises only that part's stock by the quantity |
| Merge.AppendItem | excelhandler.cpp:929-936 | `addNewItem` on an unlisted part appends one row holding the untrimmed name, "PN-" and the row number, the quantity and the category, and empty cells elsewhere |
| Merge.AddItem | excelhandler.cpp:915-940 | a listed part keeps the table's size and only its own row may change; an unlisted part appends one row after the unchanged old rows |
| Merge.AddItemLists | excelhandler.cpp:915-940 | after `addNewItem` on a table with a header the part can be found by name |
| Merge.AddItemToEmptyTable | excelhandler.cpp:929-933 | on an empty table the added item lands in row 0 and cannot be found by name |
| Locking.LockVerdict | excelhandler.cpp:1096-1127 | locked only when a sentinel exists, is at most 300 seconds old and is readable; then locked exactly when its trimmed owner differs from the current user |
| Locking.IsFileLocked | excelhandler.cpp:1096-1127 | locked exactly when the sentinel exists, is at most 300 seconds old, is readable and its trimmed content differs from the current user |
| Locking.LockFile | excelhandler.cpp:1129-1146 | when locked for the user, refused with nothing written; otherwise it succeeds exactly when the write does, leaving a sentinel with the user and the time, all others unchanged |
| Locking.UnlockFile | excelhandler.cpp:1148-1159 | the result says whether there was a sentinel, whatever the removal does; the sentinel is gone when the removal succeeds, whoever wrote it, and nothing changes when it fails; all others are unchanged |
| Locking.OwnLockNeverBlocks | excelhandler.cpp:1114-1126 | a sentinel whose trimmed owner is the current user never blocks them |
| Locking.StaleLockIgnored | excelhandler.cpp:1104-1112 | a sentinel more than 300 seconds old never blocks anyone |
| Locking.PaddedUserBlocksThemself | excelhandler.cpp:1117-1120 | a user whose name has a leading space takes the lock and is then blocked by it |
| Locking.AcquiredLockBlocksOthers | excelhandler.cpp:1129-1146 | after a lock is taken, for 300 seconds every other user is blocked and its owner is not |
| Locking.UnlockReleases | excelhandler.cpp:1148-1159 | an unlock never blocks anyone who was free; after a successful removal nobody is blocked and a second unlock finds nothing; after a failed one exactly the same users are blocked |
| Locking.FailedUnlockKeepsOthersOut | excelhandler.cpp:1148-1159 | when removing a freshly taken sentinel fails, the unlock still reports success and every other user stays blocked for 300 seconds |
| Paths.StripFileUrl | excelhandler.cpp:974-978 | the result is a suffix of the path, and the path itself when it has no `file://` prefix |
| Paths.CleanFilePath | excelhandler.cpp:970-988 | off Linux only the URL prefix goes; on Linux a non-empty result always starts with `/`, and only a `/` is ever added |
| Paths.CleanIdempotentOnLinux | excelhandler.cpp:980-984 | on Linux cleaning a cleaned path changes nothing |
| Paths.CleanNotIdempotentElsewhere | excelhandler.cpp:974-978 | off Linux `file://file://a` cleans to `file://a` and then to `a` |
| Paths.CleanFileUrl | excelhandler.cpp:974-984 | a `file:///` URL cleans to the absolute path it names on Linux, and to the relative path elsewhere |
| Paths.FileName | excelhandler.cpp:1092-1093 | the file name is a suffix of the path and holds no `/` |
| Paths.FileNameAfterLastSlash | excelhandler.cpp:1092-1093 | the file name is exactly the part after the last `/`: a `/` precedes it unless it is the whole path, and a path without `/` is its own file name |
| Paths.Suffix | excelhandler.cpp:668 | the suffix holds neither `.` nor `/` |
| Paths.ExcelEnding | excelhandler.cpp:668-669 | a path ending, in any case, with a dot and a letter extension has that extension as its lower-cased suffix |
| Paths.ForceExcelSuffix | excelhandler.cpp:829-832 | the saved path ends with ".xlsx" or ".xls" in some case; it is the given path or that path with ".xlsx" appended, and the given path when it already ends so |
| Paths.ForceExcelSuffixIdempotent | excelhandler.cpp:829-832 | forcing the suffix twice is forcing it once |
| Paths.SavedPathIsExcel | excelhandler.cpp:829-832 | every path `saveExcel` writes passes the suffix test of `loadExcel` |
| Paths.SaveTarget | excelhandler.cpp:822-832 | there is no target exactly when the chosen path (the given path cleaned, or the current file when no path is given) is empty; otherwise the target passes the Excel suffix test |
| Paths.IsExcelPath | excelhandler.cpp:668-669 | a path that passes the suffix test has a dot in its file name and a suffix of three or four characters |
| Paths.CanEdit | excelhandler.cpp:1081-1084 | editing is allowed only for the roles "owner" and "editor" |
| Paths.RoleTestIsExact | excelhandler.cpp:1081-1084 | both roles may edit, and every other role may not, including differently cased or padded spellings and "viewer" |
| Paths.CloudFilePath | excelhandler.cpp:1086-1094 | the cloud path is empty exactly when the folder or the current file is, and otherwise lies inside the folder |
| Paths.CloudCopyKeepsName | excelhandler.cpp:1092-1093 | the cloud copy has the current file's name |
| Handler.PulledFile | excelhandler.cpp:1290-1315 | after a pull the permanent file becomes current when the copy to it succeeds, else the previous current file; otherwise the cloud copy stays current |
| Handler.SavedFile | excelhandler.cpp:820-862 | a successful save always leaves a current file that passes the Excel suffix test |
| Handler.ReadPurchaseRow | excelhandler.cpp:387-390 | the inner loop reads exactly the purchase row |
| Handler.ScanForPart | excelhandler.cpp:278-291 | the lookup loop returns exactly `FindPart` |
| Handler.RowHit | excelhandler.cpp:493-497 | the hit test is exactly whether the row matches |
| Handler.CollectHit | excelhandler.cpp:497-505 | one pass of the search loop extends the hits of the rows before it by this row's hit |
| Handler.ScanForMatches | excelhandler.cpp:492-506 | the search loop returns exactly the hits of all data rows, in row order |
| Handler.ScanForSerial | excelhandler.cpp:942-955 | the result is at least 1 and exceeds every data row's number |
| Handler.ExcelHandler.constructor | excelhandler.cpp:127-145 | the table starts empty; the saved permanent file is kept only when it exists and is an Excel file; the status is "synced" only when the saved cloud folder exists; user and role default to "User" and "editor" |
| Handler.ExcelHandler.GetFileName | excelhandler.cpp:633-639 | "Untitled" without a current file; otherwise the file name of the current path, the part after its last `/`, and the cloud copy's name whenever there is a cloud path |
| Handler.ExcelHandler.GetCloudFilePath | excelhandler.cpp:1086-1094 | empty exactly when the folder or the current file is; otherwise a path inside the folder with the current file's name |
| Handler.ExcelHandler.CheckForUpdates | excelhandler.cpp:1335-1358 | true exactly when there is a cloud path, the cloud copy exists and it is strictly newer than the local file; nothing changes |
| Handler.ExcelHandler.FindPartByName | excelhandler.cpp:278-291 | the table's part lookup |
| Handler.ExcelHandler.SearchAllMatches | excelhandler.cpp:486-511 | the hits for the trimmed, lower-cased search text |
| Handler.ExcelHandler.GetNextSerialNumber | excelhandler.cpp:942-955 | a number above every data row's part-name value, and at least 1 |
| Handler.ExcelHandler.UpdateExistingPart | excelhandler.cpp:293-339 | the six writes turn the table into `UpdatePart` of it, and the result is always true |
| Handler.ExcelHandler.SetIfGiven | excelhandler.cpp:318-336 | one guarded write, as `OverwriteIfGiven` |
| Handler.ExcelHandler.InsertNewPart | excelhandler.cpp:433-448 | `addRow` and the seven writes turn the table into `InsertPart` of it |
| Handler.ExcelHandler.MergeRow | excelhandler.cpp:392-452 | one pass of the merge loop performs exactly `MergeStep` on the table, the processed set and the two counters |
| Handler.ExcelHandler.UpdateOrInsert | excelhandler.cpp:422-451 | a listed part is updated in place and an unlisted one is inserted |
| Handler.ExcelHandler.MergeSheet | excelhandler.cpp:382-452 | the row loop leaves the table, the processed set and both counters exactly as the merge of the sheet's purchase rows, in order |
| Handler.ExcelHandler.AppendFromFile | excelhandler.cpp:341-470 | a file that is not a purchase file is refused with nothing changed; otherwise the table and the counts are those of the merge, the counts add up to the distinct names, the table grows by `rowsAdded`, and the result is saved to the permanent file when one is set |
| Handler.ExcelHandler.AddNewItem | excelhandler.cpp:915-940 | the table becomes `AddItem` of it |
| Handler.ExcelHandler.AppendNewItem | excelhandler.cpp:929-936 | `addRow` and the four writes turn the table into `AppendItem` of it |
| Handler.ExcelHandler.LoadExcel | excelhandler.cpp:654-818 | the load succeeds exactly when the cleaned path exists, has an Excel suffix, is readable and yields rows; on success the table is the scan's result and the cleaned path is current; on failure the table is unchanged, and only a suffix refusal of the permanent file clears it |
| Handler.ExcelHandler.CheckLoadPath | excelhandler.cpp:661-686 | the path is accepted exactly when it exists with an Excel suffix; a refused suffix clears a permanent file with that path |
| Handler.ExcelHandler.LoadSheet | excelhandler.cpp:688-807 | an unreadable or empty sheet is refused with nothing changed; otherwise the scan's result replaces the table and the path becomes current |
| Handler.ExcelHandler.SaveExcel | excelhandler.cpp:820-862 | succeeds exactly when there is a target and the write succeeds; then the target, which passes the suffix test, becomes current; nothing else changes |
| Handler.ExcelHandler.SaveToPermanent | excelhandler.cpp:268-276 | refused without a permanent file; otherwise a save of it |
| Handler.ExcelHandler.SetPermanentFile | excelhandler.cpp:202-239 | an existing Excel file becomes both the permanent and the current file; otherwise nothing changes |
| Handler.ExcelHandler.LoadPermanentFile | excelhandler.cpp:241-266 | refused without a permanent file; a missing one is forgotten; otherwise it is loaded as `LoadExcel` does |
| Handler.ExcelHandler.SetCloudFolder | excelhandler.cpp:1026-1041 | an existing folder becomes the cloud folder, cleaned; otherwise nothing changes |
| Handler.ExcelHandler.SetCurrentUser | excelhandler.cpp:1053-1061 | only the user changes |
| Handler.ExcelHandler.SetUserRole | excelhandler.cpp:1063-1071 | only the role changes |
| Handler.ExcelHandler.SyncToCloud | excelhandler.cpp:1161-1257 | the full push state machine, all sentinel files and handler fields: without a folder or a file it changes nothing, and a role other than exactly "owner" or "editor" gives false with no state or sentinel changed; its own cloud copy is only saved; a copy locked by another user gives "conflict" with nothing written; otherwise the lock is taken, the file saved and copied, a failure unlocks the sentinel, which is gone only when the removal succeeds, and a failed save leaves "synced" |
| Handler.ExcelHandler.SaveInPlace | excelhandler.cpp:1188-1206 | a save that succeeds gives "synced" and records the time; one that fails gives "offline" |
| Handler.ExcelHandler.PushCopy | excelhandler.cpp:1215-1256 | succeeds exactly when both the save and the copy do; on success the taken sentinel stays, on failure it is unlocked, removed only when the removal succeeds; a failed save gives "synced" and a failed copy "offline" |
| Handler.ExcelHandler.SyncFromCloud | excelhandler.cpp:1259-1333 | without a folder nothing changes; a missing cloud copy gives "offline" and a copy locked by another user "conflict", both with the table unchanged; otherwise it succeeds exactly when the cloud copy loads, and then gives "synced" with the pulled file current |
| Handler.ExcelHandler.PullCloudCopy | excelhandler.cpp:1287-1332 | a successful load of the cloud copy makes the pulled file current with "synced"; a failed one gives "offline" with the table unchanged |
| Handler.ExcelHandler.UseLocalCopy | excelhandler.cpp:1291-1315 | after a pull the current file is `PulledFile`, the status "synced" and the sync time now |

## Left out

- Integers are unbounded. The 32-bit range of `QString::toInt` and of the stock addition is not modelled, so an overflowing sum or an out-of-range number is not captured.
- Whitespace is the ASCII set (space, TAB, LF, VT, FF, CR), and lower-casing covers ASCII letters only. Qt's full Unicode rules are not modelled.
- The unsaved-changes flag (`setUnsavedChanges`, `onModelDataChanged`) and all Qt notifications are not modelled. This includes `dataChanged`, the begin/end insert and reset calls and the handler's signals. The same goes for the view-facing `data`, `setData`, `flags` and `roleNames`, which repeat `getData` and `setDataAt` for the view.
- Reading and writing `.xlsx` files through QXlsx is a foreign library. A worksheet is given as an already-read `Sheet` (`None` when it cannot be read), and a write as a success flag. In `appendFromFile`, the second read of the file after `validateFileStructure` is taken to give the same sheet. The cells a save writes are not modelled.
- `QSettings` persistence (`loadPermanentFileSettings`, `savePermanentFileSettings`, `loadCloudSettings`, `saveCloudSettings`) is external storage. Only its effect on the fields is modelled: the saved values become parameters of the constructor.
- File-system calls and the clock become parameters: existence, copy, canonical paths, modification times and the current time. The outcome of removing a sentinel in `unlockFile` is the parameter `removeOk`. The other removals are not modelled: the old cloud copy before a push (`excelhandler.cpp:1227-1231`) and the local file before a pull copies over it. The last sync time is kept as a number, not as formatted text.
- Handler.ExcelHandler.SyncToCloud: the delayed unlock after a successful push (`excelhandler.cpp:1245-1247`) is deferred scheduling, so the sentinel is left for a later `UnlockFile`. The race between checking and writing a sentinel across processes is concurrency and is not modelled.
- Handler.ExcelHandler.LoadPermanentFile: one existence answer serves both the check of the permanent file and the one `loadExcel` repeats on the cleaned path.
- `setSyncEnabled` and the `syncEnabled` field are not modelled: no operation of the core reads them.
- `searchPartName` is only `findPartByName` plus a notification, so it is not modelled separately.
- `hasSavedPermanentFile` is not modelled: it is a plain existence query.
- `createNew`, `createStockFile` and `createPurchaseFile` are not modelled. They are constructors of fresh templates outside the reconciliation engine.
- `initializeUploadsDirectory` and the upload stubs (`uploadFileForPart`, `getUploadedFilePath`, `openUploadedFile`, `hasUploadedFile`) are not modelled. The first is directory creation; the stubs are constant answers of a removed feature.
- QXlsx hands numeric cells over as floating-point values. A cell is modelled as empty, text or an integer, so fractional quantities, and what `QVariant::toInt` and `toString` make of them, are not captured.
- The `unitPrice` parameter of `addNewItem` is not modelled: the source ignores it, and it is floating point.
- `main.cpp` is application start-up and is not part of this model. `excelhandler.h` only declares the members modelled here.
