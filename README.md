# JsonDiff merge core in Dafny

JsonDiff compares two JSON datasets. Each dataset maps a table name to an
array of flat row objects, and rows are identified by their `key` column. A
browser page shows, table by table, which rows differ, which are missing on
either side and which are the same. The operator ticks whole tables or single
rows. The page then posts the selection to the server's `/migrate` handler,
which merges it into the target dataset and reports four counters.

This project models:

- the merge body of `/migrate` (`backend/server.js`). Normalising the loaded
  documents, replacing whole tables, inserting, updating and deleting rows,
  overwriting individual cells, and counting `tablesCopied`, `rowsCopied`,
  `tablesDeleted` and `rowsDeleted`. Module `Merge` defines each step as a
  function on a `State` (target dataset plus counters). Its class `Migration`
  carries the handler's mutable variables and performs the same steps in
  place, one method per phase. Each method's postcondition ties the new
  state, through `old(...)`, to the step functions. Module `MergeLaws` proves
  what those step functions do, so the lemmas there are the meaning of the
  methods.
- the comparison side of the page (`frontend/app.js`). Module `Reconcile`
  covers the row difference test with its excluded columns and its "falsy is
  empty" comparison. It also pairs the rows of a table by key, classifies and
  filters the pairs by the selected mode, and searches tables by name. Class
  `DiffView` holds the page's `sourceData`, `targetData` and
  `tableFilteredRows`. Module `ReconcileLaws` proves the classification, the
  key order and the filter semantics.
- pagination and the column set of a rendered table (module `RowsView`).
- the request the page builds when the operator commits (module `Payload`).
  This includes the row total announced for confirmation, and a lemma that
  links that total to the server's `rowsCopied`.
- worked examples on concrete data (module `Scenarios`).

JSON values are the datatype `Value`: `Undefined`, `Null`, `Str`, `Num`
(a real number) and `Bool`. A row is a `map<string, Value>` and a dataset is a
`map<string, seq<Row>>`. JavaScript falsiness is the predicate `Falsy`.

Behaviour of the code that a reader might not expect, kept as written:

- Inserting a row that has no target row always appends. Applying it twice
  leaves two copies (`MergeLaws.InsertTwiceDuplicates`); it is not idempotent.
- A delete whose table is absent from the target first creates the table
  empty, then drops it again and counts one `tablesDeleted`
  (`MergeLaws.DeleteOnAbsentTable`).
- A row selection with neither row leaves the table in place, creating it
  empty if it was absent (`MergeLaws.RowBothNull`).
- A cell selection may list `key` among its columns and then overwrites it.
- The row comparison treats every falsy value as equal to `''`: `null`,
  `0`, `false`, absence and `''` (`ReconcileLaws.FalsyValuesEqual`).
- The page pairs rows by the *last* row with a key
  (`ReconcileLaws.KeyMapLastWins`). The server and the request builder use
  the *first* row with a key (`JsonValues.FindIndex`).

## Model

| member | source | states |
|---|---|---|
| `JsonValues.RowsOf` | frontend/app.js:110 | definition of `dataset[table] \|\| []`; used by every phase and view below |
| `JsonValues.Get` | frontend/app.js:17 | definition of `row[col]`, absent reading as `undefined` |
| `JsonValues.Falsy` | frontend/app.js:17 | definition of JavaScript falsiness on cell values |
| `JsonValues.OrEmpty` | frontend/app.js:17 | definition of `v \|\| ''`; its property is stated by `ReconcileLaws.FalsyValuesEqual` |
| `JsonValues.KeyOf` | backend/server.js:77 | definition of `row.key` (also read at backend/server.js:112 and frontend/app.js:113); used by `JsonValues.FindIndex` and `Reconcile.KeyMap` |
| `JsonValues.FindIndex` | backend/server.js:77 | the result is -1 or a position whose row has the key; no earlier row has it, and no row at all has it when the result is -1 |
| `JsonValues.Find` | backend/server.js:112 | a row is found exactly when some row has the key, and it is the row at the first such position |
| `Merge.Tables` | backend/server.js:47-49 | definition of the normalised document: a non-object reads as `{}`; used by `Merge.Migrate` |
| `Merge.CopyOrDropTable` | backend/server.js:59-70 | definition of one table selection; properties in `MergeLaws.TableCopy` and `MergeLaws.TableDelete` |
| `Merge.TablePhase` | backend/server.js:58-71 | definition of the table loop as a fold; properties in `MergeLaws.TablePhaseTables` and `MergeLaws.TablePhaseCounts` |
| `Merge.ApplyRow` | backend/server.js:74-103 | definition of one row selection; properties in `MergeLaws.RowUpdate`, `RowInsert`, `RowDelete`, `RowBothNull` and `ApplyRowCounts` |
| `Merge.RowPhase` | backend/server.js:73-104 | definition of the row loop as a fold; properties in `MergeLaws.RowPhaseCopies` and `MergeLaws.RowPhaseLocal` |
| `Merge.Overlay` | backend/server.js:118-122 | definition of the column overwrite; properties in `MergeLaws.OverlayEffect` |
| `Merge.OverlayNone` | backend/server.js:118-122 | overwriting no column leaves the row unchanged |
| `Merge.OverlayStep` | backend/server.js:118-122 | one more listed column is written exactly when the source row has it |
| `Merge.ApplyCell` | backend/server.js:107-122 | definition of one cell selection; properties in `MergeLaws.CellSkipped` and `MergeLaws.CellOverwrite` |
| `Merge.CellPhase` | backend/server.js:106-123 | definition of the cell loop as a fold; properties in `MergeLaws.CellPhaseLocal` |
| `Merge.MergeResult` | backend/server.js:56-123 | definition of the whole merge: the three phases in order from zero counters; properties in `MergeLaws.SelectedTableIgnoresPriorContent` |
| `Merge.Migration.constructor` | backend/server.js:56 | the handler starts from the loaded target with all four counters at zero |
| `Merge.Migration.ReplaceTables` | backend/server.js:58-71 | after the loop, target and counters are the table phase applied to the state before it |
| `Merge.Migration.ApplyRows` | backend/server.js:73-104 | after the loop, target and counters are the row phase applied to the state before it |
| `Merge.Migration.ApplyRowSelection` | backend/server.js:74-103 | one row selection changes target and counters exactly as the row step defines |
| `Merge.Migration.DeleteRow` | backend/server.js:91-102 | the row at the given index (the first match, found by `Merge.Migration.ApplyRowSelection`) is spliced out and counted; an emptied table is dropped and counted; other tables and counters are unchanged |
| `Merge.Migration.ApplyCells` | backend/server.js:106-123 | after the loop, target and counters are the cell phase applied to the state before it |
| `Merge.Migration.ApplyCellSelection` | backend/server.js:107-122 | one cell selection changes the target exactly as the cell step defines |
| `Merge.OverwriteColumns` | backend/server.js:118-122 | the column loop produces the row overlaid with the listed columns the source row has |
| `Merge.Migrate` | backend/server.js:47-123 | the backup is the normalised target; the new target and the counters are the three phases applied in order from zero counters |
| `MergeLaws.TableCopy` | backend/server.js:60-63 | a table the source has replaces the target's copy, counts one table copied and its rows as copied, and touches nothing else |
| `MergeLaws.TableDelete` | backend/server.js:64-70 | a table the source lacks is removed; a deletion is counted only if the target had it; nothing is copied |
| `MergeLaws.TablePhaseTables` | backend/server.js:58-71 | after the table phase each selected table equals the source's or is absent when the source lacks it; unselected tables are unchanged |
| `MergeLaws.SourceRowCount` | frontend/app.js:348-350 | definition of the source rows of the selected tables, summed in order (also the increment at backend/server.js:63); properties in `MergeLaws.TablePhaseCounts` and `Payload.AnnouncedTotal` |
| `MergeLaws.TablePhaseCounts` | backend/server.js:56-71 | the phase counts one table and its source rows per selected entry the source has, and one deletion per distinct dropped table that the target had |
| `MergeLaws.RowUpdate` | backend/server.js:79-86 | with both rows, the first row with the key is replaced (or the source row appended if there is none) and one row is counted copied |
| `MergeLaws.RowInsert` | backend/server.js:87-90 | with only a source row, the row is appended even if the key is already present, and one row is counted copied |
| `MergeLaws.InsertTwiceDuplicates` | backend/server.js:87-90 | the same insert applied twice leaves the row twice at the end of the table and counts two copies |
| `MergeLaws.UpdateIdempotent` | backend/server.js:79-86 | an update whose source row carries the key gives the same target when applied a second time |
| `MergeLaws.RowDelete` | backend/server.js:91-102 | with only a target row, the first row with the key is removed and counted if present; an emptied table is removed and counted |
| `MergeLaws.DeleteOnAbsentTable` | backend/server.js:75-102 | a delete on a table the target lacks leaves the target as it was but counts one table deleted |
| `MergeLaws.RowBothNull` | backend/server.js:75-103 | with neither row no counter moves and the table exists afterwards, empty if it was absent |
| `MergeLaws.ApplyRowCounts` | backend/server.js:79-103 | one row selection counts a copied row exactly when it has a source row, and never a copied table |
| `MergeLaws.RowPhaseCopies` | backend/server.js:74-104 | the row phase counts exactly one copied row per selection that has a source row and copies no table |
| `MergeLaws.OverlayEffect` | backend/server.js:118-122 | listed columns the source row has take its values; every other column keeps its value or stays absent |
| `MergeLaws.CellSkipped` | backend/server.js:108 | a cell selection without a source row or with no columns changes nothing |
| `MergeLaws.CellOverwrite` | backend/server.js:110-122 | otherwise the first row with the key (or a new row `{key}` appended) is overlaid; counters and other tables are unchanged |
| `MergeLaws.ApplyRowOtherTable` | backend/server.js:74-103 | a row selection leaves every other table as it was |
| `MergeLaws.ApplyRowSameRows` | backend/server.js:74-103 | a row selection's effect on its own table depends only on that table's prior rows |
| `MergeLaws.ApplyRowLocal` | backend/server.js:74-103 | a row selection's effect on a table depends only on that table's prior content |
| `MergeLaws.RowPhaseLocal` | backend/server.js:73-104 | the row phase's effect on a table depends only on that table's prior content |
| `MergeLaws.ApplyCellLocal` | backend/server.js:107-122 | a cell selection's effect on a table depends only on that table's prior content |
| `MergeLaws.CellPhaseLocal` | backend/server.js:106-123 | the cell phase's effect on a table depends only on that table's prior content |
| `MergeLaws.SelectedTableIgnoresPriorContent` | backend/server.js:59-123 | for a table selected whole, the merged result does not depend on what the target held before |
| `Reconcile.ColumnDiffers` | frontend/app.js:16-17 | definition of one column making two rows differ |
| `Reconcile.Differs` | frontend/app.js:14-22 | definition of the row difference test; properties in `Reconcile.HasDifferences` and the `ReconcileLaws` lemmas on excluded and falsy columns |
| `Reconcile.Lookup` | frontend/app.js:121-122 | definition of `map.get(key)`, a missing key giving no row |
| `Reconcile.MissingInTarget` | frontend/app.js:124 | definition of `isMissingInTarget`; properties in `ReconcileLaws.ExactlyOneClass` and `ReconcileLaws.ModeMeaning` |
| `Reconcile.MissingInSource` | frontend/app.js:125 | definition of `isMissingInSource`; properties in `ReconcileLaws.ExactlyOneClass` and `ReconcileLaws.ModeMeaning` |
| `Reconcile.IsDiff` | frontend/app.js:126 | definition of `isDiff`; properties in `ReconcileLaws.ExactlyOneClass` and `ReconcileLaws.ModeMeaning` |
| `Reconcile.IsSame` | frontend/app.js:127 | definition of `isSame`; properties in `ReconcileLaws.ExactlyOneClass` and `ReconcileLaws.ModeMeaning` |
| `Reconcile.Keeps` | frontend/app.js:129-133 | definition of the filter select's verdict; properties in `ReconcileLaws.ModeMeaning` |
| `Reconcile.KeysOf` | frontend/app.js:113-114 | definition of the keys of a table's rows, in order |
| `Reconcile.Distinct` | frontend/app.js:116 | definition of `Set` iteration order; properties in `ReconcileLaws.DistinctFirstSeen` |
| `Reconcile.KeyMap` | frontend/app.js:113-114 | definition of the key-to-row `Map`; properties in `ReconcileLaws.KeyMapLastWins` |
| `Reconcile.UnionKeys` | frontend/app.js:116 | definition of the table's key set; properties in `ReconcileLaws.UnionKeysOrder` |
| `Reconcile.EntriesFor` | frontend/app.js:120-122 | definition of the pairs of a key sequence |
| `Reconcile.FilterEntries` | frontend/app.js:118-134 | definition of the kept pairs; properties in `ReconcileLaws.FilterEntriesMembership` |
| `Reconcile.TableRows` | frontend/app.js:110-134 | definition of one table's shown pairs; computed by `Reconcile.FilterTable` |
| `Reconcile.KeepsPair` | frontend/app.js:121-133 | the per-key classification and filter chain answers exactly the filter's verdict on the pair |
| `Reconcile.Lower` | frontend/app.js:99 | definition of `toLowerCase` on ASCII letters; keeps the length |
| `Reconcile.Contains` | frontend/app.js:108 | definition of `includes` on strings |
| `Reconcile.NameMatches` | frontend/app.js:108 | definition of the search test on a table name |
| `Reconcile.TableView` | frontend/app.js:110-111 | definition of a table's pairs from the two datasets |
| `Reconcile.Shown` | frontend/app.js:108-136 | definition of a table being shown: its name matches the search and its filtered rows are non-empty; properties in `ReconcileLaws.SearchFilter` |
| `Reconcile.VisibleTables` | frontend/app.js:105-139 | definition of the final `tableFilteredRows`; properties in `ReconcileLaws.SearchFilter` |
| `Reconcile.HasDifferences` | frontend/app.js:14-22 | the early-exit loop answers true exactly when some non-excluded column of the source row differs from the target row once falsy values read as `''` |
| `Reconcile.IndexByKey` | frontend/app.js:113-116 | building the key map yields the keys in first-seen order and the map whose entries come from the rows |
| `Reconcile.FilterTable` | frontend/app.js:110-134 | the pair-and-filter loop yields the pairs of the union of keys, in order, that the selected mode keeps |
| `Reconcile.DiffView.constructor` | frontend/app.js:2-7 | the page starts with both datasets and an empty `tableFilteredRows` |
| `Reconcile.DiffView.FilterAndRenderTables` | frontend/app.js:97-140 | `tableFilteredRows` becomes exactly the tables that pass the lowercased search and keep at least one pair, each with its pairs; mode defaults to `all` |
| `ReconcileLaws.FalsyValuesEqual` | frontend/app.js:17 | two cells compare equal exactly when both are falsy or they are identical |
| `ReconcileLaws.ExcludedColumnsIgnored` | frontend/app.js:6-16 | changing only `lastUpdated`, `timestamp` or `id` never changes whether two rows differ |
| `ReconcileLaws.OnlyExcludedColumnsDiffer` | frontend/app.js:14-22 | rows that agree on every other column do not differ |
| `ReconcileLaws.TargetOnlyColumnIgnored` | frontend/app.js:15-17 | a column only the target row has never makes the rows differ |
| `ReconcileLaws.EmptyStringMatchesAbsent` | frontend/app.js:17 | a source cell `''` compares like a missing source cell |
| `ReconcileLaws.ExactlyOneClass` | frontend/app.js:124-127 | every pair with a row on some side is in exactly one of missing-in-target, missing-in-source, diff and same |
| `ReconcileLaws.ModeMeaning` | frontend/app.js:129-133 | `all` keeps every pair; `diff`, `missing`, `diff-missing` and `same` keep exactly their classes; any other mode keeps nothing |
| `ReconcileLaws.FilterEntriesMembership` | frontend/app.js:118-134 | a pair is kept exactly when it is a pair of the table and the mode keeps it |
| `ReconcileLaws.AllKeepsEverything` | frontend/app.js:129 | mode `all` keeps every pair, in order |
| `ReconcileLaws.UnknownModeKeepsNothing` | frontend/app.js:129-133 | an unknown mode keeps no pair |
| `ReconcileLaws.DistinctFirstSeen` | frontend/app.js:116 | de-duplication keeps exactly the elements of the input, once each, in order of first occurrence |
| `ReconcileLaws.DistinctOfDistinct` | frontend/app.js:116 | de-duplicating a duplicate-free sequence returns it unchanged |
| `ReconcileLaws.DistinctAppend` | frontend/app.js:116 | de-duplicating two duplicate-free sequences keeps the first and then the new elements of the second |
| `ReconcileLaws.UnionKeysOrder` | frontend/app.js:113-116 | the table's keys are the source keys in first-seen order, then the target keys the source lacks; no key repeats; every key of either side occurs |
| `ReconcileLaws.KeyMapLastWins` | frontend/app.js:113-114 | the key map holds every key of the rows and maps it to the last row with that key |
| `ReconcileLaws.EveryPairClassified` | frontend/app.js:116-122 | every pair of a table has a row on at least one side |
| `ReconcileLaws.AbsentSourceTable` | frontend/app.js:110-125 | a table the source lacks shows only pairs missing in the source |
| `ReconcileLaws.SearchFilter` | frontend/app.js:105-139 | a table is shown exactly when one side has it, its name matches the search and its view is not empty; an empty search matches every name |
| `RowsView.Slice` | frontend/app.js:198 | definition of `Array.prototype.slice` |
| `RowsView.PageRows` | frontend/app.js:196-198 | definition of one page's rows; properties in `RowsView.PageContents` |
| `RowsView.TotalPages` | frontend/app.js:279 | definition of `Math.ceil(n / 20)`; properties in `RowsView.TotalPagesIsCeiling` |
| `RowsView.DisplayedRow` | frontend/app.js:202 | definition of `sourceRow \|\| targetRow` |
| `RowsView.SlicePosition` | frontend/app.js:198 | a `slice` bound is clamped into the sequence and kept when already inside |
| `RowsView.PageContents` | frontend/app.js:196-198 | page `p` holds the rows from `(p-1)*20` up to `p*20`, clamped to the length, at most 20 rows |
| `RowsView.TotalPagesIsCeiling` | frontend/app.js:279 | the page count is the least number of 20-row pages holding all rows, and zero only for no rows |
| `RowsView.PageEmptiness` | frontend/app.js:279-283 | pages 1 up to the page count are non-empty and every later page is empty |
| `RowsView.FirstPagesArePrefix` | frontend/app.js:196-198 | pages 1 to `k` read in order are the first `20k` rows |
| `RowsView.PagesPartitionRows` | frontend/app.js:279-283 | the numbered pages together give back every row exactly once, in order |
| `RowsView.ColumnUniverse` | frontend/app.js:200-206 | the columns are exactly the non-`key` columns of the displayed row of some pair |
| `Payload.FindInTable` | frontend/app.js:336-337 | a row is found exactly when the table exists and some row carries the key as a string, and it is the first such row |
| `Payload.SelectionFor` | frontend/app.js:334-344 | definition of the selection built for one ticked row |
| `Payload.RowSelections` | frontend/app.js:333-345 | definition of the mapped selections: exactly one per ticked row; properties in `Payload.AnnouncedTotal` |
| `Payload.BuildRequest` | frontend/app.js:327-351 | no request exactly when nothing is ticked; otherwise the tables and row selections are sent and the total is the ticked rows plus the source lengths of the ticked tables |
| `Payload.AnnouncedTotal` | frontend/app.js:347-351 | against the same source, the announced total equals the server's `rowsCopied` plus the ticked rows without a source row |
| `Scenarios.UsersComparison` | frontend/app.js:105-134 | a concrete table: one differing pair and one pair missing in the source, in key order |
| `Scenarios.UsersMerge` | backend/server.js:79-86 | a concrete update replaces the target row in place and counts one copied row |
| `Scenarios.DeleteEmptiesTable` | backend/server.js:91-102 | deleting the only row of a table drops the table and counts one row and one table deleted |
| `Scenarios.PartialCellOverwrite` | backend/server.js:107-122 | overwriting one column takes the source value there and keeps the target's other columns |

## Left out

- HTTP routing, request parsing, server start-up and the response
  (backend/server.js:1-35, 125-141) are not modelled. The merge is a method
  from the loaded documents and the selections to the backup, the new target
  and the counters.
- Loading and storing documents (`getJson`, `uploadJson`) and the
  configuration are not part of this model. Backend/jsonService.js and
  backend/config.js are not part of this model. A loaded document is a
  parameter of type `Document`.
- Writing the backup file and its timestamped name (backend/server.js:52-54)
  are I/O with a clock. The model returns the backup content only.
- The DOM: rendering HTML, accordions, checkboxes, the cell modal, alerts,
  confirmation dialogs and loading indicators. `capitalizeFirstLetter` only
  formats headers. Ticked checkboxes are inputs (`CheckedRow`).
- The page's `excludeTables` constant (frontend/app.js:5) is never read by
  the code, so it has no counterpart.
- `Reconcile.Lower` lowercases ASCII letters only. Full Unicode case mapping
  of `toLowerCase` is not modelled.
- Numbers are real numbers. Floating-point rounding, `NaN` (never equal to
  itself under `===`) and `-0` are not modelled.
- Cells hold scalars only. Nested objects and arrays, compared by reference
  under `===`, are not modelled.
- Object key order is not modelled: rows and datasets are maps. The order of
  the table loop at frontend/app.js:105-107 and of the column headers at
  frontend/app.js:207 is not modelled. `tableFilteredRows` and the column
  universe are therefore a map and a set. `for ... in` order does not change
  `hasDifferences`' answer.
- Rows are values in the model, not objects. Nothing is lost by this,
  because the handler never shares a row object between two positions:
  - every row it pushes or assigns is the `sourceRow` of its own selection,
    parsed separately from the request body (backend/server.js:82, 84, 89),
    or a fresh `{ key }` (backend/server.js:114-115);
  - table copies are deep copies (backend/server.js:61).
  The in-place write at backend/server.js:118-122 therefore changes exactly
  one position, as `Merge.ApplyCell` does.
- Malformed inputs are not modelled: a table value that is not an array, a
  row that is not an object, or a `key` column that is itself an object.
  Two more cases also fall outside the model:
  - A target document that is an array passes the object test at
    backend/server.js:49 and is kept. Tables written into it become array
    properties, which `JSON.stringify` drops on upload. `Merge.Document`
    has no array case, and `Merge.Tables` reads every non-object as `{}`.
  - A `null` selection list, or a `null` entry in `selectedRows` or
    `selectedCells`, makes the loop at backend/server.js:59, 74 or 107
    throw. The defaults at backend/server.js:42-44 replace only a missing
    list. The handler then answers with an error and uploads nothing.
    The model's selection lists hold only well-formed selections.
- Property names inherited from `Object.prototype` are not modelled.
  `JsonValues.Get` and `JsonValues.RowsOf` read only a row's or dataset's own
  properties. In JavaScript, `obj[name]` and `name in obj` also see
  `constructor`, `toString`, `valueOf`, `hasOwnProperty` and `__proto__`,
  which are legal JSON names. So the model differs where a row, table or
  column uses such a name:
  - A source row `{key, constructor: ""}` against a target row without
    `constructor` is a differing pair at frontend/app.js:17, because the
    target reads the `Object` function. The model finds no difference.
  - A cell selection listing `toString` that the source row lacks writes a
    function into the row at backend/server.js:119-120, and the column then
    vanishes on upload. `Merge.Overlay` keeps the target's value.
  - Selecting the table `toString` at backend/server.js:60-61 makes
    `JSON.parse(undefined)` throw, and the handler answers with an error.
    The model deletes or skips the table instead.
- `Merge.Tables` reads a loaded source document that is truthy but not an
  object like `{}`. The handler itself indexes into such a document: an
  array source yields tables named "0", "1", and so on.
