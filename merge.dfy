/**
  The merge body of the `/migrate` request handler: it applies an operator's
  selection to the target dataset in three fixed phases (whole tables, then
  rows, then individual cells) and counts what it did.

  The pure functions below define what each step does to the dataset and the
  counters; the `Migration` object performs the same steps by updating its
  fields in place, the way the handler updates `targetJson` and its four
  counter variables.
 */
module Merge {
  import opened JsonValues

  /** What loading a dataset document produced: a JSON object, or anything else. */
  datatype Document = Object(tables: Dataset) | NotObject

  /** A loaded document as a dataset: anything that is not an object reads as `{}`. */
  function Tables(doc: Document): Dataset
  {
    if doc.Object? then doc.tables else map[]
  }

  /** One entry of `selectedRows`: `sourceRow`/`targetRow` are None when null or absent. */
  datatype RowSelection = RowSelection(table: string, key: Value, sourceRow: Option<Row>, targetRow: Option<Row>)

  /** One entry of `selectedCells`: a missing `columns` list reads as the empty list. */
  datatype CellSelection = CellSelection(table: string, key: Value, columns: seq<string>, sourceRow: Option<Row>)

  datatype Summary = Summary(tablesCopied: nat, rowsCopied: nat, tablesDeleted: nat, rowsDeleted: nat)

  const NoChanges := Summary(0, 0, 0, 0)

  /** The target dataset together with the counters, between two steps. */
  datatype State = State(target: Dataset, summary: Summary)

  /** `Datasets agree on one table`: both lack it, or both hold the same rows for it. */
  predicate AgreeOn(a: Dataset, b: Dataset, table: string)
  {
    (table in a <==> table in b) && (table in a ==> a[table] == b[table])
  }

  // ---------------------------------------------------------------------------
  // Phase 1: whole tables

  /** One selected table: copy it from the source, or drop it from the target. */
  function CopyOrDropTable(st: State, source: Dataset, table: string): State
  {
    if table in source then
      State(st.target[table := source[table]],
            st.summary.(tablesCopied := st.summary.tablesCopied + 1,
                        rowsCopied := st.summary.rowsCopied + |source[table]|))
    else if table in st.target then
      State(st.target - {table}, st.summary.(tablesDeleted := st.summary.tablesDeleted + 1))
    else
      st
  }

  function TablePhase(st: State, source: Dataset, tables: seq<string>): State
    decreases |tables|
  {
    if tables == [] then st
    else CopyOrDropTable(TablePhase(st, source, tables[..|tables| - 1]), source, tables[|tables| - 1])
  }

  // ---------------------------------------------------------------------------
  // Phase 2: whole rows

  /**
    One row selection. The table is created empty first if the target lacks it;
    the row is then updated or appended (source row and target row given),
    appended (source row only), or removed together with a table it leaves
    empty (target row only); with neither row nothing else happens.
   */
  function ApplyRow(st: State, sel: RowSelection): State
  {
    var rows := RowsOf(st.target, sel.table);
    var index := FindIndex(rows, sel.key);
    if sel.sourceRow.Some? && sel.targetRow.Some? then
      var updated := if index != -1 then rows[index := sel.sourceRow.value] else rows + [sel.sourceRow.value];
      State(st.target[sel.table := updated], st.summary.(rowsCopied := st.summary.rowsCopied + 1))
    else if sel.sourceRow.Some? then
      State(st.target[sel.table := rows + [sel.sourceRow.value]], st.summary.(rowsCopied := st.summary.rowsCopied + 1))
    else if sel.targetRow.Some? then
      var remaining := if index != -1 then rows[..index] + rows[index + 1..] else rows;
      var deleted := if index != -1 then 1 else 0;
      if |remaining| == 0 then
        State(st.target - {sel.table},
              st.summary.(rowsDeleted := st.summary.rowsDeleted + deleted,
                          tablesDeleted := st.summary.tablesDeleted + 1))
      else
        State(st.target[sel.table := remaining], st.summary.(rowsDeleted := st.summary.rowsDeleted + deleted))
    else
      State(st.target[sel.table := rows], st.summary)
  }

  function RowPhase(st: State, sels: seq<RowSelection>): State
    decreases |sels|
  {
    if sels == [] then st
    else ApplyRow(RowPhase(st, sels[..|sels| - 1]), sels[|sels| - 1])
  }

  // ---------------------------------------------------------------------------
  // Phase 3: individual cells

  /**
    `row` after copying from `source` every listed column that `source` has;
    listed columns that `source` lacks, and unlisted columns, keep their values.
   */
  function Overlay(row: Row, columns: seq<string>, source: Row): Row
  {
    map c | c in row.Keys + (set c | c in columns && c in source) ::
      if c in columns && c in source then source[c] else row[c]
  }

  /** With no column listed the row is unchanged. */
  lemma OverlayNone(row: Row, source: Row)
    ensures Overlay(row, [], source) == row
  {
    assert Overlay(row, [], source).Keys == row.Keys;
  }

  /** Listing one more column writes that column when the source row has it. */
  lemma OverlayStep(row: Row, columns: seq<string>, col: string, source: Row)
    ensures Overlay(row, columns + [col], source)
         == if col in source then Overlay(row, columns, source)[col := source[col]] else Overlay(row, columns, source)
  {
    var after, before := Overlay(row, columns + [col], source), Overlay(row, columns, source);
    var expected := if col in source then before[col := source[col]] else before;
    assert after.Keys == expected.Keys;
    forall c | c in after
      ensures after[c] == expected[c]
    {
      assert c in columns + [col] <==> c in columns || c == col;
    }
  }

  /**
    One cell selection: skipped without a source row or without columns;
    otherwise the first row with the key (or a new row `{key}`, appended)
    receives the listed columns of the source row.
   */
  function ApplyCell(st: State, sel: CellSelection): State
  {
    if sel.sourceRow.None? || |sel.columns| == 0 then st
    else
      var rows := RowsOf(st.target, sel.table);
      var index := FindIndex(rows, sel.key);
      var updated :=
        if index != -1 then rows[index := Overlay(rows[index], sel.columns, sel.sourceRow.value)]
        else rows + [Overlay(map["key" := sel.key], sel.columns, sel.sourceRow.value)];
      State(st.target[sel.table := updated], st.summary)
  }

  function CellPhase(st: State, sels: seq<CellSelection>): State
    decreases |sels|
  {
    if sels == [] then st
    else ApplyCell(CellPhase(st, sels[..|sels| - 1]), sels[|sels| - 1])
  }

  /** The whole merge: tables, then rows, then cells, counters starting at zero. */
  function MergeResult(target: Dataset, source: Dataset, tables: seq<string>,
                       rows: seq<RowSelection>, cells: seq<CellSelection>): State
  {
    CellPhase(RowPhase(TablePhase(State(target, NoChanges), source, tables), rows), cells)
  }

  // ---------------------------------------------------------------------------
  // The handler's mutable state

  /** `targetJson` and the four counters, updated in place phase by phase. */
  class Migration {
    var target: Dataset
    var tablesCopied: nat
    var rowsCopied: nat
    var tablesDeleted: nat
    var rowsDeleted: nat

    function Current(): State
      reads this
    {
      State(target, Summary(tablesCopied, rowsCopied, tablesDeleted, rowsDeleted))
    }

    constructor (target: Dataset)
      ensures Current() == State(target, NoChanges)
    {
      this.target := target;
      tablesCopied, rowsCopied, tablesDeleted, rowsDeleted := 0, 0, 0, 0;
    }

    /** Full table replacements. */
    method ReplaceTables(source: Dataset, selectedTables: seq<string>)
      modifies this
      ensures Current() == TablePhase(old(Current()), source, selectedTables)
    {
      for i := 0 to |selectedTables|
        invariant Current() == TablePhase(old(Current()), source, selectedTables[..i])
      {
        var table := selectedTables[i];
        if table in source {
          target := target[table := source[table]];
          tablesCopied := tablesCopied + 1;
          rowsCopied := rowsCopied + |source[table]|;
        } else if table in target {
          target := target - {table};
          tablesDeleted := tablesDeleted + 1;
        }
        assert selectedTables[..i + 1][..i] == selectedTables[..i];
      }
      assert selectedTables[..|selectedTables|] == selectedTables;
    }

    /** Row-level insert, update and delete. */
    method ApplyRows(selectedRows: seq<RowSelection>)
      modifies this
      ensures Current() == RowPhase(old(Current()), selectedRows)
    {
      for i := 0 to |selectedRows|
        invariant Current() == RowPhase(old(Current()), selectedRows[..i])
      {
        ApplyRowSelection(selectedRows[i]);
        assert selectedRows[..i + 1][..i] == selectedRows[..i];
      }
      assert selectedRows[..|selectedRows|] == selectedRows;
    }

    /** The body of the row loop, for one selection. */
    method ApplyRowSelection(sel: RowSelection)
      modifies this
      ensures Current() == ApplyRow(old(Current()), sel)
    {
      ghost var before := Current();
      var table := sel.table;
      if table !in target {
        target := target[table := []];
      }
      assert target == before.target[table := RowsOf(before.target, table)];
      var index := FindIndex(target[table], sel.key);
      assert index == FindIndex(RowsOf(before.target, table), sel.key);
      if sel.sourceRow.Some? && sel.targetRow.Some? {
        if index != -1 {
          target := target[table := target[table][index := sel.sourceRow.value]];
        } else {
          target := target[table := target[table] + [sel.sourceRow.value]];
        }
        rowsCopied := rowsCopied + 1;
      } else if sel.sourceRow.Some? && sel.targetRow.None? {
        target := target[table := target[table] + [sel.sourceRow.value]];
        rowsCopied := rowsCopied + 1;
      } else if sel.sourceRow.None? && sel.targetRow.Some? {
        DeleteRow(table, index);
      }
    }

    /** Target-row-only selection: remove the found row, then the table if it is empty. */
    method DeleteRow(table: string, index: int)
      requires table in target && -1 <= index < |target[table]|
      modifies this
      ensures var rows := old(target[table]);
              var remaining := if index != -1 then rows[..index] + rows[index + 1..] else rows;
              var deleted := if index != -1 then 1 else 0;
              && tablesCopied == old(tablesCopied) && rowsCopied == old(rowsCopied)
              && rowsDeleted == old(rowsDeleted) + deleted
              && (|remaining| == 0 ==> target == old(target) - {table} && tablesDeleted == old(tablesDeleted) + 1)
              && (|remaining| != 0 ==> target == old(target)[table := remaining] && tablesDeleted == old(tablesDeleted))
    {
      if index != -1 {
        target := target[table := target[table][..index] + target[table][index + 1..]];
        rowsDeleted := rowsDeleted + 1;
      }
      if |target[table]| == 0 {
        target := target - {table};
        tablesDeleted := tablesDeleted + 1;
        assert target == old(target) - {table};
      }
    }

    /** Column-level updates. */
    method ApplyCells(selectedCells: seq<CellSelection>)
      modifies this
      ensures Current() == CellPhase(old(Current()), selectedCells)
    {
      for i := 0 to |selectedCells|
        invariant Current() == CellPhase(old(Current()), selectedCells[..i])
      {
        ApplyCellSelection(selectedCells[i]);
        assert selectedCells[..i + 1][..i] == selectedCells[..i];
      }
      assert selectedCells[..|selectedCells|] == selectedCells;
    }

    /** The body of the cell loop, for one selection. */
    method ApplyCellSelection(sel: CellSelection)
      modifies this
      ensures Current() == ApplyCell(old(Current()), sel)
    {
      if sel.sourceRow.None? || |sel.columns| == 0 {
        return;
      }
      var table := sel.table;
      ghost var before := Current();
      ghost var rows := RowsOf(target, table);
      ghost var found := FindIndex(rows, sel.key);
      if table !in target {
        target := target[table := []];
      }
      assert target == before.target[table := rows];
      var index := FindIndex(target[table], sel.key);
      if index == -1 {
        target := target[table := target[table] + [map["key" := sel.key]]];
        index := |target[table]| - 1;
      }
      var row := OverwriteColumns(target[table][index], sel.columns, sel.sourceRow.value);
      target := target[table := target[table][index := row]];
      ghost var updated := if found == -1 then rows + [Overlay(map["key" := sel.key], sel.columns, sel.sourceRow.value)]
                           else rows[found := Overlay(rows[found], sel.columns, sel.sourceRow.value)];
      assert target[table] == updated;
      assert target == before.target[table := updated];
      assert ApplyCell(before, sel) == State(before.target[table := updated], before.summary);
    }
  }

  /** `for (const col of columns) if (col in sourceRow) row[col] = sourceRow[col]`. */
  method OverwriteColumns(row: Row, columns: seq<string>, source: Row) returns (r: Row)
    ensures r == Overlay(row, columns, source)
  {
    r := row;
    OverlayNone(row, source);
    for i := 0 to |columns|
      invariant r == Overlay(row, columns[..i], source)
    {
      var col := columns[i];
      if col in source {
        r := r[col := source[col]];
      }
      assert columns[..i + 1] == columns[..i] + [col];
      OverlayStep(row, columns[..i], col, source);
    }
    assert columns[..|columns|] == columns;
  }

  /**
    The merge body of the handler. `backup` is the (normalised) target content
    written to the backup file before any change; `newTarget` is what is then
    uploaded and `summary` what the response reports.
   */
  method Migrate(sourceDoc: Document, targetDoc: Document, selectedTables: seq<string>,
                 selectedRows: seq<RowSelection>, selectedCells: seq<CellSelection>)
    returns (backup: Dataset, newTarget: Dataset, summary: Summary)
    ensures backup == Tables(targetDoc)
    ensures State(newTarget, summary) == MergeResult(Tables(targetDoc), Tables(sourceDoc), selectedTables, selectedRows, selectedCells)
  {
    var sourceJson := Tables(sourceDoc);
    var targetJson := Tables(targetDoc);
    backup := targetJson;
    var m := new Migration(targetJson);
    m.ReplaceTables(sourceJson, selectedTables);
    m.ApplyRows(selectedRows);
    m.ApplyCells(selectedCells);
    newTarget := m.target;
    summary := Summary(m.tablesCopied, m.rowsCopied, m.tablesDeleted, m.rowsDeleted);
  }
}
