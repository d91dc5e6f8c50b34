/**
  The request the browser page sends when the operator commits: the ticked
  tables, one row selection per ticked row (with the rows of both datasets
  that carry its key), and the row total shown in the confirmation dialog.
 */
module Payload {
  import opened JsonValues
  import opened Merge
  import opened MergeLaws

  /** A ticked row checkbox: its `data-table` and `data-key` attributes. */
  datatype CheckedRow = CheckedRow(table: string, key: string)

  /** What is sent for confirmation: the ticked tables, the row selections, and the announced row total. */
  datatype Request = Request(selectedTables: seq<string>, selectedRows: seq<RowSelection>, totalRows: nat)

  /** `dataset[table]?.find(r => r.key === key) || null`: the first row of the table carrying the key. */
  function FindInTable(d: Dataset, table: string, key: string): (r: Option<Row>)
    ensures r.Some? <==> table in d && exists j :: 0 <= j < |d[table]| && KeyOf(d[table][j]) == Str(key)
    ensures r.Some? ==> KeyOf(r.value) == Str(key) && r.value == d[table][FindIndex(d[table], Str(key))]
  {
    if table in d then Find(d[table], Str(key)) else None
  }

  /** The selection built for one ticked row. */
  function SelectionFor(sourceData: Dataset, targetData: Dataset, cb: CheckedRow): RowSelection
  {
    RowSelection(cb.table, Str(cb.key), FindInTable(sourceData, cb.table, cb.key), FindInTable(targetData, cb.table, cb.key))
  }

  /** `selectedRowCheckboxes.map(...)`. */
  function RowSelections(sourceData: Dataset, targetData: Dataset, checked: seq<CheckedRow>): (sels: seq<RowSelection>)
    ensures |sels| == |checked|
  {
    seq(|checked|, i requires 0 <= i < |checked| => SelectionFor(sourceData, targetData, checked[i]))
  }

  /**
    Builds the request, or nothing when no table and no row is ticked (the
    page then only shows a warning). The total counts each ticked row once
    and each ticked table with its source length, a table the source lacks
    counting 0.
   */
  method BuildRequest(sourceData: Dataset, targetData: Dataset, selectedTables: seq<string>, checked: seq<CheckedRow>)
    returns (request: Option<Request>)
    ensures request.None? <==> selectedTables == [] && checked == []
    ensures request.Some? ==> request.value.selectedTables == selectedTables
    ensures request.Some? ==> request.value.selectedRows == RowSelections(sourceData, targetData, checked)
    ensures request.Some? ==> request.value.totalRows == |checked| + SourceRowCount(sourceData, selectedTables)
  {
    if |selectedTables| == 0 && |checked| == 0 {
      return None;
    }
    var selectedRows := RowSelections(sourceData, targetData, checked);
    var totalRows := |selectedRows|;
    for i := 0 to |selectedTables|
      invariant totalRows == |selectedRows| + SourceRowCount(sourceData, selectedTables[..i])
    {
      totalRows := totalRows + |RowsOf(sourceData, selectedTables[i])|;
      assert selectedTables[..i + 1][..i] == selectedTables[..i];
    }
    assert selectedTables[..|selectedTables|] == selectedTables;
    return Some(Request(selectedTables, selectedRows, totalRows));
  }

  /**
    When the server merges against the same source the page had, the
    announced total is the server's `rowsCopied` plus the ticked rows that
    have no source row (the deletion requests). The page sends no cell
    selections.
   */
  lemma AnnouncedTotal(sourceData: Dataset, targetData: Dataset, selectedTables: seq<string>,
                       checked: seq<CheckedRow>, serverTarget: Dataset)
    ensures var sels := RowSelections(sourceData, targetData, checked);
      var r := MergeResult(serverTarget, sourceData, selectedTables, sels, []);
      |checked| + SourceRowCount(sourceData, selectedTables) == r.summary.rowsCopied + (|sels| - WithSourceRow(sels))
  {
    var sels := RowSelections(sourceData, targetData, checked);
    var st := State(serverTarget, NoChanges);
    TablePhaseCounts(st, sourceData, selectedTables);
    RowPhaseCopies(TablePhase(st, sourceData, selectedTables), sels);
  }
}
