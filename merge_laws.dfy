/**
  What the three merge phases promise: the effect of each kind of selection on
  the target and on the counters, the combined effect of the table phase, and
  the fact that row and cell selections see a replaced table, never the
  content it had before.
 */
module MergeLaws {
  import opened JsonValues
  import opened Merge

  /** How many entries of `tables` name a table the source has (repeats counted). */
  function CountPresent(source: Dataset, tables: seq<string>): nat
    decreases |tables|
  {
    if tables == [] then 0
    else CountPresent(source, tables[..|tables| - 1]) + (if tables[|tables| - 1] in source then 1 else 0)
  }

  /** The summed source lengths of the named tables, a table the source lacks counting 0. */
  function SourceRowCount(source: Dataset, tables: seq<string>): nat
    decreases |tables|
  {
    if tables == [] then 0
    else SourceRowCount(source, tables[..|tables| - 1]) + |RowsOf(source, tables[|tables| - 1])|
  }

  /** The selected tables that the source lacks and the target has: the ones the table phase deletes. */
  function Dropped(target: Dataset, source: Dataset, tables: seq<string>): set<string>
  {
    set t | t in tables && t !in source && t in target
  }

  // ---------------------------------------------------------------------------
  // Phase 1

  /** Selecting a table the source has replaces the target's copy and counts its rows. */
  lemma TableCopy(st: State, source: Dataset, table: string)
    requires table in source
    ensures var r := CopyOrDropTable(st, source, table);
      && table in r.target && r.target[table] == source[table]
      && (forall t :: t != table ==> AgreeOn(r.target, st.target, t))
      && r.summary == st.summary.(tablesCopied := st.summary.tablesCopied + 1,
                                  rowsCopied := st.summary.rowsCopied + |source[table]|)
  {
  }

  /** Selecting a table the source lacks removes it, counting a deletion only if the target had it. */
  lemma TableDelete(st: State, source: Dataset, table: string)
    requires table !in source
    ensures var r := CopyOrDropTable(st, source, table);
      && r.target == st.target - {table}
      && r.summary == st.summary.(tablesDeleted := st.summary.tablesDeleted + (if table in st.target then 1 else 0))
      && (table !in st.target ==> r == st)
  {
  }

  /** After the table phase every selected table matches the source (present or absent), and every other table is as before. */
  lemma {:induction false} TablePhaseTables(st: State, source: Dataset, tables: seq<string>)
    ensures var r := TablePhase(st, source, tables).target;
      && (forall t :: t in tables ==> AgreeOn(r, source, t))
      && (forall t :: t !in tables ==> AgreeOn(r, st.target, t))
    decreases |tables|
  {
    if tables != [] {
      var prefix, last := tables[..|tables| - 1], tables[|tables| - 1];
      TablePhaseTables(st, source, prefix);
      assert tables == prefix + [last];
    }
  }

  /**
    The table phase's counters: one copy per selected entry the source has,
    its rows added to `rowsCopied`, and one deletion per distinct selected
    table the source lacks and the target had.
   */
  lemma {:induction false} TablePhaseCounts(st: State, source: Dataset, tables: seq<string>)
    ensures var s := TablePhase(st, source, tables).summary;
      && s.tablesCopied == st.summary.tablesCopied + CountPresent(source, tables)
      && s.rowsCopied == st.summary.rowsCopied + SourceRowCount(source, tables)
      && s.tablesDeleted == st.summary.tablesDeleted + |Dropped(st.target, source, tables)|
      && s.rowsDeleted == st.summary.rowsDeleted
    decreases |tables|
  {
    if tables != [] {
      var prefix, last := tables[..|tables| - 1], tables[|tables| - 1];
      TablePhaseCounts(st, source, prefix);
      TablePhaseTables(st, source, prefix);
      assert tables == prefix + [last];
      var before := TablePhase(st, source, prefix);
      if last !in source {
        if last in before.target {
          assert last !in prefix && last in st.target;
          assert Dropped(st.target, source, tables) == Dropped(st.target, source, prefix) + {last};
        } else {
          assert Dropped(st.target, source, tables) == Dropped(st.target, source, prefix);
        }
      } else {
        assert Dropped(st.target, source, tables) == Dropped(st.target, source, prefix);
      }
    }
  }

  // ---------------------------------------------------------------------------
  // Phase 2

  /**
    With both rows given, the first row carrying the key is replaced (or the
    source row appended when none does); no other row or table changes and
    `rowsCopied` rises by one.
   */
  lemma RowUpdate(st: State, sel: RowSelection)
    requires sel.sourceRow.Some? && sel.targetRow.Some?
    ensures var rows, r := RowsOf(st.target, sel.table), ApplyRow(st, sel);
      var i := FindIndex(rows, sel.key);
      && sel.table in r.target
      && (i != -1 ==> |r.target[sel.table]| == |rows| && r.target[sel.table][i] == sel.sourceRow.value
                      && forall j :: 0 <= j < |rows| && j != i ==> r.target[sel.table][j] == rows[j])
      && (i == -1 ==> r.target[sel.table] == rows + [sel.sourceRow.value])
      && (forall t :: t != sel.table ==> AgreeOn(r.target, st.target, t))
      && r.summary == st.summary.(rowsCopied := st.summary.rowsCopied + 1)
  {
  }

  /** With only a source row, the row is appended even when the key is already present. */
  lemma RowInsert(st: State, sel: RowSelection)
    requires sel.sourceRow.Some? && sel.targetRow.None?
    ensures var rows, r := RowsOf(st.target, sel.table), ApplyRow(st, sel);
      && sel.table in r.target
      && r.target[sel.table] == rows + [sel.sourceRow.value]
      && (forall t :: t != sel.table ==> AgreeOn(r.target, st.target, t))
      && r.summary == st.summary.(rowsCopied := st.summary.rowsCopied + 1)
  {
  }

  /** An insert applied twice leaves two copies of the row: the insert is not idempotent. */
  lemma InsertTwiceDuplicates(st: State, sel: RowSelection)
    requires sel.sourceRow.Some? && sel.targetRow.None?
    ensures var r := ApplyRow(ApplyRow(st, sel), sel);
      && sel.table in r.target
      && r.target[sel.table] == RowsOf(st.target, sel.table) + [sel.sourceRow.value, sel.sourceRow.value]
      && r.summary.rowsCopied == st.summary.rowsCopied + 2
  {
    RowInsert(st, sel);
    RowInsert(ApplyRow(st, sel), sel);
    var rows := RowsOf(st.target, sel.table);
    assert rows + [sel.sourceRow.value] + [sel.sourceRow.value] == rows + [sel.sourceRow.value, sel.sourceRow.value];
  }

  /** An update whose source row carries the selected key gives the same dataset when applied twice. */
  lemma UpdateIdempotent(st: State, sel: RowSelection)
    requires sel.sourceRow.Some? && sel.targetRow.Some?
    requires KeyOf(sel.sourceRow.value) == sel.key
    ensures ApplyRow(ApplyRow(st, sel), sel).target == ApplyRow(st, sel).target
  {
    var rows := RowsOf(st.target, sel.table);
    var i := FindIndex(rows, sel.key);
    var once := ApplyRow(st, sel);
    var updated := once.target[sel.table];
    var k := FindIndex(updated, sel.key);
    if i != -1 {
      assert updated == rows[i := sel.sourceRow.value];
      assert k == i by {
        assert KeyOf(updated[i]) == sel.key;
        assert forall j :: 0 <= j < i ==> KeyOf(updated[j]) != sel.key;
      }
      assert updated[i := sel.sourceRow.value] == updated;
    } else {
      assert updated == rows + [sel.sourceRow.value];
      assert k == |rows| by {
        assert KeyOf(updated[|rows|]) == sel.key;
        assert forall j :: 0 <= j < |rows| ==> KeyOf(updated[j]) != sel.key;
      }
      assert updated[k := sel.sourceRow.value] == updated;
    }
    assert RowsOf(once.target, sel.table) == updated;
  }

  /**
    With only a target row, the first row carrying the key is removed
    (counted only when found), and a table left empty is removed and counted.
   */
  lemma RowDelete(st: State, sel: RowSelection)
    requires sel.sourceRow.None? && sel.targetRow.Some?
    ensures var rows, r := RowsOf(st.target, sel.table), ApplyRow(st, sel);
      var i := FindIndex(rows, sel.key);
      var remaining := if i != -1 then rows[..i] + rows[i + 1..] else rows;
      && |remaining| == (if i != -1 then |rows| - 1 else |rows|)
      && (remaining == [] ==> sel.table !in r.target
                              && r.summary.tablesDeleted == st.summary.tablesDeleted + 1)
      && (remaining != [] ==> sel.table in r.target && r.target[sel.table] == remaining
                              && r.summary.tablesDeleted == st.summary.tablesDeleted)
      && r.summary.rowsDeleted == st.summary.rowsDeleted + (if i != -1 then 1 else 0)
      && r.summary.tablesCopied == st.summary.tablesCopied
      && r.summary.rowsCopied == st.summary.rowsCopied
      && (forall t :: t != sel.table ==> AgreeOn(r.target, st.target, t))
  {
    var rows, r := RowsOf(st.target, sel.table), ApplyRow(st, sel);
    var i := FindIndex(rows, sel.key);
    var remaining := if i != -1 then rows[..i] + rows[i + 1..] else rows;
    if remaining == [] {
      assert r == State(st.target - {sel.table},
                        st.summary.(rowsDeleted := st.summary.rowsDeleted + (if i != -1 then 1 else 0),
                                    tablesDeleted := st.summary.tablesDeleted + 1));
    } else {
      assert r == State(st.target[sel.table := remaining],
                        st.summary.(rowsDeleted := st.summary.rowsDeleted + (if i != -1 then 1 else 0)));
    }
  }

  /** A delete on a table the target lacks still counts a table deletion (the table is created empty, then dropped). */
  lemma DeleteOnAbsentTable(st: State, sel: RowSelection)
    requires sel.sourceRow.None? && sel.targetRow.Some?
    requires sel.table !in st.target
    ensures ApplyRow(st, sel) == State(st.target, st.summary.(tablesDeleted := st.summary.tablesDeleted + 1))
  {
    assert st.target - {sel.table} == st.target;
  }

  /** With neither row, no counter moves, but the table now exists (empty if it was absent). */
  lemma RowBothNull(st: State, sel: RowSelection)
    requires sel.sourceRow.None? && sel.targetRow.None?
    ensures var r := ApplyRow(st, sel);
      && r.summary == st.summary
      && sel.table in r.target && r.target[sel.table] == RowsOf(st.target, sel.table)
      && (sel.table !in st.target ==> r.target[sel.table] == [])
      && (forall t :: t != sel.table ==> AgreeOn(r.target, st.target, t))
  {
  }

  /** How many row selections carry a source row. */
  function WithSourceRow(sels: seq<RowSelection>): (n: nat)
    ensures n <= |sels|
    decreases |sels|
  {
    if sels == [] then 0
    else WithSourceRow(sels[..|sels| - 1]) + (if sels[|sels| - 1].sourceRow.Some? then 1 else 0)
  }

  /** The row phase copies exactly one row per selection that carries a source row, and copies no table. */
  lemma {:induction false} RowPhaseCopies(st: State, sels: seq<RowSelection>)
    ensures RowPhase(st, sels).summary.rowsCopied == st.summary.rowsCopied + WithSourceRow(sels)
    ensures RowPhase(st, sels).summary.tablesCopied == st.summary.tablesCopied
    decreases |sels|
  {
    if sels != [] {
      RowPhaseCopies(st, sels[..|sels| - 1]);
      ApplyRowCounts(RowPhase(st, sels[..|sels| - 1]), sels[|sels| - 1]);
    }
  }

  /** One row selection counts a copied row exactly when it carries a source row, and never a copied table. */
  lemma ApplyRowCounts(st: State, sel: RowSelection)
    ensures ApplyRow(st, sel).summary.rowsCopied == st.summary.rowsCopied + (if sel.sourceRow.Some? then 1 else 0)
    ensures ApplyRow(st, sel).summary.tablesCopied == st.summary.tablesCopied
  {
    var s := ApplyRow(st, sel).summary;
    if sel.sourceRow.Some? {
      assert s == st.summary.(rowsCopied := st.summary.rowsCopied + 1);
    } else if sel.targetRow.Some? {
      assert s.rowsCopied == st.summary.rowsCopied && s.tablesCopied == st.summary.tablesCopied;
    } else {
      assert s == st.summary;
    }
  }

  // ---------------------------------------------------------------------------
  // Phase 3

  /** Listed columns the source row has take its values; every other column is kept or stays absent. */
  lemma OverlayEffect(row: Row, columns: seq<string>, source: Row)
    ensures var r := Overlay(row, columns, source);
      && (forall c :: c in columns && c in source ==> c in r && r[c] == source[c])
      && (forall c :: c !in columns ==> (c in r <==> c in row) && (c in row ==> r[c] == row[c]))
      && (forall c :: c !in source ==> (c in r <==> c in row) && (c in row ==> r[c] == row[c]))
  {
  }

  /** A cell selection without a source row or without columns changes nothing. */
  lemma CellSkipped(st: State, sel: CellSelection)
    requires sel.sourceRow.None? || sel.columns == []
    ensures ApplyCell(st, sel) == st
  {
  }

  /**
    Otherwise the first row carrying the key (or a new row `{key}`, appended)
    takes the listed source columns; no other row, no other table and no
    counter changes.
   */
  lemma CellOverwrite(st: State, sel: CellSelection)
    requires sel.sourceRow.Some? && sel.columns != []
    ensures var rows, r := RowsOf(st.target, sel.table), ApplyCell(st, sel);
      var i := FindIndex(rows, sel.key);
      && sel.table in r.target
      && (i != -1 ==> |r.target[sel.table]| == |rows|
                      && r.target[sel.table][i] == Overlay(rows[i], sel.columns, sel.sourceRow.value)
                      && forall j :: 0 <= j < |rows| && j != i ==> r.target[sel.table][j] == rows[j])
      && (i == -1 ==> r.target[sel.table] == rows + [Overlay(map["key" := sel.key], sel.columns, sel.sourceRow.value)])
      && (forall t :: t != sel.table ==> AgreeOn(r.target, st.target, t))
      && r.summary == st.summary
  {
  }

  // ---------------------------------------------------------------------------
  // Phase order

  /** A row selection leaves every other table as it was. */
  lemma ApplyRowOtherTable(st: State, sel: RowSelection, t: string)
    requires t != sel.table
    ensures AgreeOn(ApplyRow(st, sel).target, st.target, t)
  {
    var rows := RowsOf(st.target, sel.table);
    var index := FindIndex(rows, sel.key);
    var r := ApplyRow(st, sel).target;
    if sel.sourceRow.Some? && sel.targetRow.Some? {
      assert r == st.target[sel.table := if index != -1 then rows[index := sel.sourceRow.value] else rows + [sel.sourceRow.value]];
    } else if sel.sourceRow.Some? {
      assert r == st.target[sel.table := rows + [sel.sourceRow.value]];
    } else if sel.targetRow.Some? {
      var remaining := if index != -1 then rows[..index] + rows[index + 1..] else rows;
      assert r == st.target - {sel.table} || r == st.target[sel.table := remaining];
    } else {
      assert r == st.target[sel.table := rows];
    }
  }

  /** A row selection's effect on its own table depends only on that table's prior rows. */
  lemma ApplyRowSameRows(st1: State, st2: State, sel: RowSelection)
    requires AgreeOn(st1.target, st2.target, sel.table)
    ensures AgreeOn(ApplyRow(st1, sel).target, ApplyRow(st2, sel).target, sel.table)
  {
    var rows, t := RowsOf(st1.target, sel.table), sel.table;
    assert RowsOf(st2.target, t) == rows;
    var index := FindIndex(rows, sel.key);
    var r1, r2 := ApplyRow(st1, sel).target, ApplyRow(st2, sel).target;
    if sel.sourceRow.Some? && sel.targetRow.Some? {
      var updated := if index != -1 then rows[index := sel.sourceRow.value] else rows + [sel.sourceRow.value];
      assert r1 == st1.target[t := updated] && r2 == st2.target[t := updated];
    } else if sel.sourceRow.Some? {
      assert r1 == st1.target[t := rows + [sel.sourceRow.value]] && r2 == st2.target[t := rows + [sel.sourceRow.value]];
    } else if sel.targetRow.Some? {
      var remaining := if index != -1 then rows[..index] + rows[index + 1..] else rows;
      if |remaining| == 0 {
        assert r1 == st1.target - {t} && r2 == st2.target - {t};
      } else {
        assert r1 == st1.target[t := remaining] && r2 == st2.target[t := remaining];
      }
    } else {
      assert r1 == st1.target[t := rows] && r2 == st2.target[t := rows];
    }
  }

  lemma ApplyRowLocal(st1: State, st2: State, sel: RowSelection, t: string)
    requires AgreeOn(st1.target, st2.target, t)
    ensures AgreeOn(ApplyRow(st1, sel).target, ApplyRow(st2, sel).target, t)
  {
    if t == sel.table {
      ApplyRowSameRows(st1, st2, sel);
    } else {
      ApplyRowOtherTable(st1, sel, t);
      ApplyRowOtherTable(st2, sel, t);
    }
  }

  lemma {:induction false} RowPhaseLocal(st1: State, st2: State, sels: seq<RowSelection>, t: string)
    requires AgreeOn(st1.target, st2.target, t)
    ensures AgreeOn(RowPhase(st1, sels).target, RowPhase(st2, sels).target, t)
    decreases |sels|
  {
    if sels != [] {
      RowPhaseLocal(st1, st2, sels[..|sels| - 1], t);
      ApplyRowLocal(RowPhase(st1, sels[..|sels| - 1]), RowPhase(st2, sels[..|sels| - 1]), sels[|sels| - 1], t);
    }
  }

  lemma ApplyCellLocal(st1: State, st2: State, sel: CellSelection, t: string)
    requires AgreeOn(st1.target, st2.target, t)
    ensures AgreeOn(ApplyCell(st1, sel).target, ApplyCell(st2, sel).target, t)
  {
    if sel.table == t {
      assert RowsOf(st1.target, t) == RowsOf(st2.target, t);
    }
  }

  lemma {:induction false} CellPhaseLocal(st1: State, st2: State, sels: seq<CellSelection>, t: string)
    requires AgreeOn(st1.target, st2.target, t)
    ensures AgreeOn(CellPhase(st1, sels).target, CellPhase(st2, sels).target, t)
    decreases |sels|
  {
    if sels != [] {
      CellPhaseLocal(st1, st2, sels[..|sels| - 1], t);
      ApplyCellLocal(CellPhase(st1, sels[..|sels| - 1]), CellPhase(st2, sels[..|sels| - 1]), sels[|sels| - 1], t);
    }
  }

  /**
    Tables run before rows and cells: a table selected as a whole ends up the
    same whatever the target held for it before, because the row and cell
    selections on it act on the replaced (or deleted) table.
   */
  lemma SelectedTableIgnoresPriorContent(target1: Dataset, target2: Dataset, source: Dataset, tables: seq<string>,
                                         rows: seq<RowSelection>, cells: seq<CellSelection>, t: string)
    requires t in tables
    ensures AgreeOn(MergeResult(target1, source, tables, rows, cells).target,
                    MergeResult(target2, source, tables, rows, cells).target, t)
  {
    var p1 := TablePhase(State(target1, NoChanges), source, tables);
    var p2 := TablePhase(State(target2, NoChanges), source, tables);
    TablePhaseTables(State(target1, NoChanges), source, tables);
    TablePhaseTables(State(target2, NoChanges), source, tables);
    assert AgreeOn(p1.target, p2.target, t);
    RowPhaseLocal(p1, p2, rows, t);
    CellPhaseLocal(RowPhase(p1, rows), RowPhase(p2, rows), cells, t);
  }
}
