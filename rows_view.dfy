/**
  The arithmetic of the paginated row table: which rows a page shows, how many
  pages there are, and which columns the table has.
 */
module RowsView {
  import opened JsonValues
  import opened Reconcile

  const RowsPerPage: nat := 20

  /** A `slice` position: negative counts back from the end; the result is clamped to `0..len`. */
  function SlicePosition(x: int, len: nat): (r: nat)
    ensures r <= len
    ensures 0 <= x <= len ==> r == x
  {
    if x < 0 then (if len + x < 0 then 0 else len + x)
    else if x > len then len
    else x
  }

  /** `s.slice(begin, end)`. */
  function Slice<T>(s: seq<T>, begin: int, end: int): seq<T>
  {
    var from, to := SlicePosition(begin, |s|), SlicePosition(end, |s|);
    if from < to then s[from..to] else []
  }

  /** The rows page `page` shows: `rows.slice(start, start + rowsPerPage)` with `start = (page - 1) * rowsPerPage`. */
  function PageRows<T>(rows: seq<T>, page: int): seq<T>
  {
    var start := (page - 1) * RowsPerPage;
    Slice(rows, start, start + RowsPerPage)
  }

  /** `Math.ceil(n / rowsPerPage)`. */
  function TotalPages(n: nat): nat
  {
    if n % RowsPerPage == 0 then n / RowsPerPage else n / RowsPerPage + 1
  }

  function Min(a: int, b: int): int
  {
    if a <= b then a else b
  }

  /** Page `p` (from 1) holds the rows at positions `(p-1)*20` up to, not including, `p*20`, and at most 20 rows. */
  lemma PageContents<T>(rows: seq<T>, page: int)
    requires page >= 1
    ensures Min((page - 1) * RowsPerPage, |rows|) <= Min(page * RowsPerPage, |rows|)
    ensures PageRows(rows, page) == rows[Min((page - 1) * RowsPerPage, |rows|)..Min(page * RowsPerPage, |rows|)]
    ensures |PageRows(rows, page)| <= RowsPerPage
  {
  }

  /** `TotalPages` is the least number of 20-row pages that holds `n` rows. */
  lemma TotalPagesIsCeiling(n: nat)
    ensures n <= TotalPages(n) * RowsPerPage
    ensures n > 0 ==> (TotalPages(n) - 1) * RowsPerPage < n
    ensures n == 0 <==> TotalPages(n) == 0
  {
  }

  /** Pages 1 up to `TotalPages` are non-empty; every later page is empty. */
  lemma PageEmptiness<T>(rows: seq<T>, page: int)
    requires page >= 1
    ensures page <= TotalPages(|rows|) <==> PageRows(rows, page) != []
  {
    TotalPagesIsCeiling(|rows|);
    PageContents(rows, page);
  }

  /** Pages 1 to `k`, one after the other. */
  function FirstPages<T>(rows: seq<T>, k: nat): seq<T>
  {
    if k == 0 then [] else FirstPages(rows, k - 1) + PageRows(rows, k)
  }

  /** The first `k` pages are the first `20k` rows. */
  lemma {:induction false} FirstPagesArePrefix<T>(rows: seq<T>, k: nat)
    ensures FirstPages(rows, k) == rows[..Min(k * RowsPerPage, |rows|)]
  {
    if k > 0 {
      FirstPagesArePrefix(rows, k - 1);
      PageContents(rows, k);
      var a, b := Min((k - 1) * RowsPerPage, |rows|), Min(k * RowsPerPage, |rows|);
      assert rows[..a] + rows[a..b] == rows[..b];
    }
  }

  /** The pages partition the rows: read in order, pages 1 to `TotalPages` give back every row exactly once. */
  lemma PagesPartitionRows<T>(rows: seq<T>)
    ensures FirstPages(rows, TotalPages(|rows|)) == rows
  {
    FirstPagesArePrefix(rows, TotalPages(|rows|));
    TotalPagesIsCeiling(|rows|);
    assert rows[..|rows|] == rows;
  }

  // ---------------------------------------------------------------------------
  // Columns

  /** `sourceRow || targetRow`: the row a pair is drawn from. */
  function DisplayedRow(e: Entry): Option<Row>
  {
    if e.sourceRow.Some? then e.sourceRow else e.targetRow
  }

  /** Column `col` belongs to the displayed row of one of the pairs. */
  ghost predicate SomeRowHas(rows: seq<Entry>, col: string)
  {
    exists i :: 0 <= i < |rows| && DisplayedRow(rows[i]).Some? && col in DisplayedRow(rows[i]).value
  }

  /** The table's columns: every column, other than `key`, of the displayed row of some pair. */
  method ColumnUniverse(rows: seq<Entry>) returns (columns: set<string>)
    ensures forall col :: col in columns <==> col != "key" && SomeRowHas(rows, col)
  {
    columns := {};
    for i := 0 to |rows|
      invariant forall col :: col in columns <==> col != "key" && SomeRowHas(rows[..i], col)
    {
      var row := DisplayedRow(rows[i]);
      if row.Some? {
        columns := columns + (set k | k in row.value && k != "key");
      }
      forall col
        ensures SomeRowHas(rows[..i + 1], col) <==> SomeRowHas(rows[..i], col) || (row.Some? && col in row.value)
      {
        if SomeRowHas(rows[..i + 1], col) {
          var j :| 0 <= j < i + 1 && DisplayedRow(rows[..i + 1][j]).Some? && col in DisplayedRow(rows[..i + 1][j]).value;
          if j < i {
            assert rows[..i][j] == rows[..i + 1][j];
          }
        }
        if SomeRowHas(rows[..i], col) {
          var j :| 0 <= j < i && DisplayedRow(rows[..i][j]).Some? && col in DisplayedRow(rows[..i][j]).value;
          assert rows[..i + 1][j] == rows[..i][j];
        }
        if row.Some? && col in row.value {
          assert rows[..i + 1][i] == rows[i];
        }
      }
    }
    assert rows[..|rows|] == rows;
  }
}
