/**
  The comparison view of the browser page: for every table of the source or
  the target dataset it pairs rows by key, classifies each pair (missing in the
  target, missing in the source, differing, same), keeps the pairs the chosen
  filter mode asks for, and records the tables that keep any.
 */
module Reconcile {
  import opened JsonValues

  /** Columns never compared: `lastUpdated`, `timestamp` and `id`. */
  const ExcludedColumns: seq<string> := ["lastUpdated", "timestamp", "id"]

  // ---------------------------------------------------------------------------
  // Row difference

  /** One column makes two rows differ: it is not excluded and its values differ once falsy values read as ''. */
  predicate ColumnDiffers(sourceRow: Row, targetRow: Row, col: string)
  {
    col !in ExcludedColumns && OrEmpty(Get(sourceRow, col)) != OrEmpty(Get(targetRow, col))
  }

  /** Some column of the source row makes the rows differ. */
  predicate Differs(sourceRow: Row, targetRow: Row)
  {
    exists col :: col in sourceRow && ColumnDiffers(sourceRow, targetRow, col)
  }

  /** The source row's columns are inspected one at a time, returning as soon as one differs. */
  method HasDifferences(sourceRow: Row, targetRow: Row) returns (different: bool)
    ensures different == Differs(sourceRow, targetRow)
  {
    var remaining := sourceRow.Keys;
    while remaining != {}
      invariant remaining <= sourceRow.Keys
      invariant forall col :: col in sourceRow && col !in remaining ==> !ColumnDiffers(sourceRow, targetRow, col)
      decreases remaining
    {
      var col :| col in remaining;
      remaining := remaining - {col};
      if col in ExcludedColumns {
        continue;
      }
      if OrEmpty(Get(sourceRow, col)) != OrEmpty(Get(targetRow, col)) {
        assert ColumnDiffers(sourceRow, targetRow, col);
        return true;
      }
    }
    return false;
  }

  // ---------------------------------------------------------------------------
  // Classification

  /** The pair shown for one key: the source side and the target side, either possibly missing. */
  datatype Entry = Entry(sourceRow: Option<Row>, targetRow: Option<Row>)

  predicate MissingInTarget(e: Entry)
  {
    e.sourceRow.Some? && e.targetRow.None?
  }

  predicate MissingInSource(e: Entry)
  {
    e.targetRow.Some? && e.sourceRow.None?
  }

  predicate IsDiff(e: Entry)
  {
    e.sourceRow.Some? && e.targetRow.Some? && Differs(e.sourceRow.value, e.targetRow.value)
  }

  predicate IsSame(e: Entry)
  {
    e.sourceRow.Some? && e.targetRow.Some? && !Differs(e.sourceRow.value, e.targetRow.value)
  }

  /** Whether filter mode `mode` keeps the pair. */
  predicate Keeps(mode: string, e: Entry)
  {
    || mode == "all"
    || (mode == "diff" && IsDiff(e))
    || (mode == "missing" && (MissingInTarget(e) || MissingInSource(e)))
    || (mode == "diff-missing" && (IsDiff(e) || MissingInTarget(e) || MissingInSource(e)))
    || (mode == "same" && IsSame(e))
  }

  // ---------------------------------------------------------------------------
  // Pairing rows by key

  /** `rows.map(r => r.key)`. */
  function KeysOf(rows: seq<Row>): (keys: seq<Value>)
    ensures |keys| == |rows|
  {
    seq(|rows|, i requires 0 <= i < |rows| => KeyOf(rows[i]))
  }

  /** The elements of `s` once each, as a JavaScript `Set` built from `s` iterates them. */
  function Distinct(s: seq<Value>): seq<Value>
    decreases |s|
  {
    if s == [] then []
    else
      var d := Distinct(s[..|s| - 1]);
      if s[|s| - 1] in d then d else d + [s[|s| - 1]]
  }

  /** `new Map(rows.map(r => [r.key, r]))` as a lookup: a later row with the same key overwrites an earlier one. */
  function KeyMap(rows: seq<Row>): map<Value, Row>
    decreases |rows|
  {
    if rows == [] then map[]
    else KeyMap(rows[..|rows| - 1])[KeyOf(rows[|rows| - 1]) := rows[|rows| - 1]]
  }

  /** `m.get(key)`, with `undefined` as None. */
  function Lookup(m: map<Value, Row>, key: Value): Option<Row>
  {
    if key in m then Some(m[key]) else None
  }

  /** Builds the key-to-row map of a table together with its keys in insertion order. */
  method IndexByKey(rows: seq<Row>) returns (keys: seq<Value>, byKey: map<Value, Row>)
    ensures keys == Distinct(KeysOf(rows))
    ensures byKey == KeyMap(rows)
  {
    keys, byKey := [], map[];
    for i := 0 to |rows|
      invariant keys == Distinct(KeysOf(rows[..i]))
      invariant byKey == KeyMap(rows[..i])
      invariant forall k :: k in byKey <==> k in keys
    {
      var key := KeyOf(rows[i]);
      assert rows[..i + 1][..i] == rows[..i];
      assert KeysOf(rows[..i + 1])[..i] == KeysOf(rows[..i]);
      if key !in byKey {
        keys := keys + [key];
      }
      byKey := byKey[key := rows[i]];
    }
    assert rows[..|rows|] == rows;
  }

  /** `new Set([...sourceMap.keys(), ...targetMap.keys()])`: every key of either side, once. */
  function UnionKeys(sourceRows: seq<Row>, targetRows: seq<Row>): seq<Value>
  {
    Distinct(Distinct(KeysOf(sourceRows)) + Distinct(KeysOf(targetRows)))
  }

  /** The pair of rows for each key. */
  function EntriesFor(keys: seq<Value>, sourceMap: map<Value, Row>, targetMap: map<Value, Row>): (es: seq<Entry>)
    ensures |es| == |keys|
  {
    seq(|keys|, i requires 0 <= i < |keys| => Entry(Lookup(sourceMap, keys[i]), Lookup(targetMap, keys[i])))
  }

  /** The pairs mode `mode` keeps, in order. */
  function FilterEntries(mode: string, es: seq<Entry>): seq<Entry>
    decreases |es|
  {
    if es == [] then []
    else
      var kept := FilterEntries(mode, es[..|es| - 1]);
      if Keeps(mode, es[|es| - 1]) then kept + [es[|es| - 1]] else kept
  }

  /** The pairs one table shows under mode `mode`. */
  function TableRows(mode: string, sourceRows: seq<Row>, targetRows: seq<Row>): seq<Entry>
  {
    FilterEntries(mode, EntriesFor(UnionKeys(sourceRows, targetRows), KeyMap(sourceRows), KeyMap(targetRows)))
  }

  /** The pairs of one more key extend the pairs of the keys before it. */
  lemma EntriesForStep(keys: seq<Value>, i: nat, sourceMap: map<Value, Row>, targetMap: map<Value, Row>)
    requires i < |keys|
    ensures EntriesFor(keys[..i + 1], sourceMap, targetMap)
         == EntriesFor(keys[..i], sourceMap, targetMap) + [Entry(Lookup(sourceMap, keys[i]), Lookup(targetMap, keys[i]))]
  {
  }

  /** The classification of one pair and the filter select's verdict on it. */
  method KeepsPair(filterValue: string, sourceRow: Option<Row>, targetRow: Option<Row>) returns (keep: bool)
    ensures keep == Keeps(filterValue, Entry(sourceRow, targetRow))
  {
    var isMissingInTarget := sourceRow.Some? && targetRow.None?;
    var isMissingInSource := targetRow.Some? && sourceRow.None?;
    var isDiff := false;
    if sourceRow.Some? && targetRow.Some? {
      isDiff := HasDifferences(sourceRow.value, targetRow.value);
    }
    var isSame := sourceRow.Some? && targetRow.Some? && !isDiff;
    keep := filterValue == "all"
      || (filterValue == "diff" && isDiff)
      || (filterValue == "missing" && (isMissingInTarget || isMissingInSource))
      || (filterValue == "diff-missing" && (isDiff || isMissingInTarget || isMissingInSource))
      || (filterValue == "same" && isSame);
  }

  /** The body of the table loop: pair, classify and filter the rows of one table. */
  method FilterTable(filterValue: string, sourceRows: seq<Row>, targetRows: seq<Row>) returns (filteredRows: seq<Entry>)
    ensures filteredRows == TableRows(filterValue, sourceRows, targetRows)
  {
    var sourceKeys, sourceMap := IndexByKey(sourceRows);
    var targetKeys, targetMap := IndexByKey(targetRows);
    var allKeys := Distinct(sourceKeys + targetKeys);
    filteredRows := [];
    for i := 0 to |allKeys|
      invariant filteredRows == FilterEntries(filterValue, EntriesFor(allKeys[..i], sourceMap, targetMap))
    {
      var key := allKeys[i];
      var sourceRow := Lookup(sourceMap, key);
      var targetRow := Lookup(targetMap, key);
      var entry := Entry(sourceRow, targetRow);
      EntriesForStep(allKeys, i, sourceMap, targetMap);
      var keep := KeepsPair(filterValue, sourceRow, targetRow);
      if keep {
        filteredRows := filteredRows + [entry];
      }
    }
    assert allKeys[..|allKeys|] == allKeys;
  }

  // ---------------------------------------------------------------------------
  // Tables and the search box

  /** ASCII case folding. */
  function LowerChar(c: char): char
  {
    if 'A' <= c <= 'Z' then (c as int + 32) as char else c
  }

  /** `s.toLowerCase()`, for ASCII letters. */
  function Lower(s: string): (r: string)
    ensures |r| == |s|
  {
    seq(|s|, i requires 0 <= i < |s| => LowerChar(s[i]))
  }

  /** `s.includes(part)`. */
  predicate Contains(s: string, part: string)
  {
    exists i :: 0 <= i <= |s| && part <= s[i..]
  }

  /** A table passes the search box: the search text is empty or occurs in its lower-cased name. */
  predicate NameMatches(table: string, search: string)
  {
    search == [] || Contains(Lower(table), search)
  }

  /** The pairs table `t` shows under mode `mode`, an absent table having no rows. */
  function TableView(t: string, source: Dataset, target: Dataset, mode: string): seq<Entry>
  {
    TableRows(mode, RowsOf(source, t), RowsOf(target, t))
  }

  /** A table is shown when it passes the search and keeps at least one pair. */
  predicate Shown(t: string, source: Dataset, target: Dataset, search: string, mode: string)
  {
    NameMatches(t, search) && TableView(t, source, target, mode) != []
  }

  /** The names in `names` that `keep` accepts, each mapped to its `view`. */
  function Restrict<V>(names: set<string>, keep: string -> bool, view: string -> V): (m: map<string, V>)
    ensures forall t :: t in m <==> t in names && keep(t)
  {
    map t | t in names && keep(t) :: view(t)
  }

  /** Adding a new name to `names` adds that name exactly when `keep` accepts it. */
  lemma RestrictStep<V>(done: set<string>, t: string, keep: string -> bool, view: string -> V)
    requires t !in done
    ensures Restrict(done + {t}, keep, view)
      == if keep(t) then Restrict(done, keep, view)[t := view(t)] else Restrict(done, keep, view)
  {
    var after, before := Restrict(done + {t}, keep, view), Restrict(done, keep, view);
    var expected := if keep(t) then before[t := view(t)] else before;
    assert forall u :: u in after <==> u in expected;
    assert forall u :: u in after ==> after[u] == expected[u];
  }

  /** The tables among `names` that are shown, with their pairs. */
  function VisibleAmong(names: set<string>, source: Dataset, target: Dataset, search: string, mode: string): map<string, seq<Entry>>
  {
    Restrict(names, t => Shown(t, source, target, search, mode), t => TableView(t, source, target, mode))
  }

  function VisibleTables(source: Dataset, target: Dataset, search: string, mode: string): map<string, seq<Entry>>
  {
    VisibleAmong(source.Keys + target.Keys, source, target, search, mode)
  }

  /** Adding a new table name to the ones looked at adds that table exactly when it is shown. */
  lemma VisibleAmongStep(done: set<string>, t: string, source: Dataset, target: Dataset, search: string, mode: string)
    requires t !in done
    ensures VisibleAmong(done + {t}, source, target, search, mode)
      == if Shown(t, source, target, search, mode)
         then VisibleAmong(done, source, target, search, mode)[t := TableView(t, source, target, mode)]
         else VisibleAmong(done, source, target, search, mode)
  {
    RestrictStep(done, t, t => Shown(t, source, target, search, mode), t => TableView(t, source, target, mode));
  }

  /** The page's state: the two loaded datasets and the filtered rows of every shown table. */
  class DiffView {
    var sourceData: Dataset
    var targetData: Dataset
    var tableFilteredRows: map<string, seq<Entry>>

    constructor (sourceData: Dataset, targetData: Dataset)
      ensures this.sourceData == sourceData && this.targetData == targetData
      ensures tableFilteredRows == map[]
    {
      this.sourceData := sourceData;
      this.targetData := targetData;
      tableFilteredRows := map[];
    }

    /**
      Recomputes the filtered rows of every table from the search box text and
      the filter select's value (empty meaning "all").
     */
    method FilterAndRenderTables(searchText: string, filterSelect: string)
      modifies this`tableFilteredRows
      ensures tableFilteredRows == VisibleTables(sourceData, targetData, Lower(searchText),
                                                 if filterSelect == "" then "all" else filterSelect)
    {
      var searchValue := Lower(searchText);
      var filterValue := if filterSelect == "" then "all" else filterSelect;
      tableFilteredRows := map[];
      var allTableNames := sourceData.Keys + targetData.Keys;
      var remaining := allTableNames;
      while remaining != {}
        invariant remaining <= allTableNames
        invariant tableFilteredRows == VisibleAmong(allTableNames - remaining, sourceData, targetData, searchValue, filterValue)
        decreases remaining
      {
        var tableName :| tableName in remaining;
        ghost var done := allTableNames - remaining;
        remaining := remaining - {tableName};
        assert allTableNames - remaining == done + {tableName};
        VisibleAmongStep(done, tableName, sourceData, targetData, searchValue, filterValue);
        if searchValue != [] && !Contains(Lower(tableName), searchValue) {
          assert !Shown(tableName, sourceData, targetData, searchValue, filterValue);
          continue;
        }
        var sourceRows := RowsOf(sourceData, tableName);
        var targetRows := RowsOf(targetData, tableName);
        var filteredRows := FilterTable(filterValue, sourceRows, targetRows);
        assert filteredRows == TableView(tableName, sourceData, targetData, filterValue);
        assert Shown(tableName, sourceData, targetData, searchValue, filterValue) <==> |filteredRows| > 0;
        if |filteredRows| > 0 {
          tableFilteredRows := tableFilteredRows[tableName := filteredRows];
        }
      }
    }
  }
}
