/**
  Values as the merge tool sees them once JSON has been parsed: flat rows of
  scalar cells, tables as ordered arrays of rows, datasets as objects that map
  a table name to its table.
 */
module JsonValues {

  datatype Option<+T> = None | Some(value: T)

  /** A JSON scalar, plus JavaScript's `undefined` for a column a row does not have. */
  datatype Value = Undefined | Null | Str(s: string) | Num(n: real) | Bool(b: bool)

  /** A row object: column name to cell value. */
  type Row = map<string, Value>

  /** A dataset document: table name to the table's rows, in storage order. */
  type Dataset = map<string, seq<Row>>

  /** `dataset[table] || []`: the rows of a table, an absent table having none. */
  function RowsOf(d: Dataset, table: string): seq<Row>
  {
    if table in d then d[table] else []
  }

  /** `row[col]`: an absent column reads as `undefined`. */
  function Get(row: Row, col: string): Value
  {
    if col in row then row[col] else Undefined
  }

  /** `row.key`, the identifying column. */
  function KeyOf(row: Row): Value
  {
    Get(row, "key")
  }

  /** JavaScript falsiness restricted to the values a row can hold. */
  predicate Falsy(v: Value)
  {
    v == Undefined || v == Null || v == Str("") || v == Num(0.0) || v == Bool(false)
  }

  /** `v || ''`: every falsy value collapses to the empty string. */
  function OrEmpty(v: Value): Value
  {
    if Falsy(v) then Str("") else v
  }

  /**
    `rows.findIndex(r => r.key === key)`: the first row whose key is `key`,
    or -1 when there is none.
   */
  function FindIndex(rows: seq<Row>, key: Value): (i: int)
    ensures -1 <= i < |rows|
    ensures 0 <= i ==> KeyOf(rows[i]) == key
    ensures forall j :: 0 <= j < |rows| && (i == -1 || j < i) ==> KeyOf(rows[j]) != key
  {
    if rows == [] then -1
    else if KeyOf(rows[0]) == key then 0
    else
      var i := FindIndex(rows[1..], key);
      if i == -1 then -1 else i + 1
  }

  /** `rows.find(r => r.key === key)`, with `undefined` as None. */
  function Find(rows: seq<Row>, key: Value): (r: Option<Row>)
    ensures r.Some? <==> exists j :: 0 <= j < |rows| && KeyOf(rows[j]) == key
    ensures r.Some? ==> r.value == rows[FindIndex(rows, key)]
  {
    var i := FindIndex(rows, key);
    if i == -1 then None else Some(rows[i])
  }
}
