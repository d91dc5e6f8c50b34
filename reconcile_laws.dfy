/**
  What the comparison view promises: how two rows are compared, how rows are
  paired by key (last row wins, keys in first-seen order, source keys first),
  that every key gets exactly one class, and what each filter mode keeps.
 */
module ReconcileLaws {
  import opened JsonValues
  import opened Reconcile

  // ---------------------------------------------------------------------------
  // Comparing two rows

  /** After `|| ''`, two values are equal exactly when both are falsy or they are the same value. */
  lemma FalsyValuesEqual(a: Value, b: Value)
    ensures OrEmpty(a) == OrEmpty(b) <==> (Falsy(a) && Falsy(b)) || a == b
  {
  }

  /** Two rows that agree, column by column, outside the excluded columns. */
  ghost predicate AgreeOutsideExcluded(a: Row, b: Row)
  {
    forall c :: c !in ExcludedColumns ==> (c in a <==> c in b) && Get(a, c) == Get(b, c)
  }

  /** Changing only excluded columns, on either side, never changes whether the rows differ. */
  lemma ExcludedColumnsIgnored(s: Row, t: Row, s': Row, t': Row)
    requires AgreeOutsideExcluded(s, s') && AgreeOutsideExcluded(t, t')
    ensures Differs(s, t) == Differs(s', t')
  {
    if Differs(s, t) {
      var c :| c in s && ColumnDiffers(s, t, c);
      assert c in s' && ColumnDiffers(s', t', c);
    }
    if Differs(s', t') {
      var c :| c in s' && ColumnDiffers(s', t', c);
      assert c in s && ColumnDiffers(s, t, c);
    }
  }

  /** Rows whose cells agree outside the excluded columns are the same. */
  lemma OnlyExcludedColumnsDiffer(s: Row, t: Row)
    requires forall c :: c !in ExcludedColumns ==> Get(s, c) == Get(t, c)
    ensures !Differs(s, t)
  {
  }

  /** A column only the target row has never makes the rows differ. */
  lemma TargetOnlyColumnIgnored(s: Row, t: Row, col: string, v: Value)
    requires col !in s
    ensures Differs(s, t[col := v]) == Differs(s, t)
  {
    if Differs(s, t) {
      var c :| c in s && ColumnDiffers(s, t, c);
      assert ColumnDiffers(s, t[col := v], c);
    }
    if Differs(s, t[col := v]) {
      var c :| c in s && ColumnDiffers(s, t[col := v], c);
      assert ColumnDiffers(s, t, c);
    }
  }

  /** An empty string and an absent column compare equal. */
  lemma EmptyStringMatchesAbsent(s: Row, t: Row, col: string)
    requires col !in t
    ensures Differs(s[col := Str("")], t) == Differs(s - {col}, t)
  {
    var s1, s2 := s[col := Str("")], s - {col};
    if Differs(s1, t) {
      var c :| c in s1 && ColumnDiffers(s1, t, c);
      assert c != col && c in s2 && ColumnDiffers(s2, t, c);
    }
    if Differs(s2, t) {
      var c :| c in s2 && ColumnDiffers(s2, t, c);
      assert c in s1 && ColumnDiffers(s1, t, c);
    }
  }

  // ---------------------------------------------------------------------------
  // Classification and filter modes

  /** A pair with at least one side gets exactly one of the four classes. */
  lemma ExactlyOneClass(e: Entry)
    requires e.sourceRow.Some? || e.targetRow.Some?
    ensures (if MissingInTarget(e) then 1 else 0) + (if MissingInSource(e) then 1 else 0)
          + (if IsDiff(e) then 1 else 0) + (if IsSame(e) then 1 else 0) == 1
  {
  }

  /** What each filter mode keeps of a pair; a mode other than the five keeps nothing. */
  lemma ModeMeaning(mode: string, e: Entry)
    requires e.sourceRow.Some? || e.targetRow.Some?
    ensures Keeps("all", e)
    ensures Keeps("diff", e) <==> IsDiff(e)
    ensures Keeps("missing", e) <==> MissingInTarget(e) || MissingInSource(e)
    ensures Keeps("diff-missing", e) <==> !IsSame(e)
    ensures Keeps("same", e) <==> IsSame(e)
    ensures mode !in ["all", "diff", "missing", "diff-missing", "same"] ==> !Keeps(mode, e)
  {
  }

  /** The kept pairs are exactly the pairs the mode keeps. */
  lemma {:induction false} FilterEntriesMembership(mode: string, es: seq<Entry>)
    ensures forall e :: e in FilterEntries(mode, es) <==> e in es && Keeps(mode, e)
    decreases |es|
  {
    if es != [] {
      FilterEntriesMembership(mode, es[..|es| - 1]);
      assert es == es[..|es| - 1] + [es[|es| - 1]];
    }
  }

  /** Mode "all" keeps every pair, in order. */
  lemma {:induction false} AllKeepsEverything(es: seq<Entry>)
    ensures FilterEntries("all", es) == es
    decreases |es|
  {
    if es != [] {
      AllKeepsEverything(es[..|es| - 1]);
      assert es == es[..|es| - 1] + [es[|es| - 1]];
    }
  }

  /** A mode other than the five keeps no pair. */
  lemma {:induction false} UnknownModeKeepsNothing(mode: string, es: seq<Entry>)
    requires mode !in ["all", "diff", "missing", "diff-missing", "same"]
    ensures FilterEntries(mode, es) == []
    decreases |es|
  {
    if es != [] {
      UnknownModeKeepsNothing(mode, es[..|es| - 1]);
    }
  }

  // ---------------------------------------------------------------------------
  // Keys

  predicate NoDuplicates(s: seq<Value>)
  {
    forall i, j :: 0 <= i < j < |s| ==> s[i] != s[j]
  }

  /** `x` occurs in `s` before any occurrence of `y`. */
  predicate OccursBefore(s: seq<Value>, x: Value, y: Value)
  {
    exists p :: 0 <= p < |s| && s[p] == x && y !in s[..p + 1]
  }

  /** `Distinct` keeps every element once, in the order of first occurrence. */
  lemma {:induction false} DistinctFirstSeen(s: seq<Value>)
    ensures forall x :: x in Distinct(s) <==> x in s
    ensures NoDuplicates(Distinct(s))
    ensures forall i, j :: 0 <= i < j < |Distinct(s)| ==> OccursBefore(s, Distinct(s)[i], Distinct(s)[j])
    decreases |s|
  {
    if s != [] {
      var prefix, last := s[..|s| - 1], s[|s| - 1];
      DistinctFirstSeen(prefix);
      assert s == prefix + [last];
      var d := Distinct(prefix);
      forall i, j | 0 <= i < j < |Distinct(s)|
        ensures OccursBefore(s, Distinct(s)[i], Distinct(s)[j])
      {
        if j < |d| {
          assert OccursBefore(prefix, d[i], d[j]);
          var p :| 0 <= p < |prefix| && prefix[p] == d[i] && d[j] !in prefix[..p + 1];
          assert s[..p + 1] == prefix[..p + 1];
        } else {
          assert last !in prefix;
          assert d[i] in d;
          var p :| 0 <= p < |prefix| && prefix[p] == d[i];
          assert s[..p + 1] == prefix[..p + 1];
        }
      }
    }
  }

  /** A sequence without repeats is its own `Distinct`. */
  lemma {:induction false} DistinctOfDistinct(s: seq<Value>)
    requires NoDuplicates(s)
    ensures Distinct(s) == s
    decreases |s|
  {
    if s != [] {
      var prefix := s[..|s| - 1];
      DistinctOfDistinct(prefix);
      DistinctFirstSeen(prefix);
    }
  }

  /** The elements of `s` not in `other`, in order. */
  function Without(s: seq<Value>, other: seq<Value>): seq<Value>
    decreases |s|
  {
    if s == [] then []
    else Without(s[..|s| - 1], other) + (if s[|s| - 1] in other then [] else [s[|s| - 1]])
  }

  lemma {:induction false} WithoutMembership(s: seq<Value>, other: seq<Value>)
    ensures forall x :: x in Without(s, other) <==> x in s && x !in other
    decreases |s|
  {
    if s != [] {
      WithoutMembership(s[..|s| - 1], other);
      assert s == s[..|s| - 1] + [s[|s| - 1]];
    }
  }

  /** The distinct elements of `a + b`, for `a` and `b` without repeats: `a`, then what `b` adds. */
  lemma {:induction false} DistinctAppend(a: seq<Value>, b: seq<Value>)
    requires NoDuplicates(a) && NoDuplicates(b)
    ensures Distinct(a + b) == a + Without(b, a)
    decreases |b|
  {
    if b == [] {
      assert a + b == a;
      DistinctOfDistinct(a);
    } else {
      var prefix, last := b[..|b| - 1], b[|b| - 1];
      DistinctAppend(a, prefix);
      WithoutMembership(prefix, a);
      assert (a + b)[..|a + b| - 1] == a + prefix;
      assert last !in prefix;
    }
  }

  /** The keys of a table pairing: the source's keys in first-seen order, then the target's keys the source lacks. */
  lemma UnionKeysOrder(sourceRows: seq<Row>, targetRows: seq<Row>)
    ensures UnionKeys(sourceRows, targetRows)
         == Distinct(KeysOf(sourceRows)) + Without(Distinct(KeysOf(targetRows)), Distinct(KeysOf(sourceRows)))
    ensures NoDuplicates(UnionKeys(sourceRows, targetRows))
    ensures forall k :: k in UnionKeys(sourceRows, targetRows) <==> k in KeysOf(sourceRows) || k in KeysOf(targetRows)
  {
    DistinctFirstSeen(KeysOf(sourceRows));
    DistinctFirstSeen(KeysOf(targetRows));
    DistinctAppend(Distinct(KeysOf(sourceRows)), Distinct(KeysOf(targetRows)));
    DistinctFirstSeen(Distinct(KeysOf(sourceRows)) + Distinct(KeysOf(targetRows)));
  }

  /** Row `i` is the last row of `rows` with key `k`. */
  predicate LastWithKey(rows: seq<Row>, k: Value, i: int)
  {
    0 <= i < |rows| && KeyOf(rows[i]) == k && forall j :: i < j < |rows| ==> KeyOf(rows[j]) != k
  }

  /** The key map holds every key of the table, each bound to the last row carrying it. */
  lemma {:induction false} KeyMapLastWins(rows: seq<Row>)
    ensures forall k :: k in KeyMap(rows) <==> k in KeysOf(rows)
    ensures forall k :: k in KeyMap(rows) ==> exists i :: LastWithKey(rows, k, i) && KeyMap(rows)[k] == rows[i]
    decreases |rows|
  {
    if rows != [] {
      var prefix, last := rows[..|rows| - 1], rows[|rows| - 1];
      KeyMapLastWins(prefix);
      assert KeysOf(rows) == KeysOf(prefix) + [KeyOf(last)];
      forall k | k in KeyMap(rows)
        ensures exists i :: LastWithKey(rows, k, i) && KeyMap(rows)[k] == rows[i]
      {
        if k == KeyOf(last) {
          assert LastWithKey(rows, k, |rows| - 1);
        } else {
          assert k in KeyMap(prefix);
          var i :| LastWithKey(prefix, k, i) && KeyMap(prefix)[k] == prefix[i];
          assert LastWithKey(rows, k, i);
        }
      }
    }
  }

  /** Every pair of a table's view has a side, and so exactly one class. */
  lemma EveryPairClassified(sourceRows: seq<Row>, targetRows: seq<Row>)
    ensures var es := EntriesFor(UnionKeys(sourceRows, targetRows), KeyMap(sourceRows), KeyMap(targetRows));
      forall i :: 0 <= i < |es| ==> es[i].sourceRow.Some? || es[i].targetRow.Some?
  {
    UnionKeysOrder(sourceRows, targetRows);
    KeyMapLastWins(sourceRows);
    KeyMapLastWins(targetRows);
  }

  /** A table the source lacks shows every one of its rows as missing in the source. */
  lemma AbsentSourceTable(t: string, source: Dataset, target: Dataset, mode: string)
    requires t !in source
    ensures forall e :: e in TableView(t, source, target, mode) ==> MissingInSource(e)
  {
    var s, r := RowsOf(source, t), RowsOf(target, t);
    var keys := UnionKeys(s, r);
    var es := EntriesFor(keys, KeyMap(s), KeyMap(r));
    assert s == [];
    UnionKeysOrder(s, r);
    KeyMapLastWins(s);
    KeyMapLastWins(r);
    FilterEntriesMembership(mode, es);
    forall e | e in TableView(t, source, target, mode)
      ensures MissingInSource(e)
    {
      var i :| 0 <= i < |es| && es[i] == e;
      assert keys[i] in keys;
      assert keys[i] !in KeysOf(s);
      assert keys[i] in KeyMap(r);
    }
  }

  /** A table is shown only if it passes the search, and then with at least one pair. */
  lemma SearchFilter(source: Dataset, target: Dataset, search: string, mode: string, t: string)
    ensures t in VisibleTables(source, target, search, mode)
        <==> (t in source || t in target) && NameMatches(t, search) && TableView(t, source, target, mode) != []
    ensures search == [] ==> NameMatches(t, search)
  {
  }
}
