/**
  Concrete runs of the model on small datasets: a comparison followed by a
  row merge, a deletion that empties its table, and a partial cell overwrite.
 */
module Scenarios {
  import opened JsonValues
  import opened Merge
  import opened Reconcile
  import ReconcileLaws

  const Alice: Row := map["key" := Str("u1"), "name" := Str("Alice")]
  const Bob: Row := map["key" := Str("u1"), "name" := Str("Bob")]
  const Carl: Row := map["key" := Str("u2"), "name" := Str("Carl")]

  /** `Set` over the keys u1, u1, u2 keeps u1 once, then u2. */
  lemma ThreeKeys()
    ensures Distinct([Str("u1"), Str("u1"), Str("u2")]) == [Str("u1"), Str("u2")]
  {
    var s := [Str("u1"), Str("u1"), Str("u2")];
    assert s[..2] == [Str("u1"), Str("u1")];
    assert s[..2][..1] == [Str("u1")];
    assert Distinct([Str("u1")]) == [Str("u1")];
    assert Distinct(s[..2]) == [Str("u1")];
  }

  /** The source side's keys: u1. */
  lemma SourceKeys()
    ensures Distinct(KeysOf([Alice])) == [Str("u1")]
  {
    assert KeysOf([Alice]) == [Str("u1")];
  }

  /** The target side's keys: u1, then u2. */
  lemma TargetKeys()
    ensures Distinct(KeysOf([Bob, Carl])) == [Str("u1"), Str("u2")]
  {
    var s := [Str("u1"), Str("u2")];
    assert KeysOf([Bob, Carl]) == s;
    assert s[..1] == [Str("u1")];
    assert Distinct(s[..1]) == [Str("u1")];
    assert Str("u2") !in [Str("u1")] by { assert "u1"[1] != "u2"[1]; }
  }

  /** The keys of the example table: u1 from both sides, then u2 from the target. */
  lemma UsersKeys()
    ensures UnionKeys([Alice], [Bob, Carl]) == [Str("u1"), Str("u2")]
  {
    SourceKeys();
    TargetKeys();
    assert [Str("u1")] + [Str("u1"), Str("u2")] == [Str("u1"), Str("u1"), Str("u2")];
    ThreeKeys();
  }

  /** The key maps of the example table's two sides. */
  lemma UsersMaps()
    ensures KeyMap([Alice]) == map[Str("u1") := Alice]
    ensures KeyMap([Bob, Carl]) == map[Str("u1") := Bob, Str("u2") := Carl]
  {
    assert [Bob, Carl][..1] == [Bob];
    assert KeyMap([Bob]) == map[Str("u1") := Bob];
    assert KeyMap([Bob, Carl]) == KeyMap([Bob])[Str("u2") := Carl];
  }

  /** The pairs of the example table, before filtering. */
  lemma UsersEntries()
    ensures EntriesFor([Str("u1"), Str("u2")], map[Str("u1") := Alice], map[Str("u1") := Bob, Str("u2") := Carl])
            == [Entry(Some(Alice), Some(Bob)), Entry(None, Some(Carl))]
  {
  }

  /**
    Comparing source `{Users: [u1 Alice]}` with target `{Users: [u1 Bob, u2 Carl]}`:
    u1 is a differing pair and u2 is missing in the source, in that order.
   */
  lemma UsersComparison()
    ensures TableView("Users", map["Users" := [Alice]], map["Users" := [Bob, Carl]], "all")
            == [Entry(Some(Alice), Some(Bob)), Entry(None, Some(Carl))]
    ensures IsDiff(Entry(Some(Alice), Some(Bob)))
    ensures MissingInSource(Entry(None, Some(Carl)))
  {
    UsersKeys();
    UsersMaps();
    UsersEntries();
    ReconcileLaws.AllKeepsEverything([Entry(Some(Alice), Some(Bob)), Entry(None, Some(Carl))]);
    assert RowsOf(map["Users" := [Alice]], "Users") == [Alice];
    assert RowsOf(map["Users" := [Bob, Carl]], "Users") == [Bob, Carl];
    assert ColumnDiffers(Alice, Bob, "name");
  }

  /** Updating u1 from the source replaces Bob by Alice in place, keeps Carl and counts one copied row. */
  lemma UsersMerge()
    ensures MergeResult(map["Users" := [Bob, Carl]], map["Users" := [Alice]], [],
                        [RowSelection("Users", Str("u1"), Some(Alice), Some(Bob))], [])
            == State(map["Users" := [Alice, Carl]], Summary(0, 1, 0, 0))
  {
    var sel := RowSelection("Users", Str("u1"), Some(Alice), Some(Bob));
    var st := TablePhase(State(map["Users" := [Bob, Carl]], NoChanges), map["Users" := [Alice]], []);
    assert st == State(map["Users" := [Bob, Carl]], NoChanges);
    assert [sel][..0] == [];
    assert RowPhase(st, [sel]) == ApplyRow(st, sel);
    assert KeyOf(Bob) == Str("u1");
    assert FindIndex([Bob, Carl], Str("u1")) == 0;
    assert [Bob, Carl][0 := Alice] == [Alice, Carl];
    assert ApplyRow(st, sel) == State(map["Users" := [Alice, Carl]], Summary(0, 1, 0, 0));
  }

  /** Deleting the only row of a table removes the row and then the table. */
  lemma DeleteEmptiesTable()
    ensures var row := map["key" := Str("k1")];
      MergeResult(map["A" := [row]], map[], [], [RowSelection("A", Str("k1"), None, Some(row))], [])
      == State(map[], Summary(0, 0, 1, 1))
  {
    var row := map["key" := Str("k1")];
    assert FindIndex([row], Str("k1")) == 0;
    assert map["A" := [row]] - {"A"} == map[];
  }

  const OldRow: Row := map["key" := Str("k1"), "name" := Str("old"), "age" := Num(30.0)]
  const NewRow: Row := map["key" := Str("k1"), "name" := Str("new"), "age" := Num(99.0)]
  const MergedRow: Row := map["key" := Str("k1"), "name" := Str("new"), "age" := Num(30.0)]

  /** Overlaying `name` takes the new name and keeps the old age. */
  lemma NameOverlay()
    ensures Overlay(OldRow, ["name"], NewRow) == MergedRow
  {
    var merged := Overlay(OldRow, ["name"], NewRow);
    assert merged.Keys == {"key", "name", "age"};
  }

  /** Overwriting only `name` takes the source's name and keeps the target's age. */
  lemma PartialCellOverwrite()
    ensures MergeResult(map["T" := [OldRow]], map[], [], [], [CellSelection("T", Str("k1"), ["name"], Some(NewRow))])
            == State(map["T" := [MergedRow]], NoChanges)
  {
    var sel := CellSelection("T", Str("k1"), ["name"], Some(NewRow));
    var st := RowPhase(TablePhase(State(map["T" := [OldRow]], NoChanges), map[], []), []);
    assert st == State(map["T" := [OldRow]], NoChanges);
    assert [sel][..0] == [];
    assert CellPhase(st, [sel]) == ApplyCell(st, sel);
    assert FindIndex([OldRow], Str("k1")) == 0;
    NameOverlay();
    assert [OldRow][0 := MergedRow] == [MergedRow];
  }
}
