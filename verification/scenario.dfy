/**
 A worked two-file example: `a.csv` holds
 `Id,Name` with rows `1,Alice` and `2,Bob`; `b.csv` holds `Id,Phone` with rows
 `1,555-1111` and `3,555-3333`; the id column is `Id` and the requested order
 is `Id,Name,Phone`.
 */
module Scenario {
  import opened Search
  import opened Lex
  import opened Sorting
  import opened Aggregate
  import opened Ingestion
  import opened Pool
  import opened Emission

  const FileA: Table := Readable(["Id", "Name"], [["1", "Alice"], ["2", "Bob"]])
  const FileB: Table := Readable(["Id", "Phone"], [["1", "555-1111"], ["3", "555-3333"]])

  const AfterA: Agg := Agg({"Id", "Name"}, map[
    "1" := map["Id" := "1", "Name" := "Alice"],
    "2" := map["Id" := "2", "Name" := "Bob"]])

  const AfterB: Agg := Agg({"Id", "Phone"}, map[
    "1" := map["Id" := "1", "Phone" := "555-1111"],
    "3" := map["Id" := "3", "Phone" := "555-3333"]])

  const Merged: Agg := Agg({"Id", "Name", "Phone"}, map[
    "1" := map["Id" := "1", "Name" := "Alice", "Phone" := "555-1111"],
    "2" := map["Id" := "2", "Name" := "Bob"],
    "3" := map["Id" := "3", "Phone" := "555-3333"]])

  lemma WriteTwoCells(rec: Record, x: string, y: string, u: string, v: string)
    ensures WriteCells(rec, [x, y], [u, v]) == rec[x := u][y := v]
  {
    assert [x, y][..1] == [x] && [u, v][..1] == [u];
    assert [x][..0] == [] && [u][..0] == [];
  }

  lemma MergeTwoRows(a: Agg, header: seq<string>, idIndex: nat, r1: seq<string>, r2: seq<string>)
    requires idIndex < |header| && |r1| == |header| && |r2| == |header|
    ensures MergeRows(a, header, idIndex, [r1, r2]) ==
              MergeRow(MergeRow(a, header, idIndex, r1), header, idIndex, r2)
  {
    var rows := [r1, r2];
    assert rows[..1] == [r1];
    assert MergeRows(a, header, idIndex, rows) == MergeRow(MergeRows(a, header, idIndex, [r1]), header, idIndex, r2);
    assert [r1][..0] == [];
    assert MergeRows(a, header, idIndex, [r1]) == MergeRow(MergeRows(a, header, idIndex, []), header, idIndex, r1);
  }

  lemma IngestTwoTables(a: Agg, id: string, t1: Table, t2: Table)
    ensures IngestAll(a, id, [t1, t2]) == Ingest(Ingest(a, id, t1), id, t2)
  {
    var ts := [t1, t2];
    assert ts[..1] == [t1];
    assert IngestAll(a, id, ts) == Ingest(IngestAll(a, id, [t1]), id, t2);
    assert [t1][..0] == [];
    assert IngestAll(a, id, [t1]) == Ingest(IngestAll(a, id, []), id, t1);
  }

  /** Ingesting a table whose header has two columns, of which the first is the id. */
  lemma IngestTwoColumnTable(a: Agg, t: Table)
    requires t.Readable? && |t.header| == 2 && t.header[0] == "Id" && |t.rows| == 2
    ensures Ingest(a, "Id", t) ==
              var b := a.(columns := a.columns + {t.header[0], t.header[1]});
              MergeRow(MergeRow(b, t.header, 0, t.rows[0]), t.header, 0, t.rows[1])
  {
    assert IndexOf("Id", t.header) == 0;
    assert t.rows == [t.rows[0], t.rows[1]];
    MergeTwoRows(RegisterColumns(a, t.header), t.header, 0, t.rows[0], t.rows[1]);
    assert Elems(t.header) == {t.header[0], t.header[1]} by {
      assert t.header == [t.header[0], t.header[1]];
    }
  }

  lemma MergeTwoCellRow(a: Agg, x: string, y: string, u: string, v: string)
    ensures MergeRow(a, [x, y], 0, [u, v]) == a.(records := a.records[u := RecordOf(a, u)[x := u][y := v]])
  {
    WriteTwoCells(RecordOf(a, u), x, y, u, v);
  }

  lemma IngestFileA(a: Agg)
    ensures Ingest(a, "Id", FileA) ==
              var b := a.(columns := a.columns + {"Id", "Name"});
              var m := b.(records := b.records["1" := RecordOf(b, "1")["Id" := "1"]["Name" := "Alice"]]);
              m.(records := m.records["2" := RecordOf(m, "2")["Id" := "2"]["Name" := "Bob"]])
  {
    IngestTwoColumnTable(a, FileA);
    var b := a.(columns := a.columns + {"Id", "Name"});
    MergeTwoCellRow(b, "Id", "Name", "1", "Alice");
    var m := MergeRow(b, ["Id", "Name"], 0, ["1", "Alice"]);
    MergeTwoCellRow(m, "Id", "Name", "2", "Bob");
  }

  lemma IngestFileB(a: Agg)
    ensures Ingest(a, "Id", FileB) ==
              var b := a.(columns := a.columns + {"Id", "Phone"});
              var m := b.(records := b.records["1" := RecordOf(b, "1")["Id" := "1"]["Phone" := "555-1111"]]);
              m.(records := m.records["3" := RecordOf(m, "3")["Id" := "3"]["Phone" := "555-3333"]])
  {
    IngestTwoColumnTable(a, FileB);
    var b := a.(columns := a.columns + {"Id", "Phone"});
    MergeTwoCellRow(b, "Id", "Phone", "1", "555-1111");
    var m := MergeRow(b, ["Id", "Phone"], 0, ["1", "555-1111"]);
    MergeTwoCellRow(m, "Id", "Phone", "3", "555-3333");
  }

  lemma FileAOnEmpty()
    ensures Ingest(Empty, "Id", FileA) == AfterA
  {
    IngestFileA(Empty);
    var b := Empty.(columns := {"Id", "Name"});
    var m := b.(records := map["1" := map["Id" := "1", "Name" := "Alice"]]);
    assert RecordOf(m, "2") == map[];
    assert m.records["2" := map["Id" := "2", "Name" := "Bob"]] == AfterA.records;
  }

  lemma FileBOnEmpty()
    ensures Ingest(Empty, "Id", FileB) == AfterB
  {
    IngestFileB(Empty);
    var b := Empty.(columns := {"Id", "Phone"});
    var m := b.(records := map["1" := map["Id" := "1", "Phone" := "555-1111"]]);
    assert RecordOf(m, "3") == map[];
    assert m.records["3" := map["Id" := "3", "Phone" := "555-3333"]] == AfterB.records;
  }

  lemma FileBAfterA()
    ensures Ingest(AfterA, "Id", FileB) == Merged
  {
    IngestFileB(AfterA);
    UpdatesBAfterA();
  }

  lemma UpdatesBAfterA()
    ensures var b := AfterA.(columns := AfterA.columns + {"Id", "Phone"});
            var m := b.(records := b.records["1" := RecordOf(b, "1")["Id" := "1"]["Phone" := "555-1111"]]);
            m.(records := m.records["3" := RecordOf(m, "3")["Id" := "3"]["Phone" := "555-3333"]]) == Merged
  {
    var b := AfterA.(columns := AfterA.columns + {"Id", "Phone"});
    assert b.columns == Merged.columns;
    assert RecordOf(b, "1") == map["Id" := "1", "Name" := "Alice"];
    var m := b.(records := b.records["1" := RecordOf(b, "1")["Id" := "1"]["Phone" := "555-1111"]]);
    assert RecordOf(m, "3") == map[];
    var r3 := RecordOf(m, "3")["Id" := "3"]["Phone" := "555-3333"];
    assert r3 == Merged.records["3"];
    var final := m.records["3" := r3];
    assert final.Keys == Merged.records.Keys;
    assert final["1"] == Merged.records["1"];
    assert final["2"] == Merged.records["2"];
    assert final == Merged.records;
  }

  lemma FileAAfterB()
    ensures Ingest(AfterB, "Id", FileA) == Merged
  {
    IngestFileA(AfterB);
    UpdatesAAfterB();
  }

  lemma UpdatesAAfterB()
    ensures var b := AfterB.(columns := AfterB.columns + {"Id", "Name"});
            var m := b.(records := b.records["1" := RecordOf(b, "1")["Id" := "1"]["Name" := "Alice"]]);
            m.(records := m.records["2" := RecordOf(m, "2")["Id" := "2"]["Name" := "Bob"]]) == Merged
  {
    var b := AfterB.(columns := AfterB.columns + {"Id", "Name"});
    assert b.columns == Merged.columns;
    assert RecordOf(b, "1") == map["Id" := "1", "Phone" := "555-1111"];
    var m := b.(records := b.records["1" := RecordOf(b, "1")["Id" := "1"]["Name" := "Alice"]]);
    assert RecordOf(m, "2") == map[];
    var r2 := RecordOf(m, "2")["Id" := "2"]["Name" := "Bob"];
    assert r2 == Merged.records["2"];
    var final := m.records["2" := r2];
    assert final.Keys == Merged.records.Keys;
    assert final["1"] == Merged.records["1"];
    assert final["3"] == Merged.records["3"];
    assert final == Merged.records;
  }

  /** Either processing order yields the same aggregate. */
  lemma ScenarioAggregate()
    ensures IngestAll(Empty, "Id", [FileA, FileB]) == Merged
    ensures IngestAll(Empty, "Id", [FileB, FileA]) == Merged
  {
    IngestTwoTables(Empty, "Id", FileA, FileB);
    IngestTwoTables(Empty, "Id", FileB, FileA);
    FileAOnEmpty();
    FileBAfterA();
    FileBOnEmpty();
    FileAAfterB();
  }

  const Requested: seq<string> := ["Id", "Name", "Phone"]

  lemma ScenarioHeader(columnOrder: seq<string>)
    requires Elems(columnOrder) == Merged.columns
    ensures AppendMissing(Requested, columnOrder) == Requested
  {
    assert Elems(Requested) == Merged.columns;
    AppendNothing(Requested, columnOrder);
  }

  lemma ScenarioKeys(keyOrder: seq<string>)
    requires Distinct(keyOrder) && Elems(keyOrder) == Merged.records.Keys
    ensures SortKeys(keyOrder) == ["1", "2", "3"]
  {
    var sorted := ["1", "2", "3"];
    assert Less("1", "2") && Less("1", "3") && Less("2", "3");
    assert StrictlyAscending(sorted);
    SameElems(SortKeys(keyOrder), keyOrder);
    assert Elems(sorted) == Merged.records.Keys;
    SortedUnique(SortKeys(keyOrder), sorted);
  }

  lemma ScenarioLines()
    ensures Lines(Merged.records, ["1", "2", "3"], Requested) ==
              [["1", "Alice", "555-1111"], ["2", "Bob", ""], ["3", "", "555-3333"]]
  {
    var lines := Lines(Merged.records, ["1", "2", "3"], Requested);
    assert |lines| == 3;
    assert lines[0] == Line(Merged.records["1"], Requested) == ["1", "Alice", "555-1111"];
    assert lines[1] == Line(Merged.records["2"], Requested) == ["2", "Bob", ""];
    assert lines[2] == Line(Merged.records["3"], Requested) == ["3", "", "555-3333"];
  }

  /** The output is the documented table, whatever order the maps are enumerated in. */
  lemma ScenarioOutput(columnOrder: seq<string>, keyOrder: seq<string>)
    requires Elems(columnOrder) == Merged.columns && Distinct(columnOrder)
    requires Distinct(keyOrder) && Elems(keyOrder) == Merged.records.Keys
    ensures Emit(Merged, Requested, columnOrder, keyOrder) ==
              Output(["Id", "Name", "Phone"], [["1", "Alice", "555-1111"], ["2", "Bob", ""], ["3", "", "555-3333"]])
  {
    ScenarioHeader(columnOrder);
    ScenarioKeys(keyOrder);
    ScenarioLines();
  }
}
