/**
 Per-table ingestion: the body of `worker` in main.go (lines 133-177) for one
 table taken from the job channel.
 */
module Ingestion {
  import opened Wrappers
  import opened Search
  import opened Aggregate

  /**
   One input table as its reader delivers it: either the header could not be
   read, or the header together with the data rows read before end of input
   or the first read error (the rows merged before an error are kept).
   */
  datatype Source = Unreadable | Readable(header: seq<string>, rows: seq<seq<string>>)

  /**
   The reader rejects a record whose field count differs from the header's
   with an error, which ends the table, so every delivered row fits the header.
   */
  type Table = t: Source | t.Unreadable? || RowsFit(t.header, t.rows) witness Unreadable

  /** The worker merges a table only when its header was read and names the id column. */
  predicate Accepted(id: string, t: Table)
  {
    t.Readable? && id in t.header
  }

  /** The identity values a table contributes. */
  function TableKeys(id: string, t: Table): set<string>
  {
    if Accepted(id, t) then Elems(KeyColumn(t.rows, IndexOf(id, t.header))) else {}
  }

  /** The column names a table contributes. */
  function TableColumns(id: string, t: Table): set<string>
  {
    if Accepted(id, t) then Elems(t.header) else {}
  }

  /**
   The value a table leaves in cell (`key`, `column`), if it writes that cell:
   the field of the last row with that identity value, at the last header
   position with that name.
   */
  function TableCell(id: string, t: Table, key: string, column: string): Option<string>
  {
    if Accepted(id, t) then
      var j := LastIndexOf(key, KeyColumn(t.rows, IndexOf(id, t.header)));
      if j >= 0 && column in t.header then Some(t.rows[j][LastIndexOf(column, t.header)]) else None
    else None
  }

  /**
   Ingests one table (main.go:136-170): skipped when the header cannot be read
   or lacks the id column; otherwise every header name is registered and then
   each row is merged under its identity value.
   */
  function Ingest(a: Agg, id: string, t: Table): (r: Agg)
    ensures !Accepted(id, t) ==> r == a
    ensures r.columns == a.columns + TableColumns(id, t)
    ensures r.records.Keys == a.records.Keys + TableKeys(id, t)
  {
    match t
    case Unreadable => a
    case Readable(header, rows) =>
      var idIndex := IndexOf(id, header);
      if idIndex > -1 then MergeRows(RegisterColumns(a, header), header, idIndex, rows)
      else a
  }

  lemma LookupRecordOf(a: Agg, k: string, c: string)
    ensures Lookup(a, k, c) == if c in RecordOf(a, k) then Some(RecordOf(a, k)[c]) else None
  {
  }

  /** A cell after ingesting a table is the table's value if it writes the cell, else the old one. */
  lemma IngestCell(a: Agg, id: string, t: Table, k: string, c: string)
    ensures Lookup(Ingest(a, id, t), k, c) ==
              if TableCell(id, t, k, c).Some? then TableCell(id, t, k, c) else Lookup(a, k, c)
  {
    LookupRecordOf(a, k, c);
    LookupRecordOf(Ingest(a, id, t), k, c);
    if Accepted(id, t) {
      var idIndex := IndexOf(id, t.header);
      var b := RegisterColumns(a, t.header);
      assert RecordOf(b, k) == RecordOf(a, k);
      MergeRowsRecord(b, t.header, idIndex, t.rows, k);
    }
  }

  /** Aggregates that agree on columns, identity values and every cell are equal. */
  lemma AggExtensional(a: Agg, b: Agg)
    requires a.columns == b.columns && a.records.Keys == b.records.Keys
    requires forall k, c :: Lookup(a, k, c) == Lookup(b, k, c)
    ensures a == b
  {
    forall k | k in a.records
      ensures a.records[k] == b.records[k]
    {
      forall c | c in a.records[k] ensures c in b.records[k] && a.records[k][c] == b.records[k][c] {
        assert Lookup(a, k, c) == Lookup(b, k, c);
      }
      forall c | c in b.records[k] ensures c in a.records[k] {
        assert Lookup(a, k, c) == Lookup(b, k, c);
      }
    }
  }

  /** Ingesting the same table twice gives the aggregate ingesting it once gives. */
  lemma IngestIdempotent(a: Agg, id: string, t: Table)
    ensures Ingest(Ingest(a, id, t), id, t) == Ingest(a, id, t)
  {
    var once := Ingest(a, id, t);
    var twice := Ingest(once, id, t);
    forall k, c ensures Lookup(twice, k, c) == Lookup(once, k, c) {
      IngestCell(once, id, t, k, c);
      IngestCell(a, id, t, k, c);
    }
    AggExtensional(twice, once);
  }

  /** Ingestion keeps every record's columns among the observed columns. */
  lemma IngestCovered(a: Agg, id: string, t: Table)
    requires Covered(a)
    ensures Covered(Ingest(a, id, t))
  {
    if Accepted(id, t) {
      var b := RegisterColumns(a, t.header);
      MergeRowsCovered(b, t.header, IndexOf(id, t.header), t.rows);
    }
  }

  /** Every record's id column holds its own identity value. */
  predicate IdCellsMatch(a: Agg, id: string)
  {
    forall k :: k in a.records ==> id in a.records[k] && a.records[k][id] == k
  }

  /**
   A table that names the id column at most once keeps every record's id cell
   equal to its identity value: the row that keys a record also writes that
   cell.
   */
  lemma IngestIdCells(a: Agg, id: string, t: Table)
    requires IdCellsMatch(a, id)
    requires t.Readable? ==> IndexOf(id, t.header) == LastIndexOf(id, t.header)
    ensures IdCellsMatch(Ingest(a, id, t), id)
  {
    var r := Ingest(a, id, t);
    forall k | k in r.records
      ensures id in r.records[k] && r.records[k][id] == k
    {
      IngestCell(a, id, t, k, id);
      if TableCell(id, t, k, id).None? {
        assert k in a.records;
      }
    }
  }

  /** With the id column named twice, a record is keyed by the first field but shows the last. */
  lemma DuplicateIdColumn()
    ensures Ingest(Empty, "Id", Readable(["Id", "Id"], [["1", "2"]])).records == map["1" := map["Id" := "2"]]
  {
    var t: Table := Readable(["Id", "Id"], [["1", "2"]]);
    assert IndexOf("Id", t.header) == 0;
    assert Elems(t.header) == {"Id"};
    var b := RegisterColumns(Empty, t.header);
    assert t.rows[..0] == [];
    assert MergeRows(b, t.header, 0, t.rows) == MergeRow(b, t.header, 0, ["1", "2"]);
    assert ["Id", "Id"][..1] == ["Id"] && ["1", "2"][..1] == ["1"];
    assert WriteCells(map[], t.header, ["1", "2"]) == map["Id" := "2"];
  }
}
