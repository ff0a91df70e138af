/**
 The shared aggregate of the merge utility (`Data` in main.go) and the
 row-level merge a worker performs under the lock.

 `columns` stands for the `headers` map, whose entries always map a name to
 itself, so the set of its keys carries all of its content. `records` maps an
 identity value to that record's column-to-cell map.
 */
module Aggregate {
  import opened Wrappers
  import opened Search

  type Record = map<string, string>

  datatype Agg = Agg(columns: set<string>, records: map<string, Record>)

  /** The aggregate before any table is read. */
  const Empty: Agg := Agg({}, map[])

  /** The record for `key`, or the fresh empty record created on first sighting. */
  function RecordOf(a: Agg, key: string): Record
  {
    if key in a.records then a.records[key] else map[]
  }

  /** The value a record holds for `column`, if any. */
  function Field(rec: Record, column: string): Option<string>
  {
    if column in rec then Some(rec[column]) else None
  }

  /** The cell stored for (`key`, `column`), if any. */
  function Lookup(a: Agg, key: string, column: string): Option<string>
  {
    if key in a.records then Field(a.records[key], column) else None
  }

  /** Invariant: every column of every record is an observed column. */
  predicate Covered(a: Agg)
  {
    forall k, c :: k in a.records && c in a.records[k] ==> c in a.columns
  }

  /** Every row has one field per header column. */
  predicate RowsFit(header: seq<string>, rows: seq<seq<string>>)
  {
    forall j :: 0 <= j < |rows| ==> |rows[j]| == |header|
  }

  /** The identity value of each row, in row order. */
  function KeyColumn(rows: seq<seq<string>>, idIndex: nat): (ids: seq<string>)
    requires forall j :: 0 <= j < |rows| ==> idIndex < |rows[j]|
    ensures |ids| == |rows|
    ensures forall j :: 0 <= j < |rows| ==> ids[j] == rows[j][idIndex]
  {
    if |rows| == 0 then []
    else KeyColumn(rows[..|rows| - 1], idIndex) + [rows[|rows| - 1][idIndex]]
  }

  /**
   Registers each header name as an observed column, one at a time
   (main.go:143-149). Records are untouched.
   */
  function RegisterColumns(a: Agg, header: seq<string>): (r: Agg)
    ensures r.columns == a.columns + Elems(header)
    ensures r.records == a.records
    decreases |header|
  {
    if |header| == 0 then a
    else
      assert Elems(header) == {header[0]} + Elems(header[1..]);
      RegisterColumns(a.(columns := a.columns + {header[0]}), header[1..])
  }

  /**
   Writes `row[i]` under `header[i]` for each position in order
   (main.go:165-167): columns named by the header take the value of their
   LAST position, every other column of `rec` is kept.
   */
  function WriteCells(rec: Record, header: seq<string>, row: seq<string>): (r: Record)
    requires |row| == |header|
    ensures r.Keys == rec.Keys + Elems(header)
    ensures forall c :: c in header ==> r[c] == row[LastIndexOf(c, header)]
    ensures forall c :: c in rec && c !in header ==> r[c] == rec[c]
    decreases |header|
  {
    if |header| == 0 then rec
    else
      var n := |header| - 1;
      assert Elems(header) == Elems(header[..n]) + {header[n]} by {
        assert header == header[..n] + [header[n]];
      }
      WriteCells(rec, header[..n], row[..n])[header[n] := row[n]]
  }

  /** Writing a whole row over a record written from the same header erases the first write. */
  lemma WriteCellsAbsorb(rec: Record, header: seq<string>, first: seq<string>, second: seq<string>)
    requires |first| == |header| && |second| == |header|
    ensures WriteCells(WriteCells(rec, header, first), header, second) == WriteCells(rec, header, second)
  {
  }

  /**
   Merges one data row under its identity value `row[idIndex]`
   (main.go:158-167): the record is created if absent, the header's columns
   are overwritten, and nothing else changes.
   */
  function MergeRow(a: Agg, header: seq<string>, idIndex: nat, row: seq<string>): (r: Agg)
    requires idIndex < |header| && |row| == |header|
    ensures r.columns == a.columns
    ensures r.records.Keys == a.records.Keys + {row[idIndex]}
    ensures forall k :: k in a.records && k != row[idIndex] ==> r.records[k] == a.records[k]
    ensures r.records[row[idIndex]].Keys == RecordOf(a, row[idIndex]).Keys + Elems(header)
    ensures forall c :: c in header ==> r.records[row[idIndex]][c] == row[LastIndexOf(c, header)]
    ensures forall c :: c in RecordOf(a, row[idIndex]) && c !in header ==>
              r.records[row[idIndex]][c] == RecordOf(a, row[idIndex])[c]
  {
    var key := row[idIndex];
    a.(records := a.records[key := WriteCells(RecordOf(a, key), header, row)])
  }

  /** Merges the rows of one table in order (main.go:151-170). */
  function MergeRows(a: Agg, header: seq<string>, idIndex: nat, rows: seq<seq<string>>): (r: Agg)
    requires idIndex < |header| && RowsFit(header, rows)
    ensures r.columns == a.columns
    ensures r.records.Keys == a.records.Keys + Elems(KeyColumn(rows, idIndex))
    decreases |rows|
  {
    if |rows| == 0 then a
    else
      var n := |rows| - 1;
      var ids := KeyColumn(rows, idIndex);
      assert KeyColumn(rows[..n], idIndex) == ids[..n];
      assert Elems(ids) == Elems(ids[..n]) + {ids[n]} by {
        assert ids == ids[..n] + [ids[n]];
      }
      MergeRow(MergeRows(a, header, idIndex, rows[..n]), header, idIndex, rows[n])
  }

  /**
   After merging a table's rows, a record holds its previous cells overwritten
   by the LAST row carrying its identity value; a record no row names is
   unchanged.
   */
  lemma {:induction false} MergeRowsRecord(a: Agg, header: seq<string>, idIndex: nat, rows: seq<seq<string>>, k: string)
    requires idIndex < |header| && RowsFit(header, rows)
    ensures var j := LastIndexOf(k, KeyColumn(rows, idIndex));
            RecordOf(MergeRows(a, header, idIndex, rows), k) ==
              if j >= 0 then WriteCells(RecordOf(a, k), header, rows[j]) else RecordOf(a, k)
    decreases |rows|
  {
    if |rows| > 0 {
      var n := |rows| - 1;
      var ids := KeyColumn(rows, idIndex);
      var front := rows[..n];
      assert KeyColumn(front, idIndex) == ids[..n];
      MergeRowsRecord(a, header, idIndex, front, k);
      var prev := MergeRows(a, header, idIndex, front);
      var j := LastIndexOf(k, ids[..n]);
      assert j >= 0 ==> front[j] == rows[j];
      assert MergeRows(a, header, idIndex, rows) == MergeRow(prev, header, idIndex, rows[n]);
      MergeRowRecord(prev, header, idIndex, rows[n], k);
      if ids[n] == k {
        assert LastIndexOf(k, ids) == n;
        if j >= 0 {
          WriteCellsAbsorb(RecordOf(a, k), header, rows[j], rows[n]);
        }
      } else {
        assert LastIndexOf(k, ids) == j;
      }
    }
  }

  /** One merged row changes only the record it names. */
  lemma MergeRowRecord(a: Agg, header: seq<string>, idIndex: nat, row: seq<string>, k: string)
    requires idIndex < |header| && |row| == |header|
    ensures RecordOf(MergeRow(a, header, idIndex, row), k) ==
              if row[idIndex] == k then WriteCells(RecordOf(a, k), header, row) else RecordOf(a, k)
  {
  }

  /** Merging rows whose header is already observed keeps the invariant. */
  lemma {:induction false} MergeRowsCovered(a: Agg, header: seq<string>, idIndex: nat, rows: seq<seq<string>>)
    requires idIndex < |header| && RowsFit(header, rows)
    requires Covered(a) && Elems(header) <= a.columns
    ensures Covered(MergeRows(a, header, idIndex, rows))
    decreases |rows|
  {
    if |rows| > 0 {
      var n := |rows| - 1;
      MergeRowsCovered(a, header, idIndex, rows[..n]);
      var prev := MergeRows(a, header, idIndex, rows[..n]);
      var key := rows[n][idIndex];
      assert WriteCells(RecordOf(prev, key), header, rows[n]).Keys <= prev.columns;
    }
  }
}
