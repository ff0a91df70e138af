/**
 The ingestion phase as a whole. Workers run concurrently, but the lock
 serialises every merge and `createWorkerPool` waits for all workers before
 emission (main.go:180-188), so the phase is modelled as ingesting the tables
 one after another in whatever order the workers happen to take them.
 */
module Pool {
  import opened Wrappers
  import opened Aggregate
  import opened Ingestion

  /**
   Two tables ingested one after the other: a cell both write holds the later
   table's value, a cell only one writes holds that table's value.
   */
  lemma IngestTwoCell(a: Agg, id: string, first: Table, second: Table, k: string, c: string)
    ensures Lookup(Ingest(Ingest(a, id, first), id, second), k, c) ==
              if TableCell(id, second, k, c).Some? then TableCell(id, second, k, c)
              else if TableCell(id, first, k, c).Some? then TableCell(id, first, k, c)
              else Lookup(a, k, c)
  {
    IngestCell(a, id, first, k, c);
    IngestCell(Ingest(a, id, first), id, second, k, c);
  }

  /**
   Tables that agree on every cell they both write can be ingested in either
   order; in particular two files holding the same entity with the same
   identity value commute, since both write its id cell with that value.
   */
  lemma IngestCommutes(a: Agg, id: string, t1: Table, t2: Table)
    requires forall k, c :: TableCell(id, t1, k, c).None? || TableCell(id, t2, k, c).None? || TableCell(id, t1, k, c) == TableCell(id, t2, k, c)
    ensures Ingest(Ingest(a, id, t1), id, t2) == Ingest(Ingest(a, id, t2), id, t1)
  {
    TwoShape(a, id, t1, t2);
    CommuteCells(a, id, t1, t2);
    AggExtensional(Ingest(Ingest(a, id, t1), id, t2), Ingest(Ingest(a, id, t2), id, t1));
  }

  /** Cell by cell, the two orders agree when the tables agree on every cell both write. */
  lemma CommuteCells(a: Agg, id: string, t1: Table, t2: Table)
    requires forall k, c :: TableCell(id, t1, k, c).None? || TableCell(id, t2, k, c).None? || TableCell(id, t1, k, c) == TableCell(id, t2, k, c)
    ensures forall k, c :: Lookup(Ingest(Ingest(a, id, t1), id, t2), k, c) == Lookup(Ingest(Ingest(a, id, t2), id, t1), k, c)
  {
    forall k, c
      ensures Lookup(Ingest(Ingest(a, id, t1), id, t2), k, c) == Lookup(Ingest(Ingest(a, id, t2), id, t1), k, c)
    {
      CommuteCell(a, id, t1, t2, k, c);
    }
  }

  /** Either order gives the same observed columns and identity values. */
  lemma TwoShape(a: Agg, id: string, t1: Table, t2: Table)
    ensures Ingest(Ingest(a, id, t1), id, t2).columns == Ingest(Ingest(a, id, t2), id, t1).columns
    ensures Ingest(Ingest(a, id, t1), id, t2).records.Keys == Ingest(Ingest(a, id, t2), id, t1).records.Keys
  {
  }

  /** One cell that at most one of the two tables writes, or both write with the same value. */
  lemma CommuteCell(a: Agg, id: string, t1: Table, t2: Table, k: string, c: string)
    requires TableCell(id, t1, k, c).None? || TableCell(id, t2, k, c).None? || TableCell(id, t1, k, c) == TableCell(id, t2, k, c)
    ensures Lookup(Ingest(Ingest(a, id, t1), id, t2), k, c) == Lookup(Ingest(Ingest(a, id, t2), id, t1), k, c)
  {
    IngestTwoCell(a, id, t1, t2, k, c);
    IngestTwoCell(a, id, t2, t1, k, c);
  }

  /**
   The ingestion phase: the tables folded in the order their workers happen
   to finish (main.go:180-188 waits for all of them before emission).
   */
  function IngestAll(a: Agg, id: string, ts: seq<Table>): (r: Agg)
    ensures forall c :: c in r.columns <==> c in a.columns || exists t :: t in ts && c in TableColumns(id, t)
    ensures forall k :: k in r.records <==> k in a.records || exists t :: t in ts && k in TableKeys(id, t)
    decreases |ts|
  {
    if |ts| == 0 then a
    else
      var n := |ts| - 1;
      assert forall t :: t in ts <==> t in ts[..n] || t == ts[n] by {
        assert ts == ts[..n] + [ts[n]];
      }
      Ingest(IngestAll(a, id, ts[..n]), id, ts[n])
  }

  /**
   A cell after the whole phase, for any processing order: when every table
   that writes the cell writes the same value `v`, the cell holds `v` if some
   table writes it and its old value otherwise. A cell only one table writes
   is the special case of a single writer.
   */
  lemma {:induction false} IngestAllCell(a: Agg, id: string, ts: seq<Table>, k: string, c: string, v: string)
    requires forall t :: t in ts && TableCell(id, t, k, c).Some? ==> TableCell(id, t, k, c) == Some(v)
    ensures Lookup(IngestAll(a, id, ts), k, c) ==
              if exists t :: t in ts && TableCell(id, t, k, c).Some? then Some(v) else Lookup(a, k, c)
    decreases |ts|
  {
    if |ts| > 0 {
      var n := |ts| - 1;
      assert ts == ts[..n] + [ts[n]];
      IngestAllCell(a, id, ts[..n], k, c, v);
      IngestCell(IngestAll(a, id, ts[..n]), id, ts[n], k, c);
    }
  }

  /** The invariant holds after the whole ingestion phase. */
  lemma {:induction false} IngestAllCovered(a: Agg, id: string, ts: seq<Table>)
    requires Covered(a)
    ensures Covered(IngestAll(a, id, ts))
    decreases |ts|
  {
    if |ts| > 0 {
      var n := |ts| - 1;
      IngestAllCovered(a, id, ts[..n]);
      IngestCovered(IngestAll(a, id, ts[..n]), id, ts[n]);
    }
  }

  /**
   The observed columns and the set of identity values do not depend on the
   order in which the tables are processed.
   */
  lemma IngestAllOrderIndependent(a: Agg, id: string, ts1: seq<Table>, ts2: seq<Table>)
    requires multiset(ts1) == multiset(ts2)
    ensures IngestAll(a, id, ts1).columns == IngestAll(a, id, ts2).columns
    ensures IngestAll(a, id, ts1).records.Keys == IngestAll(a, id, ts2).records.Keys
  {
    forall t ensures t in ts1 <==> t in ts2 {
      assert t in ts1 <==> t in multiset(ts1);
      assert t in ts2 <==> t in multiset(ts2);
    }
  }
}
