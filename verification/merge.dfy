/**
 A whole run of the utility: every table ingested into an empty aggregate,
 then the merged table emitted.
 */
module Merge {
  import opened Search
  import opened Sorting
  import opened Aggregate
  import opened Ingestion
  import opened Pool
  import opened Emission

  /**
   The merged output for tables taken in the order `tables` lists them;
   `columnOrder` and `keyOrder` enumerate the aggregate's columns and keys as
   the program's map iteration happens to.
   */
  function Run(id: string, requested: seq<string>, tables: seq<Table>,
               columnOrder: seq<string>, keyOrder: seq<string>): (out: Output)
    requires Elems(columnOrder) == IngestAll(Empty, id, tables).columns && Distinct(columnOrder)
    requires Distinct(keyOrder) && Elems(keyOrder) == IngestAll(Empty, id, tables).records.Keys
    ensures forall c :: c in out.header <==> c in requested || exists t :: t in tables && c in TableColumns(id, t)
    ensures |out.lines| == |keyOrder|
  {
    var out := Emit(IngestAll(Empty, id, tables), requested, columnOrder, keyOrder);
    assert forall c :: c in out.header <==> c in Elems(out.header);
    assert |SortKeys(keyOrder)| == |keyOrder| by {
      assert |multiset(SortKeys(keyOrder))| == |multiset(keyOrder)|;
    }
    out
  }

  /** Every cell the aggregate holds lands in a column of the output header. */
  lemma NothingDropped(id: string, requested: seq<string>, tables: seq<Table>,
                       columnOrder: seq<string>, keyOrder: seq<string>, k: string, c: string)
    requires Elems(columnOrder) == IngestAll(Empty, id, tables).columns && Distinct(columnOrder)
    requires Distinct(keyOrder) && Elems(keyOrder) == IngestAll(Empty, id, tables).records.Keys
    requires k in IngestAll(Empty, id, tables).records && c in IngestAll(Empty, id, tables).records[k]
    ensures c in Run(id, requested, tables, columnOrder, keyOrder).header
  {
    IngestAllCovered(Empty, id, tables);
    var out := Emit(IngestAll(Empty, id, tables), requested, columnOrder, keyOrder);
    assert c in Elems(out.header);
  }

  /**
   The emitted identity order depends only on which tables were read, not on
   the order the workers processed them in.
   */
  lemma RowOrderIndependent(id: string, ts1: seq<Table>, ts2: seq<Table>, k1: seq<string>, k2: seq<string>)
    requires multiset(ts1) == multiset(ts2)
    requires Distinct(k1) && Elems(k1) == IngestAll(Empty, id, ts1).records.Keys
    requires Distinct(k2) && Elems(k2) == IngestAll(Empty, id, ts2).records.Keys
    ensures SortKeys(k1) == SortKeys(k2)
  {
    IngestAllOrderIndependent(Empty, id, ts1, ts2);
    SortKeysCanonical(k1, k2);
  }
}
