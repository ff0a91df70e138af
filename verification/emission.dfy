/**
 Emission of the merged table (main.go:87-129): identity values sorted
 ascending, the output header resolved from the requested order and the
 observed columns, and one line per identity value with one cell per output
 column. The writer's quoting is not modelled; the output is the sequence of
 field lists handed to it.
 */
module Emission {
  import opened Search
  import opened Lex
  import opened Sorting
  import opened Aggregate

  /**
   Appends each name of `observed` that the list does not yet contain, in
   the order `observed` presents them (main.go:96-101). The given list is kept
   as an exact prefix, and no appended name occurs twice or in the prefix.
   */
  function AppendMissing(headers: seq<string>, observed: seq<string>): (r: seq<string>)
    ensures |headers| <= |r| && r[..|headers|] == headers
    ensures Elems(r) == Elems(headers) + Elems(observed)
    ensures forall i :: |headers| <= i < |r| ==> r[i] !in headers
    ensures forall i, j :: |headers| <= i < j < |r| ==> r[i] != r[j]
    decreases |observed|
  {
    if |observed| == 0 then headers
    else
      var x := observed[0];
      assert Elems(observed) == {x} + Elems(observed[1..]) by {
        assert observed == [x] + observed[1..];
      }
      var next := if Contains(headers, x) then headers else headers + [x];
      AppendStep(headers, x, next);
      var r := AppendMissing(next, observed[1..]);
      AppendCompose(headers, x, next, r);
      r
  }

  /** The contract of one appending step composed with that of the rest. */
  lemma AppendCompose(headers: seq<string>, x: string, next: seq<string>, r: seq<string>)
    requires |headers| <= |next| && next[..|headers|] == headers
    requires forall i :: |headers| <= i < |next| ==> next[i] == x && x !in headers
    requires |next| <= |headers| + 1
    requires |next| <= |r| && r[..|next|] == next
    requires forall i :: |next| <= i < |r| ==> r[i] !in next
    requires forall i, j :: |next| <= i < j < |r| ==> r[i] != r[j]
    ensures |headers| <= |r| && r[..|headers|] == headers
    ensures forall i :: |headers| <= i < |r| ==> r[i] !in headers
    ensures forall i, j :: |headers| <= i < j < |r| ==> r[i] != r[j]
  {
    assert r[..|headers|] == next[..|headers|];
    forall i | |headers| <= i < |r|
      ensures r[i] !in headers
    {
      if i < |next| {
        assert r[i] == next[i];
      } else {
        assert forall y :: y in headers ==> y in next by {
          assert next == headers + next[|headers|..];
        }
      }
    }
    forall i, j | |headers| <= i < j < |r|
      ensures r[i] != r[j]
    {
      if i < |next| {
        assert r[i] == next[i];
        assert next[i] in next;
      }
    }
  }

  lemma AppendStep(headers: seq<string>, x: string, next: seq<string>)
    requires next == if x in headers then headers else headers + [x]
    ensures |headers| <= |next| && next[..|headers|] == headers
    ensures Elems(next) == Elems(headers) + {x}
    ensures forall i :: |headers| <= i < |next| ==> next[i] == x && x !in headers
    ensures |next| <= |headers| + 1
  {
    if x !in headers {
      assert next[..|headers|] == headers;
    }
  }

  /** When the list already names every observed column, nothing is appended. */
  lemma {:induction false} AppendNothing(headers: seq<string>, observed: seq<string>)
    requires Elems(observed) <= Elems(headers)
    ensures AppendMissing(headers, observed) == headers
    decreases |observed|
  {
    if |observed| > 0 {
      assert observed[0] in Elems(observed);
      assert Elems(observed[1..]) <= Elems(observed);
      AppendNothing(headers, observed[1..]);
    }
  }

  /** The cell written for a column: the record's value, or "" when it has none. */
  function Cell(rec: Record, column: string): string
  {
    match Field(rec, column)
    case Some(v) => v
    case None => ""
  }

  /** One output line: a cell per output column, in column order (main.go:119-122). */
  function Line(rec: Record, header: seq<string>): (line: seq<string>)
    ensures |line| == |header|
    ensures forall j :: 0 <= j < |header| ==> line[j] == Cell(rec, header[j])
  {
    if |header| == 0 then []
    else [Cell(rec, header[0])] + Line(rec, header[1..])
  }

  /** The lines for the given identity values, in their order (main.go:118-127). */
  function Lines(records: map<string, Record>, keys: seq<string>, header: seq<string>): (lines: seq<seq<string>>)
    requires forall i :: 0 <= i < |keys| ==> keys[i] in records
    ensures |lines| == |keys|
    ensures forall i :: 0 <= i < |keys| ==> lines[i] == Line(records[keys[i]], header)
  {
    if |keys| == 0 then []
    else [Line(records[keys[0]], header)] + Lines(records, keys[1..], header)
  }

  /** The header row and the data rows handed to the writer. */
  datatype Output = Output(header: seq<string>, lines: seq<seq<string>>)

  /**
   Emits the aggregate. `requested` is the configured output order;
   `columnOrder` and `keyOrder` are the orders in which the program happens
   to enumerate the observed columns and the record keys; a `range` over a
   map yields each entry exactly once, so both are free of duplicates.
   */
  function Emit(a: Agg, requested: seq<string>, columnOrder: seq<string>, keyOrder: seq<string>): (out: Output)
    requires Elems(columnOrder) == a.columns && Distinct(columnOrder)
    requires Distinct(keyOrder) && Elems(keyOrder) == a.records.Keys
    ensures |requested| <= |out.header| && out.header[..|requested|] == requested
    ensures Elems(out.header) == Elems(requested) + a.columns
    ensures forall i :: |requested| <= i < |out.header| ==> out.header[i] !in requested
    ensures forall i, j :: |requested| <= i < j < |out.header| ==> out.header[i] != out.header[j]
    ensures var keys := SortKeys(keyOrder);
            && StrictlyAscending(keys)
            && Elems(keys) == a.records.Keys
            && |out.lines| == |keys|
            && forall i :: 0 <= i < |keys| ==>
                 (&& keys[i] in a.records
                  && |out.lines[i]| == |out.header|
                  && forall j :: 0 <= j < |out.header| ==> out.lines[i][j] == Cell(a.records[keys[i]], out.header[j]))
  {
    var keys := SortKeys(keyOrder);
    SameElems(keys, keyOrder);
    var header := AppendMissing(requested, columnOrder);
    Output(header, Lines(a.records, keys, header))
  }

  /** The emitted output does not depend on the order the record keys were enumerated in. */
  lemma EmitKeyOrderIrrelevant(a: Agg, requested: seq<string>, columnOrder: seq<string>, k1: seq<string>, k2: seq<string>)
    requires Elems(columnOrder) == a.columns && Distinct(columnOrder)
    requires Distinct(k1) && Elems(k1) == a.records.Keys
    requires Distinct(k2) && Elems(k2) == a.records.Keys
    ensures Emit(a, requested, columnOrder, k1) == Emit(a, requested, columnOrder, k2)
  {
    SortKeysCanonical(k1, k2);
  }
}
