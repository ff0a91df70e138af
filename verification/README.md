# Record merge utility — Dafny model

The utility reads a directory of CSV tables that share an identity column
(`Id` by default). It merges their rows into one record per identity value
and prints a single table. That table holds the requested columns first, then
every other column seen in any header. Its rows are sorted by identity value.

This project models the sequential meaning of that merge, all of it in
`main.go`:

- `wrappers.dfy` (`Wrappers`): `Option`, for map entries that may be absent.
- `search.dfy` (`Search`): `indexOf` and `contains`. It also defines
  `LastIndexOf`, which says which header position wins when a column name
  repeats.
- `lex.dfy` (`Lex`): the byte-wise string order of `sort.Strings`. Strings are
  sequences of Unicode scalar values here. Comparing code points gives the
  same order as comparing their UTF-8 bytes.
- `sorting.dfy` (`Sorting`): the sorted list of record keys. An insertion sort
  stands in for `sort.Strings`. `SortedUnique` proves that a strictly
  ascending list is fixed by its elements, so every correct sort returns the
  same list.
- `aggregate.dfy` (`Aggregate`): the `Data` struct and the row merge done under
  the lock. The `headers` map always maps a name to itself, so it is modelled
  as a set of column names.
- `ingestion.dfy` (`Ingestion`): the body of `worker` for one table.
- `pool.dfy` (`Pool`): the ingestion phase as a fold over the tables, in
  whatever order the workers take them.
- `emission.dfy` (`Emission`): key sorting, header resolution and line
  building.
- `merge.dfy` (`Merge`): one whole run.
- `scenario.dfy` (`Scenario`): a two-file example, worked through.

Inputs are parameters. A table is either `Unreadable` (the header read failed)
or `Readable(header, rows)`. Here `rows` are the records read before end of
input or the first read error. The id column name and the requested column
order are also parameters. Go's map iteration order is nondeterministic. It
appears as explicit enumerations (`columnOrder`, `keyOrder`) of the observed
columns and of the record keys.

Two behaviours of the code are worth stating explicitly:

- Row length. A row whose field count differs from the header's is not
  merged. The reader is built with its default settings (main.go:59), so
  every record must have the header's field count. A record that does not is
  returned as an error, and the worker stops the table there
  (main.go:152-155). So in the model, every delivered row fits the header.
  This is the `Table` subset type.
- Duplicate id column. When a header names the id column twice, the code keys
  each record by the first occurrence (`indexOf`). It writes the cell of the
  last occurrence, though, so the record's id cell then shows a different
  value than its key. `Ingestion.DuplicateIdColumn` shows this on a concrete
  table. `Ingestion.IngestIdCells` proves that every id cell equals its key
  when the id column appears only once.

## Model

| member | source | states |
|---|---|---|
| `Search.IndexOf` | main.go:219-226 | the result is -1 exactly when the element is absent; otherwise it is the first position holding the element |
| `Search.Contains` | main.go:229-236 | true exactly when the element occurs in the list |
| `Lex.LessTotal` | main.go:92 | any two different strings are ordered one way or the other by the string order `sort.Strings` uses |
| `Lex.LessTransitive` | main.go:92 | the string order is transitive |
| `Sorting.SortKeys` | main.go:88-92 | the sorted keys are a strictly ascending permutation of the enumerated map keys |
| `Sorting.SortedUnique` | main.go:92 | two strictly ascending lists with the same elements are equal, so the sorted order does not depend on the sorting algorithm |
| `Sorting.SortKeysCanonical` | main.go:88-92 | the sorted keys do not depend on the order in which the map happened to list them |
| `Aggregate.RegisterColumns` | main.go:143-149 | after registration the observed columns are the old ones plus every header name; records are untouched |
| `Aggregate.WriteCells` | main.go:165-167 | the record gains exactly the header's columns; each takes the field at the last header position with that name; every other column keeps its value |
| `Aggregate.WriteCellsAbsorb` | main.go:165-167 | a row written over a record already written from the same header replaces every cell of the earlier write |
| `Aggregate.MergeRow` | main.go:157-169 | the record for `row[idIndex]` is created if absent; header columns take the row's values, last position winning; its other columns and every other record are unchanged; the observed columns are unchanged |
| `Aggregate.MergeRows` | main.go:151-170 | merging a table's rows leaves the observed columns alone; the record keys become the old keys plus the rows' identity values |
| `Aggregate.MergeRowsRecord` | main.go:151-170 | after the rows are merged, each record holds its old cells overwritten by the last row with its identity value; a record no row names is unchanged |
| `Aggregate.MergeRowsCovered` | main.go:143-167 | when the header is already registered, merging rows keeps every record column among the observed columns |
| `Ingestion.Ingest` | main.go:136-171 | an unreadable table, or one whose header lacks the id column, leaves the aggregate unchanged; otherwise the header names join the observed columns; the record keys grow by exactly the table's identity values |
| `Ingestion.IngestCell` | main.go:151-169 | after ingesting a table, each cell holds the table's value when the table writes it, and its old value otherwise |
| `Ingestion.IngestIdempotent` | main.go:151-169 | ingesting the same table twice gives the same aggregate as ingesting it once |
| `Ingestion.IngestCovered` | main.go:143-167 | ingestion keeps the invariant that every record column is an observed column |
| `Ingestion.IngestIdCells` | main.go:140-166 | when the header names the id column at most once, every record's id cell keeps holding its own identity value |
| `Ingestion.DuplicateIdColumn` | main.go:140-166 | with the id column named twice, the record keyed "1" stores "2" in its id cell |
| `Pool.IngestTwoCell` | main.go:157-169 | with two tables in sequence, a cell both write holds the later table's value; a cell only one writes holds that table's value |
| `Pool.IngestCommutes` | main.go:180-188 | two tables that agree on every cell they both write (for instance the same entity under the same identity value) give the same aggregate in either processing order |
| `Pool.IngestAll` | main.go:180-188 | after all tables, the observed columns are the columns of every accepted table, and the record keys are the identity values of every accepted table |
| `Pool.IngestAllCell` | main.go:180-188 | for any processing order, a cell that every writing table writes with the same value holds that value after the whole phase, and a cell no table writes keeps its old value |
| `Pool.IngestAllCovered` | main.go:180-188 | the invariant that every record column is an observed column holds after the whole ingestion phase |
| `Pool.IngestAllOrderIndependent` | main.go:180-188 | the observed columns and the record keys are the same for any processing order of the same tables |
| `Emission.AppendMissing` | main.go:96-101 | the requested list is an exact prefix; the result names every requested and every observed column; no appended column was already requested or is appended twice |
| `Emission.AppendNothing` | main.go:96-101 | when the requested columns already cover the observed ones, the header is exactly the requested list |
| `Emission.Line` | main.go:119-122 | a line has one cell per header column, in order; a cell holds the record's value, or "" when it has none (`Emission.Cell` reads the same optional field as `Aggregate.Lookup`) |
| `Emission.Lines` | main.go:118-127 | there is one line per key, in key order, each built from that key's record |
| `Emission.Emit` | main.go:87-129 | the header holds the requested columns as a prefix, every observed column, and no duplicate among the appended ones; the rows follow the strictly ascending keys, one cell per header column, "" for a missing cell |
| `Emission.EmitKeyOrderIrrelevant` | main.go:88-92 | the output does not depend on the order in which the record keys were enumerated |
| `Merge.Run` | main.go:84-129 | the output header names exactly the requested columns plus the columns of every accepted table; there is one line per identity value |
| `Merge.NothingDropped` | main.go:96-122 | every cell held in the aggregate falls in a column of the output header |
| `Merge.RowOrderIndependent` | main.go:84-92 | the order of the output rows depends only on which tables were read, not on the order they were processed in |
| `Scenario.ScenarioAggregate` | main.go:133-177 | for the two example files, both processing orders give the same merged aggregate |
| `Scenario.ScenarioOutput` | main.go:87-129 | the example's output is the header `Id,Name,Phone` and the rows `1,Alice,555-1111`, `2,Bob,` and `3,,555-3333`, for any map enumeration order |

## Left out

- Flag parsing, the directory listing, the `.csv` filter and file opening (main.go:17-61) are I/O. The id name, the requested order and the tables are parameters instead.
- `strings.Split` of the headers flag (main.go:96) is a library call. The requested order is a given list. Duplicates in it are kept, as in the code.
- CSV reading, writing and quoting (`encoding/csv`, main.go:105-127) is library code. Input is a list of field lists. Output is the header and lines passed to the writer, not text.
- Field-count checking belongs to the CSV reader. The model assumes, as the `Table` type, that every delivered row has the header's width. Read errors are modelled only by where the rows end.
- Goroutines, channels, the wait group, the mutex, `allocate`, `result`, `createWorkerPool` and job numbering (main.go:71-85, 180-216) exist for concurrency. The lock serialises each merge, and emission starts only after `wg.Wait()`. The phase is therefore a fold over the tables in an arbitrary order (`Pool.IngestAll`).
- Pool.IngestAll: does not model rows of different tables interleaving. The model applies whole tables one after another. For a cell that two tables both write, the model picks the later table's value. The program can pick either table's value, depending on which write lands last. Only the order-free facts are proved for arbitrary orders: columns, keys (`Pool.IngestAll`), and cells on which all writing tables agree, including cells written by one table only (`Pool.IngestAllCell`).
- Byte strings that are not valid UTF-8 cannot be represented. Strings are sequences of Unicode scalar values.
- The log-and-exit paths on write errors (main.go:111-113, 124-126) are process-level failures and are not modelled.
