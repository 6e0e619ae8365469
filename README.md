# DatabaseQuerySelector batch runner, in Dafny

This project models the batch runner of the DatabaseQuerySelector Swing
application, `executeSelectedQueries`, and the query catalog it reads. The
user selects entries of a list of ten named queries and presses the execute
button. The runner then:

- rejects a selection with no entries or more than five;
- clears the result table, rows and columns;
- opens one connection and runs the selected queries in the order the list
  reports them, stopping at the first `SQLException`;
- merges the results into one table. The header comes from the first query
  that meets a table with no columns. A separator row
  `"--- <display name> ---"` goes before a query's rows when the table
  already holds rows. Every result row is copied value by value.

Files:

- `Wrappers.dfy`: the `Option` type.
- `Catalog.dfy`: the two parallel constant arrays (display names, query
  texts) and the catalog as a value.
- `Batch.dfy`: the runner on values. `Step` is one iteration of the query
  loop, `RunBatch` the loop, `ExecuteSelected` the whole button action. It
  returns the new table and the dialog shown, if any.
- `Selector.dfy`: the imperative runner. `ResultTable` is the table model,
  with `header` and `rows` fields that its methods update in place.
  `DatabaseQuerySelector.ExecuteSelectedQueries` runs the loops and is proved
  to leave the table and return the dialog exactly as `ExecuteSelected` says.
- `BatchProperties.dfy`: what a run promises, proved about `RunBatch` and
  `ExecuteSelected`.

The database is an input. The function `answer: string -> QueryOutcome` says
what the database does with each query text. `Answered(columns, rows)` means
the query ran and every row was read. `Rejected(message)` means a
`SQLException` came before anything reached the table: creating the
statement, executing the query or reading its metadata.
`FailedWhileReading(columns, rows, message)` means the metadata was read, so
the header and separator steps ran, and `rows` were read before a
`SQLException`. Whether the connection opens is the `Connection` parameter.
The two message dialogs are returned as `Dialog(title, message)` values with
the application's exact titles and texts.

The catalog is passed to the runner as a value (`ParallelCatalog`).
`DeclaredCatalog()` is the application's own catalog, and the frame's
constructor installs it. This keeps the long query texts out of every proof
that does not need them.

On three points the code does something a reader might not expect; the model
follows the code:

- Execution order is the order of the selected-index list as given. The code
  never sorts it.
- A failure does not roll back. Rows already added stay in the table,
  including rows the failing query read before the error. A failure before
  anything is added (a failed connection, or a first query rejected before
  its metadata) leaves the table empty, because the table was cleared just
  before.
- The header is set whenever the table has no columns when a query's
  metadata is read. That is not always the first query: one whose metadata
  has no columns leaves the header to the next one. The comment at
  DatabaseQuerySelector.java:194 speaks of setting the column names also on
  "different columns", but the code never replaces a header that has
  columns; the model follows the code (`RunBatchExtends`).

## Model

| member | source | states |
|---|---|---|
| Catalog.DeclaredCatalog | DatabaseQuerySelector.java:16-120 | the display-name array and the query-text array both have 10 entries |
| Batch.ExecuteSelected | DatabaseQuerySelector.java:163-225 | a selection of 0 or more than 5 entries is rejected, and only such a selection is: the selection error dialog is shown and the previous table is left unchanged; any other dialog is the database error dialog; an accepted selection on a failed connection leaves the table empty and reports the connection's message |
| Batch.Separator | DatabaseQuerySelector.java:205 | the separator is a one-cell row whose text is `"--- "`, then the query's display name, then `" ---"`, so the name can be read back from it; where it goes is stated by `BatchProperties.SeparatorRule` |
| Batch.Absorb | DatabaseQuerySelector.java:195-215 | the header is kept if it has columns and otherwise becomes the query's columns; the old rows stay in front; one row more than the data rows is added exactly when the table had rows, and that row, right after the old ones, is the separator; `BatchProperties.SeparatorRule` states that the query's rows follow it |
| Batch.Step | DatabaseQuerySelector.java:187-216 | one loop iteration fails exactly when the query does not answer, with the query's own message; a query rejected before its metadata leaves the table as it was; rows are only appended and a header with columns is kept |
| Batch.RunBatch | DatabaseQuerySelector.java:184-217 | the query loop ends without a failure exactly when every selected query answers; `BatchProperties.SuccessfulBatch`, `FailedBatch`, `LaterQueriesNotExecuted` and `RunBatchExtends` state what it leaves in the table |
| Selector.ReadOneBased | DatabaseQuerySelector.java:196-213 | the 1-based copy loop used for column names and row values yields exactly `count` values, each the source's value at the same position, unconverted |
| Selector.SelectedIndices | DatabaseQuerySelector.java:165-168 | the index list holds the list's selected indices in the order given, none dropped or reordered |
| Selector.ResultTable.constructor | DatabaseQuerySelector.java:149 | a new table model has no columns and no rows |
| Selector.ResultTable.ClearRows | DatabaseQuerySelector.java:180 | every row is dropped and the header is kept |
| Selector.ResultTable.ClearColumns | DatabaseQuerySelector.java:181 | every column is dropped and the rows are kept |
| Selector.ResultTable.SetColumnIdentifiers | DatabaseQuerySelector.java:200 | the header becomes the given names and the rows are kept |
| Selector.ResultTable.AddRow | DatabaseQuerySelector.java:205 | the row is appended after the existing rows and the header is kept |
| Selector.DatabaseQuerySelector.constructor | DatabaseQuerySelector.java:127-161 | the frame lists the declared catalog and starts with an empty table |
| Selector.DatabaseQuerySelector.ExecuteQuery | DatabaseQuerySelector.java:186-216 | one iteration of the query loop changes the table and reports a failure exactly as `Step` says: nothing on a rejected query; otherwise the header if the table had no columns, a separator if it had rows, then the rows read |
| Selector.DatabaseQuerySelector.ExecuteSelectedQueries | DatabaseQuerySelector.java:163-225 | the new table and the dialog shown are exactly those of `ExecuteSelected` for the old table, the selected indices as given, the connection and the database's answers |
| BatchProperties.RunBatchExtends | DatabaseQuerySelector.java:195-215 | a run only appends rows after the existing ones, and never replaces a header that has columns, whatever later queries return and even when one fails |
| BatchProperties.RunBatchSplits | DatabaseQuerySelector.java:186 | running a list of queries is running its first part and then its second part on the table the first part left, when the first part does not fail |
| BatchProperties.SuccessfulBatch | DatabaseQuerySelector.java:186-216 | when every query answers, there is no failure and the rows are the earlier rows followed by the merged rows: each query's rows in list order, each preceded by its separator when rows came before |
| BatchProperties.SeparatorRule | DatabaseQuerySelector.java:203-215 | the final table holds, in order, the rows present before query k, then query k's separator exactly when those rows are not empty, then every row query k read |
| BatchProperties.FailedBatch | DatabaseQuerySelector.java:184-224 | at the first failing query the run stops: the table is what the earlier queries built plus the failing query's separator and the rows it read (nothing more if it failed before its metadata), and the failure carries its message |
| BatchProperties.FailureReported | DatabaseQuerySelector.java:218-224 | a press whose query k fails shows the database error dialog with that query's message and keeps every row added before the failure |
| BatchProperties.SameAnswersSameRun | DatabaseQuerySelector.java:186-188 | a run depends only on what the database answers for the selected queries' texts |
| BatchProperties.LaterQueriesNotExecuted | DatabaseQuerySelector.java:184-224 | after the failing query no query is executed: databases that agree up to and including it give the same table and error |
| BatchProperties.HeaderFromFirstQueryWithColumns | DatabaseQuerySelector.java:194-201 | starting with no columns, when the queries before query k answered with no columns and query k got past its metadata with columns, the header is query k's column list, whether query k then fails while reading and whatever later queries do |
| BatchProperties.RowCountAfterRows | DatabaseQuerySelector.java:203-215 | once the table holds rows, every answering query adds exactly one separator: rows = data rows + number of queries |
| BatchProperties.RowCountWhenEveryQueryReturnsRows | DatabaseQuerySelector.java:203-215 | after an accepted press with a working connection, when every query returns rows, the table has data rows + number of queries - 1 rows (the first query has no separator) |
| BatchProperties.EmptyLeadingQueriesGetNoSeparator | DatabaseQuerySelector.java:203-206 | queries that find the table still empty (every earlier query returned no rows) get no separator: the merge equals the merge without them |
| BatchProperties.FirstQueryOpensTable | DatabaseQuerySelector.java:179-215 | after an accepted press with a working connection, the rows the first query read open the table with no separator, and its columns, if any, are the header |
| BatchProperties.TwoQueriesExample | DatabaseQuerySelector.java:203-215 | two queries returning 2 rows and 1 row give 4 rows: data, data, the second query's separator, data; the header is the first query's |

## Left out

- The Swing user interface is not modelled: the frame layout, the list, the button and the dialog windows. The dialogs are returned as values.
- JDBC is replaced by the `answer` function and the `Connection` parameter: driver loading in `main`, the connection URL and credentials, and the opening and closing of the connection, statement and result set. A `SQLException` thrown while a statement or result set is closed is not modelled.
- The meaning of the SQL texts belongs to the database. They are opaque strings, and result values (numbers, dates, decimals) are opaque cells.
- The table library pads or truncates a row to the column count inside `addRow`, `setColumnCount` and `setColumnIdentifiers`. Rows are kept exactly as the runner builds them.
- The order in which the list widget reports its selected indices is library behaviour. The runner takes the index list as given.
- Selector.DatabaseQuerySelector.ExecuteSelectedQueries: requires every selected index to be a catalog index. The list only offers catalog entries; an out-of-range index would raise an unchecked exception that the code does not catch.
- Selector.DatabaseQuerySelector.ExecuteSelectedQueries: requires every row the database returns to have one value per metadata column, which is what a result set delivers.
- `ex.printStackTrace()` writes the exception to standard error; console output is not modelled.
- A `null` exception message (Java prints it as `null` in the dialog) is not distinguished from other messages.
- The two Node.js servers and the database probe script are not part of this model. They are HTTP and database plumbing with only a key lookup as logic.
