/**
  The batch runner of DatabaseQuerySelector, stated on values: what one run of
  executeSelectedQueries does to the result table (a header plus a list of
  rows) and which error dialog, if any, it shows. The class in Selector.dfy
  performs the same run step by step on a mutable table and is proved equal
  to these functions; BatchProperties.dfy proves what they promise.
 */
module Batch {
  import opened Wrappers
  import opened Catalog

  /** A cell value as returned by ResultSet.getObject: opaque to the runner, except for the separator's text. */
  datatype Value = Null | Text(text: string) | Opaque(id: nat)

  type Row = seq<Value>

  /**
    What the database does with one query text.
    - Answered: the query ran and all its rows were read.
    - Rejected: a SQLException before anything reached the table (creating
      the statement, executing the query or reading its metadata).
    - FailedWhileReading: the metadata was read (so the header and separator
      steps ran) and `rows` were read before a SQLException.
   */
  datatype QueryOutcome =
    | Answered(columns: seq<string>, rows: seq<Row>)
    | Rejected(message: string)
    | FailedWhileReading(columns: seq<string>, rows: seq<Row>, message: string)

  /** Each row of a result set has one value per column of its metadata. */
  predicate WellFormed(o: QueryOutcome)
  {
    o.Rejected? || forall r :: r in o.rows ==> |r| == |o.columns|
  }

  /** The database answers every query text with a well-formed result set. */
  ghost predicate WellFormedSource(answer: string -> QueryOutcome)
  {
    forall q :: WellFormed(answer(q))
  }

  /** What the database answers for the query text of catalog entry `index`. */
  function AnswerFor(c: ParallelCatalog, index: int, answer: string -> QueryOutcome): QueryOutcome
    requires 0 <= index < |c.queryTexts|
  {
    answer(c.queryTexts[index])
  }

  /** Whether opening the database connection succeeds. */
  datatype Connection = Connected | ConnectFailed(message: string)

  /** A modal message dialog: its title and its text. */
  datatype Dialog = Dialog(title: string, message: string)

  const MaxSelected: nat := 5

  const SelectionErrorDialog: Dialog :=
    Dialog("Selection Error", "Please select between 1 and 5 queries.")

  function DatabaseErrorDialog(message: string): Dialog
  {
    Dialog("Error", "Database error: " + message)
  }

  /** The contents of the result table: column identifiers and rows. */
  datatype Table = Table(header: seq<string>, rows: seq<Row>)

  const EmptyTable: Table := Table([], [])

  /** The one-cell row placed before a query's data when the table already has rows. */
  function Separator(c: ParallelCatalog, index: int): (r: Row)
    requires 0 <= index < |c.displayNames|
    ensures |r| == 1 && r[0].Text?
    ensures
      var caption := r[0].text;
      |caption| == |c.displayNames[index]| + 8 &&
      caption[..4] == "--- " && caption[|caption| - 4..] == " ---" &&
      caption[4..|caption| - 4] == c.displayNames[index]
  {
    [Text("--- " + c.displayNames[index] + " ---")]
  }

  /**
    The table after the header, separator and row steps for one query whose
    metadata has `columns` and whose read rows are `data`.
   */
  function Absorb(c: ParallelCatalog, t: Table, index: int, columns: seq<string>, data: seq<Row>): (r: Table)
    requires 0 <= index < |c.displayNames|
    ensures |t.header| > 0 ==> r.header == t.header
    ensures |t.header| == 0 ==> r.header == columns
    ensures t.rows <= r.rows
    ensures |r.rows| == |t.rows| + (if |t.rows| > 0 then 1 else 0) + |data|
    ensures |t.rows| > 0 ==> r.rows[|t.rows|] == Separator(c, index)
  {
    var header := if |t.header| == 0 then columns else t.header;
    var separator := if |t.rows| > 0 then [Separator(c, index)] else [];
    Table(header, t.rows + separator + data)
  }

  /** A table together with the message of the SQLException that stopped the run, if any. */
  datatype Run = Run(table: Table, failure: Option<string>)

  /** One iteration of the query loop. */
  function Step(c: ParallelCatalog, t: Table, index: int, o: QueryOutcome): (r: Run)
    requires 0 <= index < |c.displayNames|
    ensures r.failure.None? <==> o.Answered?
    ensures r.failure.Some? ==> r.failure.value == o.message
    ensures o.Rejected? ==> r.table == t
    ensures t.rows <= r.table.rows
    ensures |t.header| > 0 ==> r.table.header == t.header
  {
    match o
    case Answered(columns, data) => Run(Absorb(c, t, index, columns, data), None)
    case Rejected(message) => Run(t, Some(message))
    case FailedWhileReading(columns, data, message) => Run(Absorb(c, t, index, columns, data), Some(message))
  }

  /** The query loop: the selected queries in list order, stopping at the first SQLException. */
  function RunBatch(c: ParallelCatalog, t: Table, selection: seq<int>, answer: string -> QueryOutcome): (r: Run)
    requires ValidIndices(c, selection)
    ensures r.failure.None? <==>
      forall k :: 0 <= k < |selection| ==> AnswerFor(c, selection[k], answer).Answered?
    decreases |selection|
  {
    if |selection| == 0 then Run(t, None)
    else
      var first := Step(c, t, selection[0], AnswerFor(c, selection[0], answer));
      if first.failure.Some? then first
      else
        assert forall k :: 0 <= k < |selection| - 1 ==> selection[1..][k] == selection[k + 1];
        RunBatch(c, first.table, selection[1..], answer)
  }

  /** The table and the dialog (if any) left by one press of the execute button. */
  datatype Outcome = Outcome(table: Table, dialog: Option<Dialog>)

  /**
    The whole executeSelectedQueries over catalog `c`: validation, clearing,
    connection and the query loop. `previous` is the table before the button
    was pressed.
   */
  function ExecuteSelected(c: ParallelCatalog, previous: Table, selection: seq<int>,
                           connection: Connection, answer: string -> QueryOutcome): (r: Outcome)
    requires ValidIndices(c, selection)
    ensures |selection| == 0 || |selection| > MaxSelected <==> r.dialog == Some(SelectionErrorDialog)
    ensures r.dialog == Some(SelectionErrorDialog) ==> r.table == previous
    ensures r.dialog.Some? && r.dialog != Some(SelectionErrorDialog) ==> r.dialog.value.title == "Error"
    ensures 0 < |selection| <= MaxSelected && connection.ConnectFailed? ==>
      r == Outcome(EmptyTable, Some(DatabaseErrorDialog(connection.message)))
  {
    if |selection| == 0 || |selection| > MaxSelected then
      Outcome(previous, Some(SelectionErrorDialog))
    else if connection.ConnectFailed? then
      Outcome(EmptyTable, Some(DatabaseErrorDialog(connection.message)))
    else
      var run := RunBatch(c, EmptyTable, selection, answer);
      Outcome(run.table, if run.failure.Some? then Some(DatabaseErrorDialog(run.failure.value)) else None)
  }
}
