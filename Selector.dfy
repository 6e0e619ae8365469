/**
  The imperative runner: the frame's table model, which the runner clears and
  fills in place, and executeSelectedQueries with its loops. Each method is
  proved to leave the table exactly as the functions of module Batch say.
 */
module Selector {
  import opened Wrappers
  import opened Catalog
  import opened Batch

  /**
    The result table model: column identifiers and rows, updated in place.
    Rows are kept exactly as added; the padding or truncation of a row to the
    column count that the table library performs is not modelled.
   */
  class ResultTable {
    var header: seq<string>
    var rows: seq<Row>

    constructor ()
      ensures header == [] && rows == []
    {
      header := [];
      rows := [];
    }

    function ColumnCount(): nat
      reads this
    {
      |header|
    }

    function RowCount(): nat
      reads this
    {
      |rows|
    }

    /** The table's contents as a value. */
    function Snapshot(): Table
      reads this
    {
      Table(header, rows)
    }

    /** setRowCount(0): drops every row. */
    method ClearRows()
      modifies this
      ensures rows == [] && header == old(header)
    {
      rows := [];
    }

    /** setColumnCount(0): drops every column. */
    method ClearColumns()
      modifies this
      ensures header == [] && rows == old(rows)
    {
      header := [];
    }

    /** setColumnIdentifiers: replaces the header. */
    method SetColumnIdentifiers(names: seq<string>)
      modifies this
      ensures header == names && rows == old(rows)
    {
      header := names;
    }

    /** addRow: appends one row after the existing ones. */
    method AddRow(row: Row)
      modifies this
      ensures rows == old(rows) + [row] && header == old(header)
    {
      rows := rows + [row];
    }
  }

  /**
    The copy loop `for (i = 1; i <= count; i++) out[i-1] = get(i)` used for
    column names and for the values of a row: the result holds the source's
    values in source order, one per position, unconverted.
   */
  method ReadOneBased<T>(count: nat, source: seq<T>) returns (out: seq<T>)
    requires |source| == count
    ensures |out| == count
    ensures forall i :: 0 <= i < count ==> out[i] == source[i]
  {
    out := [];
    var i := 1;
    while i <= count
      invariant 1 <= i <= count + 1
      invariant out == source[..i - 1]
    {
      out := out + [source[i - 1]];
      i := i + 1;
    }
  }

  /**
    The loop that builds selectedIndices from the list's selected indices:
    the list holds them in the order given, none dropped, none reordered.
   */
  method SelectedIndices(selected: array<int>) returns (indices: seq<int>)
    ensures |indices| == selected.Length
    ensures forall k :: 0 <= k < selected.Length ==> indices[k] == selected[k]
  {
    indices := [];
    var k := 0;
    while k < selected.Length
      invariant 0 <= k <= selected.Length
      invariant indices == selected[..k]
    {
      indices := indices + [selected[k]];
      k := k + 1;
    }
  }

  /** The application frame, reduced to the catalog it lists and the table model it fills. */
  class DatabaseQuerySelector {
    const catalog: ParallelCatalog
    const tableModel: ResultTable

    constructor ()
      ensures catalog == DeclaredCatalog()
      ensures fresh(tableModel) && tableModel.Snapshot() == EmptyTable
    {
      catalog := DeclaredCatalog();
      tableModel := new ResultTable();
    }

    /**
      One iteration of the query loop for catalog entry `index`: execute its
      text, set the header if the table has no columns, add a separator if the
      table has rows, then copy the rows read. `failure` is the message of the
      SQLException that ended the iteration, if one did.
     */
    method ExecuteQuery(index: int, answer: string -> QueryOutcome) returns (failure: Option<string>)
      requires 0 <= index < |catalog.displayNames|
      requires WellFormed(AnswerFor(catalog, index, answer))
      modifies tableModel
      ensures Run(tableModel.Snapshot(), failure) ==
        Step(catalog, old(tableModel.Snapshot()), index, AnswerFor(catalog, index, answer))
    {
      var rs := answer(catalog.queryTexts[index]);
      if rs.Rejected? {
        return Some(rs.message);
      }
      var columns, data := rs.columns, rs.rows;
      ghost var expected := Absorb(catalog, tableModel.Snapshot(), index, columns, data);
      var columnCount := |columns|;
      if tableModel.ColumnCount() == 0 {
        var columnNames := ReadOneBased(columnCount, columns);
        tableModel.SetColumnIdentifiers(columnNames);
      }
      if tableModel.RowCount() > 0 {
        tableModel.AddRow(Separator(catalog, index));
      }
      ghost var before := tableModel.rows;
      var j := 0;
      while j < |data|
        invariant 0 <= j <= |data|
        invariant tableModel.rows == before + data[..j]
        invariant tableModel.header == expected.header
      {
        assert data[j] in data;
        var row := ReadOneBased(columnCount, data[j]);
        assert row == data[j];
        tableModel.AddRow(row);
        assert data[..j + 1] == data[..j] + [data[j]];
        j := j + 1;
      }
      assert data[..j] == data;
      failure := if rs.FailedWhileReading? then Some(rs.message) else None;
    }

    /**
      executeSelectedQueries. `selected` is what the list reports as selected,
      `connection` whether opening the connection succeeds and `answer` what
      the database returns for each query text. The returned dialog is the one
      the method shows, if any.
     */
    method ExecuteSelectedQueries(selected: array<int>, connection: Connection,
                                  answer: string -> QueryOutcome) returns (dialog: Option<Dialog>)
      requires forall k :: 0 <= k < selected.Length ==> 0 <= selected[k] < |catalog.displayNames|
      requires WellFormedSource(answer)
      modifies tableModel
      ensures Outcome(tableModel.Snapshot(), dialog) ==
        ExecuteSelected(catalog, old(tableModel.Snapshot()), selected[..], connection, answer)
    {
      var selectedIndices := SelectedIndices(selected);
      assert selectedIndices == selected[..];
      if |selectedIndices| == 0 || |selectedIndices| > MaxSelected {
        dialog := Some(SelectionErrorDialog);
        return;
      }

      tableModel.ClearRows();
      tableModel.ClearColumns();

      var failure: Option<string> := None;
      if connection.ConnectFailed? {
        failure := Some(connection.message);
      } else {
        var k := 0;
        while k < |selectedIndices| && failure.None?
          invariant 0 <= k <= |selectedIndices|
          invariant failure.None? ==>
            RunBatch(catalog, EmptyTable, selectedIndices, answer) ==
            RunBatch(catalog, tableModel.Snapshot(), selectedIndices[k..], answer)
          invariant failure.Some? ==>
            RunBatch(catalog, EmptyTable, selectedIndices, answer) == Run(tableModel.Snapshot(), failure)
          decreases |selectedIndices| - k
        {
          var index := selectedIndices[k];
          assert selectedIndices[k..][1..] == selectedIndices[k + 1..];
          failure := ExecuteQuery(index, answer);
          k := k + 1;
        }
      }
      dialog := if failure.Some? then Some(DatabaseErrorDialog(failure.value)) else None;
    }
  }
}
