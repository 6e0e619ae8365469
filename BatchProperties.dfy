/**
  What a batch run promises, proved about the functions of module Batch:
  the table only grows, the header is set once, the merged rows of a
  successful batch in closed form, where separators go, how many rows there
  are, and what a failure leaves behind.
 */
module BatchProperties {
  import opened Wrappers
  import opened Catalog
  import opened Batch

  /** Every selected query runs to completion. */
  predicate AllAnswered(c: ParallelCatalog, selection: seq<int>, answer: string -> QueryOutcome)
    requires ValidIndices(c, selection)
  {
    forall k :: 0 <= k < |selection| ==> AnswerFor(c, selection[k], answer).Answered?
  }

  /**
    Reference definition of the merged rows of a batch in which every query
    answers: each query's rows in list order, each preceded by its separator
    when some rows came before (`afterRows` says whether the table already
    held rows before the first of them).
   */
  function MergedRows(c: ParallelCatalog, afterRows: bool, selection: seq<int>,
                      answer: string -> QueryOutcome): seq<Row>
    requires ValidIndices(c, selection) && AllAnswered(c, selection, answer)
    decreases |selection|
  {
    if |selection| == 0 then []
    else
      var data := AnswerFor(c, selection[0], answer).rows;
      (if afterRows then [Separator(c, selection[0])] else []) + data +
      MergedRows(c, afterRows || |data| > 0, selection[1..], answer)
  }

  /** The number of result rows the selected queries return, all together. */
  function DataRowCount(c: ParallelCatalog, selection: seq<int>, answer: string -> QueryOutcome): nat
    requires ValidIndices(c, selection) && AllAnswered(c, selection, answer)
    decreases |selection|
  {
    if |selection| == 0 then 0
    else |AnswerFor(c, selection[0], answer).rows| + DataRowCount(c, selection[1..], answer)
  }

  /**
    A run only appends rows after the ones already in the table, and never
    replaces a header that has columns, whatever the later queries return
    and whether or not one of them fails.
   */
  lemma {:induction false} RunBatchExtends(c: ParallelCatalog, t: Table, selection: seq<int>,
                                           answer: string -> QueryOutcome)
    requires ValidIndices(c, selection)
    ensures t.rows <= RunBatch(c, t, selection, answer).table.rows
    ensures |t.header| > 0 ==> RunBatch(c, t, selection, answer).table.header == t.header
    decreases |selection|
  {
    if |selection| > 0 {
      var r := Step(c, t, selection[0], AnswerFor(c, selection[0], answer));
      assert t.rows <= r.table.rows;
      if r.failure.None? {
        RunBatchExtends(c, r.table, selection[1..], answer);
      }
    }
  }

  /**
    Running a list is running its first part and then its second part on
    the table the first part left, provided the first part did not fail.
   */
  lemma {:induction false} RunBatchSplits(c: ParallelCatalog, t: Table, first: seq<int>, second: seq<int>,
                                          answer: string -> QueryOutcome)
    requires ValidIndices(c, first) && ValidIndices(c, second)
    requires RunBatch(c, t, first, answer).failure == None
    ensures ValidIndices(c, first + second)
    ensures RunBatch(c, t, first + second, answer) ==
      RunBatch(c, RunBatch(c, t, first, answer).table, second, answer)
    decreases |first|
  {
    var both := first + second;
    assert ValidIndices(c, both) by {
      forall k | 0 <= k < |both| ensures 0 <= both[k] < |c.displayNames| {
        if k < |first| { assert both[k] == first[k]; } else { assert both[k] == second[k - |first|]; }
      }
    }
    if |first| == 0 {
      assert both == second;
    } else {
      var r := Step(c, t, first[0], AnswerFor(c, first[0], answer));
      assert both[0] == first[0];
      assert both[1..] == first[1..] + second;
      RunBatchSplits(c, r.table, first[1..], second, answer);
    }
  }

  /**
    Closed form of a batch in which every query answers: no failure, and the
    rows are the earlier rows followed by the merged rows of the queries.
   */
  lemma {:induction false} SuccessfulBatch(c: ParallelCatalog, t: Table, selection: seq<int>,
                                           answer: string -> QueryOutcome)
    requires ValidIndices(c, selection) && AllAnswered(c, selection, answer)
    ensures RunBatch(c, t, selection, answer).failure == None
    ensures RunBatch(c, t, selection, answer).table.rows == t.rows + MergedRows(c, |t.rows| > 0, selection, answer)
    decreases |selection|
  {
    if |selection| > 0 {
      var o := AnswerFor(c, selection[0], answer);
      var t1 := Absorb(c, t, selection[0], o.columns, o.rows);
      var separator := if |t.rows| > 0 then [Separator(c, selection[0])] else [];
      assert Step(c, t, selection[0], o) == Run(t1, None);
      assert RunBatch(c, t, selection, answer) == RunBatch(c, t1, selection[1..], answer);
      assert AllAnswered(c, selection[1..], answer) by {
        forall k | 0 <= k < |selection[1..]| ensures AnswerFor(c, selection[1..][k], answer).Answered? {
          assert selection[1..][k] == selection[k + 1];
        }
      }
      SuccessfulBatch(c, t1, selection[1..], answer);
      assert t1.rows == t.rows + separator + o.rows;
      assert (|t1.rows| > 0) == (|t.rows| > 0 || |o.rows| > 0);
      var rest := MergedRows(c, |t1.rows| > 0, selection[1..], answer);
      assert MergedRows(c, |t.rows| > 0, selection, answer) == separator + o.rows + rest;
      calc {
        RunBatch(c, t, selection, answer).table.rows;
        t1.rows + rest;
        (t.rows + separator + o.rows) + rest;
        t.rows + (separator + o.rows + rest);
      }
    }
  }

  /**
    The separator rule. When the queries before position `k` did not fail
    and query `k` got past its metadata, the final table holds, in order:
    the rows present before query `k`, then its separator exactly when those
    rows are not empty, then every row query `k` read.
   */
  lemma SeparatorRule(c: ParallelCatalog, t: Table, selection: seq<int>,
                      answer: string -> QueryOutcome, k: nat)
    requires ValidIndices(c, selection) && k < |selection|
    requires RunBatch(c, t, selection[..k], answer).failure == None
    requires !AnswerFor(c, selection[k], answer).Rejected?
    ensures
      var before := RunBatch(c, t, selection[..k], answer).table.rows;
      var separator := if |before| > 0 then [Separator(c, selection[k])] else [];
      before + separator + AnswerFor(c, selection[k], answer).rows <= RunBatch(c, t, selection, answer).table.rows
  {
    var before := RunBatch(c, t, selection[..k], answer).table;
    assert selection == selection[..k] + selection[k..];
    RunBatchSplits(c, t, selection[..k], selection[k..], answer);
    var o := AnswerFor(c, selection[k], answer);
    var r := Step(c, before, selection[k], o);
    assert selection[k..][0] == selection[k];
    if r.failure.None? {
      RunBatchExtends(c, r.table, selection[k..][1..], answer);
    }
  }

  /**
    A failure stops the batch. If every query before position `k` answered
    and query `k` raised a SQLException, the result is the table the earlier
    queries built, plus what query `k` added before failing (its separator
    and the rows it read, unless it failed before its metadata), and the
    error carries that query's message.
   */
  lemma FailedBatch(c: ParallelCatalog, t: Table, selection: seq<int>,
                    answer: string -> QueryOutcome, k: nat)
    requires ValidIndices(c, selection) && k < |selection|
    requires forall j :: 0 <= j < k ==> AnswerFor(c, selection[j], answer).Answered?
    requires !AnswerFor(c, selection[k], answer).Answered?
    ensures
      var before := RunBatch(c, t, selection[..k], answer).table;
      var o := AnswerFor(c, selection[k], answer);
      RunBatch(c, t, selection, answer) == Step(c, before, selection[k], o) &&
      RunBatch(c, t, selection, answer).failure == Some(o.message) &&
      RunBatch(c, t, selection, answer).table.rows ==
        if o.Rejected? then before.rows
        else before.rows + (if |before.rows| > 0 then [Separator(c, selection[k])] else []) + o.rows
  {
    var prefix := selection[..k];
    assert AllAnswered(c, prefix, answer) by {
      forall j | 0 <= j < |prefix| ensures AnswerFor(c, prefix[j], answer).Answered? {
        assert prefix[j] == selection[j];
      }
    }
    SuccessfulBatch(c, t, prefix, answer);
    assert selection == prefix + selection[k..];
    RunBatchSplits(c, t, prefix, selection[k..], answer);
    assert selection[k..][0] == selection[k];
  }

  /** A run depends only on what the database answers for the selected queries. */
  lemma {:induction false} SameAnswersSameRun(c: ParallelCatalog, t: Table, selection: seq<int>,
                                              a1: string -> QueryOutcome, a2: string -> QueryOutcome)
    requires ValidIndices(c, selection)
    requires forall j :: 0 <= j < |selection| ==> AnswerFor(c, selection[j], a1) == AnswerFor(c, selection[j], a2)
    ensures RunBatch(c, t, selection, a1) == RunBatch(c, t, selection, a2)
    decreases |selection|
  {
    if |selection| > 0 {
      var r := Step(c, t, selection[0], AnswerFor(c, selection[0], a1));
      if r.failure.None? {
        forall j | 0 <= j < |selection[1..]|
          ensures AnswerFor(c, selection[1..][j], a1) == AnswerFor(c, selection[1..][j], a2)
        {
          assert selection[1..][j] == selection[j + 1];
        }
        SameAnswersSameRun(c, r.table, selection[1..], a1, a2);
      }
    }
  }

  /**
    A press whose selection is accepted and whose query `k` raises a
    SQLException after the earlier ones answered shows the database error
    dialog with that query's message and leaves in the table everything added
    before the failure: nothing is rolled back.
   */
  lemma FailureReported(c: ParallelCatalog, previous: Table, selection: seq<int>,
                        answer: string -> QueryOutcome, k: nat)
    requires ValidIndices(c, selection) && k < |selection| <= MaxSelected
    requires forall j :: 0 <= j < k ==> AnswerFor(c, selection[j], answer).Answered?
    requires !AnswerFor(c, selection[k], answer).Answered?
    ensures
      var r := ExecuteSelected(c, previous, selection, Connected, answer);
      var before := RunBatch(c, EmptyTable, selection[..k], answer).table;
      var o := AnswerFor(c, selection[k], answer);
      r.dialog == Some(DatabaseErrorDialog(o.message)) &&
      r.table == Step(c, before, selection[k], o).table &&
      before.rows <= r.table.rows
  {
    FailedBatch(c, EmptyTable, selection, answer, k);
  }

  /**
    Queries after the failing one are never executed: two databases that
    answer the same up to and including the failing query `k` give the same
    table and the same error, whatever they would answer afterwards.
   */
  lemma LaterQueriesNotExecuted(c: ParallelCatalog, t: Table, selection: seq<int>,
                                a1: string -> QueryOutcome, a2: string -> QueryOutcome, k: nat)
    requires ValidIndices(c, selection) && k < |selection|
    requires forall j :: 0 <= j < k ==> AnswerFor(c, selection[j], a1).Answered?
    requires !AnswerFor(c, selection[k], a1).Answered?
    requires forall j :: 0 <= j <= k ==> AnswerFor(c, selection[j], a1) == AnswerFor(c, selection[j], a2)
    ensures RunBatch(c, t, selection, a1) == RunBatch(c, t, selection, a2)
  {
    FailedBatch(c, t, selection, a1, k);
    FailedBatch(c, t, selection, a2, k);
    var prefix := selection[..k];
    forall j | 0 <= j < |prefix| ensures AnswerFor(c, prefix[j], a1) == AnswerFor(c, prefix[j], a2) {
      assert prefix[j] == selection[j];
    }
    SameAnswersSameRun(c, t, prefix, a1, a2);
  }

  /**
    The header is the column list of the first query whose metadata has
    columns, when the table starts without columns and the queries before it
    answered with no columns. It holds whatever happens afterwards: query k
    may fail while reading its rows and later queries may fail, because the
    header is set before any row is read and is never replaced.
   */
  lemma {:induction false} HeaderFromFirstQueryWithColumns(c: ParallelCatalog, t: Table, selection: seq<int>,
                                                           answer: string -> QueryOutcome, k: nat)
    requires ValidIndices(c, selection)
    requires |t.header| == 0 && k < |selection|
    requires forall j :: 0 <= j < k ==> AnswerFor(c, selection[j], answer).Answered?
    requires forall j :: 0 <= j < k ==> |AnswerFor(c, selection[j], answer).columns| == 0
    requires !AnswerFor(c, selection[k], answer).Rejected?
    requires |AnswerFor(c, selection[k], answer).columns| > 0
    ensures RunBatch(c, t, selection, answer).table.header == AnswerFor(c, selection[k], answer).columns
    decreases |selection|
  {
    var o := AnswerFor(c, selection[0], answer);
    var r := Step(c, t, selection[0], o);
    if k == 0 {
      if r.failure.None? {
        RunBatchExtends(c, r.table, selection[1..], answer);
      }
    } else {
      forall j | 0 <= j < k - 1
        ensures AnswerFor(c, selection[1..][j], answer).Answered?
        ensures |AnswerFor(c, selection[1..][j], answer).columns| == 0
      {
        assert selection[1..][j] == selection[j + 1];
      }
      assert selection[1..][k - 1] == selection[k];
      HeaderFromFirstQueryWithColumns(c, r.table, selection[1..], answer, k - 1);
    }
  }

  /** Once the table holds rows, every further answering query adds exactly one separator. */
  lemma {:induction false} RowCountAfterRows(c: ParallelCatalog, selection: seq<int>, answer: string -> QueryOutcome)
    requires ValidIndices(c, selection) && AllAnswered(c, selection, answer)
    ensures |MergedRows(c, true, selection, answer)| == DataRowCount(c, selection, answer) + |selection|
    decreases |selection|
  {
    if |selection| > 0 {
      assert AllAnswered(c, selection[1..], answer) by {
        forall j | 0 <= j < |selection[1..]| ensures AnswerFor(c, selection[1..][j], answer).Answered? {
          assert selection[1..][j] == selection[j + 1];
        }
      }
      RowCountAfterRows(c, selection[1..], answer);
    }
  }

  /**
    After an accepted press with a working connection, when every query
    answers with at least one row, all queries but the first get a
    separator: the table has the data rows plus one less than the number of
    queries.
   */
  lemma RowCountWhenEveryQueryReturnsRows(c: ParallelCatalog, previous: Table, selection: seq<int>,
                                          answer: string -> QueryOutcome)
    requires ValidIndices(c, selection) && AllAnswered(c, selection, answer)
    requires 0 < |selection| <= MaxSelected
    requires forall k :: 0 <= k < |selection| ==> |AnswerFor(c, selection[k], answer).rows| > 0
    ensures |ExecuteSelected(c, previous, selection, Connected, answer).table.rows| ==
      DataRowCount(c, selection, answer) + |selection| - 1
  {
    SuccessfulBatch(c, EmptyTable, selection, answer);
    assert AllAnswered(c, selection[1..], answer) by {
      forall j | 0 <= j < |selection[1..]| ensures AnswerFor(c, selection[1..][j], answer).Answered? {
        assert selection[1..][j] == selection[j + 1];
      }
    }
    RowCountAfterRows(c, selection[1..], answer);
  }

  /**
    Queries that find the table still empty get no separator: while every
    earlier query returned no rows, the merge is as if they were not there.
   */
  lemma {:induction false} EmptyLeadingQueriesGetNoSeparator(c: ParallelCatalog, selection: seq<int>,
                                                             answer: string -> QueryOutcome, k: nat)
    requires ValidIndices(c, selection) && AllAnswered(c, selection, answer) && k <= |selection|
    requires forall j :: 0 <= j < k ==> |AnswerFor(c, selection[j], answer).rows| == 0
    ensures ValidIndices(c, selection[k..]) && AllAnswered(c, selection[k..], answer)
    ensures MergedRows(c, false, selection, answer) == MergedRows(c, false, selection[k..], answer)
    decreases |selection|
  {
    assert ValidIndices(c, selection[k..]) && AllAnswered(c, selection[k..], answer) by {
      forall j | 0 <= j < |selection[k..]|
        ensures 0 <= selection[k..][j] < |c.displayNames| && AnswerFor(c, selection[k..][j], answer).Answered?
      {
        assert selection[k..][j] == selection[k + j];
      }
    }
    if k > 0 {
      assert AllAnswered(c, selection[1..], answer) by {
        forall j | 0 <= j < |selection[1..]| ensures AnswerFor(c, selection[1..][j], answer).Answered? {
          assert selection[1..][j] == selection[j + 1];
        }
      }
      forall j | 0 <= j < k - 1 ensures |AnswerFor(c, selection[1..][j], answer).rows| == 0 {
        assert selection[1..][j] == selection[j + 1];
      }
      EmptyLeadingQueriesGetNoSeparator(c, selection[1..], answer, k - 1);
      assert selection[1..][k - 1..] == selection[k..];
    }
  }

  /**
    The first accepted query never gets a separator: after a press with an
    accepted selection and a working connection, the rows the first query
    read open the table, and if its metadata has columns they are the header.
   */
  lemma FirstQueryOpensTable(c: ParallelCatalog, previous: Table, selection: seq<int>,
                             answer: string -> QueryOutcome)
    requires ValidIndices(c, selection) && 0 < |selection| <= MaxSelected
    requires !AnswerFor(c, selection[0], answer).Rejected?
    ensures
      var o := AnswerFor(c, selection[0], answer);
      var r := ExecuteSelected(c, previous, selection, Connected, answer);
      o.rows <= r.table.rows && (|o.columns| > 0 ==> r.table.header == o.columns)
  {
    var o := AnswerFor(c, selection[0], answer);
    var r := Step(c, EmptyTable, selection[0], o);
    assert r.table.rows == o.rows;
    if r.failure.None? {
      RunBatchExtends(c, r.table, selection[1..], answer);
    }
  }

  /**
    Two answering queries returning two rows and one row give four rows:
    data, data, the second query's separator, data; the header is the first
    query's when it has columns.
   */
  lemma TwoQueriesExample(c: ParallelCatalog, previous: Table, i1: int, i2: int, answer: string -> QueryOutcome,
                          columns1: seq<string>, columns2: seq<string>, d1: Row, d2: Row, d3: Row)
    requires 0 <= i1 < |c.displayNames| && 0 <= i2 < |c.displayNames|
    requires AnswerFor(c, i1, answer) == Answered(columns1, [d1, d2])
    requires AnswerFor(c, i2, answer) == Answered(columns2, [d3])
    requires |columns1| > 0
    ensures ExecuteSelected(c, previous, [i1, i2], Connected, answer) ==
      Outcome(Table(columns1, [d1, d2, Separator(c, i2), d3]), None)
  {
    var selection := [i1, i2];
    var first := Step(c, EmptyTable, i1, AnswerFor(c, i1, answer));
    assert first == Run(Table(columns1, [d1, d2]), None);
    var second := Step(c, first.table, i2, AnswerFor(c, i2, answer));
    assert second == Run(Table(columns1, [d1, d2] + [Separator(c, i2)] + [d3]), None);
    assert selection[1..] == [i2];
    assert RunBatch(c, first.table, [i2], answer) == second;
  }
}
