/**
 * The customer selection of `get_customers` in backend/main.py: each
 * customer's CSV file is summarised (transaction count, days between the
 * first and last transaction, total of the positive amounts), the files that
 * fail a given threshold are skipped, and the remaining summaries are
 * paginated.
 */
module CustomerSelection {
  import opened Options
  import opened Pagination

  /**
   * One row of a customer's CSV file, with the columns `get_customers` reads.
   * `None` stands for a column the file lacks; times are in seconds.
   */
  datatype Row = Row(
    customerId: string,
    creditLimit: Option<real>,
    acqCountry: Option<string>,
    transactionDateTime: int,
    availableMoney: real,
    transactionAmount: real)

  /** One customer's CSV file. */
  datatype CsvFile = CsvFile(rows: seq<Row>)

  /** The query's thresholds; `None` when a parameter is not given. */
  datatype Thresholds = Thresholds(minTxns: Option<int>, minDays: Option<int>, minSpend: Option<real>)

  /** The per-customer figures the thresholds are compared with. */
  datatype Stats = Stats(txnCount: nat, daysWindow: int, spend: real)

  /** One transaction of a returned customer. */
  datatype Transaction = Transaction(transactionDateTime: int, availableMoney: real, transactionAmount: real)

  /** One returned customer. */
  datatype Summary = Summary(customerId: string, creditLimit: real, acqCountry: string, transactions: seq<Transaction>)

  const SecondsPerDay: nat := 86400

  /** The latest transaction time (`max()` of the time column). */
  function Latest(rows: seq<Row>): int
    requires rows != []
  {
    if |rows| == 1 then rows[0].transactionDateTime
    else
      var m := Latest(rows[1..]);
      if rows[0].transactionDateTime >= m then rows[0].transactionDateTime else m
  }

  /** The earliest transaction time (`min()` of the time column). */
  function Earliest(rows: seq<Row>): int
    requires rows != []
  {
    if |rows| == 1 then rows[0].transactionDateTime
    else
      var m := Earliest(rows[1..]);
      if rows[0].transactionDateTime <= m then rows[0].transactionDateTime else m
  }

  /** `Latest` is the largest time of the file and `Earliest` the smallest. */
  lemma {:induction false} TimeBounds(rows: seq<Row>)
    requires rows != []
    ensures forall i :: 0 <= i < |rows| ==>
      Earliest(rows) <= rows[i].transactionDateTime <= Latest(rows)
    ensures exists i :: 0 <= i < |rows| && rows[i].transactionDateTime == Latest(rows)
    ensures exists i :: 0 <= i < |rows| && rows[i].transactionDateTime == Earliest(rows)
  {
    if |rows| > 1 {
      TimeBounds(rows[1..]);
      forall i | 1 <= i < |rows|
        ensures rows[i] == rows[1..][i - 1]
      {
      }
      var j :| 0 <= j < |rows[1..]| && rows[1..][j].transactionDateTime == Latest(rows[1..]);
      var k :| 0 <= k < |rows[1..]| && rows[1..][k].transactionDateTime == Earliest(rows[1..]);
      assert rows[j + 1] == rows[1..][j];
      assert rows[k + 1] == rows[1..][k];
    }
  }

  /** `(max - min).days`: whole days between the first and the last transaction. */
  function DaysWindow(rows: seq<Row>): (days: int)
    requires rows != []
    ensures days >= 0
    ensures days * SecondsPerDay <= Latest(rows) - Earliest(rows) < (days + 1) * SecondsPerDay
  {
    TimeBounds(rows);
    (Latest(rows) - Earliest(rows)) / SecondsPerDay
  }

  /** `df['transactionAmount'][df['transactionAmount'] > 0].sum()`. */
  function PositiveSpend(rows: seq<Row>): (spend: real)
    ensures spend >= 0.0
  {
    if rows == [] then 0.0
    else if rows[0].transactionAmount > 0.0 then rows[0].transactionAmount + PositiveSpend(rows[1..])
    else PositiveSpend(rows[1..])
  }

  /** The spend of two stretches of rows adds up. */
  lemma {:induction false} PositiveSpendAppend(a: seq<Row>, b: seq<Row>)
    ensures PositiveSpend(a + b) == PositiveSpend(a) + PositiveSpend(b)
  {
    if a == [] {
      assert a + b == b;
    } else {
      assert (a + b)[0] == a[0];
      assert (a + b)[1..] == a[1..] + b;
      PositiveSpendAppend(a[1..], b);
    }
  }

  /** A refund or zero amount does not change the spend; a positive amount adds exactly itself. */
  lemma OnlyPositiveAmountsCount(rows: seq<Row>, i: nat)
    requires i < |rows|
    ensures rows[i].transactionAmount <= 0.0 ==>
      PositiveSpend(rows[..i] + rows[i + 1..]) == PositiveSpend(rows)
    ensures rows[i].transactionAmount > 0.0 ==>
      PositiveSpend(rows[..i] + rows[i + 1..]) + rows[i].transactionAmount == PositiveSpend(rows)
  {
    var a, x, b := rows[..i], [rows[i]], rows[i + 1..];
    assert x + b == rows[i..];
    assert rows == a + (x + b);
    PositiveSpendAppend(a, x + b);
    PositiveSpendAppend(x, b);
    PositiveSpendAppend(a, b);
    assert x[1..] == [];
  }

  /** The figures of a non-empty file. */
  function StatsOf(rows: seq<Row>): (st: Stats)
    requires rows != []
    ensures st.txnCount >= 1 && st.daysWindow >= 0 && st.spend >= 0.0
  {
    Stats(|rows|, DaysWindow(rows), PositiveSpend(rows))
  }

  /** Python truthiness of an optional threshold: given and non-zero. */
  predicate Truthy(x: Option<int>) {
    x.Some? && x.value != 0
  }

  predicate TruthyReal(x: Option<real>) {
    x.Some? && x.value != 0.0
  }

  /** The three `if <threshold> and <figure> < <threshold>: continue` tests. */
  predicate Passes(st: Stats, th: Thresholds) {
    && !(Truthy(th.minTxns) && st.txnCount < th.minTxns.value)
    && !(Truthy(th.minDays) && st.daysWindow < th.minDays.value)
    && !(TruthyReal(th.minSpend) && st.spend < th.minSpend.value)
  }

  /**
   * Because the figures are never negative, the truthiness tests amount to
   * plain comparisons with a missing threshold read as 0; in particular a
   * threshold of `None` or 0 imposes no constraint.
   */
  lemma PassesIffAtLeast(st: Stats, th: Thresholds)
    requires st.daysWindow >= 0 && st.spend >= 0.0
    ensures Passes(st, th) <==>
      && st.txnCount >= th.minTxns.GetOr(0)
      && st.daysWindow >= th.minDays.GetOr(0)
      && st.spend >= th.minSpend.GetOr(0.0)
  {
  }

  /** A file is returned iff it has rows and its figures pass the thresholds. */
  predicate Chosen(f: CsvFile, th: Thresholds) {
    f.rows != [] && Passes(StatsOf(f.rows), th)
  }

  /** The summary built from the first row of a file; missing columns read as 0 and "". */
  function SummaryOf(rows: seq<Row>): Summary
    requires rows != []
  {
    Summary(
      rows[0].customerId,
      rows[0].creditLimit.GetOr(0.0),
      rows[0].acqCountry.GetOr(""),
      seq(|rows|, i requires 0 <= i < |rows| =>
        Transaction(rows[i].transactionDateTime, rows[i].availableMoney, rows[i].transactionAmount)))
  }

  /** The summaries of the chosen files, in file order. */
  function Selected(files: seq<CsvFile>, th: Thresholds): seq<Summary> {
    if files == [] then []
    else
      var last := files[|files| - 1];
      if Chosen(last, th) then Selected(files[..|files| - 1], th) + [SummaryOf(last.rows)]
      else Selected(files[..|files| - 1], th)
  }

  /** The loop of `get_customers` over the CSV files. */
  method SelectCustomers(files: seq<CsvFile>, th: Thresholds) returns (summaries: seq<Summary>)
    ensures summaries == Selected(files, th)
  {
    summaries := [];
    for f := 0 to |files|
      invariant summaries == Selected(files[..f], th)
    {
      assert files[..f + 1][..f] == files[..f];
      var rows := files[f].rows;
      if rows == [] {
        continue;
      }
      var txnCount := |rows|;
      var timeWindow := DaysWindow(rows);
      var spend := PositiveSpend(rows);
      if Truthy(th.minTxns) && txnCount < th.minTxns.value {
        continue;
      }
      if Truthy(th.minDays) && timeWindow < th.minDays.value {
        continue;
      }
      if TruthyReal(th.minSpend) && spend < th.minSpend.value {
        continue;
      }
      summaries := summaries + [SummaryOf(rows)];
    }
    assert files[..|files|] == files;
  }

  /** `get_customers`: select, then paginate. */
  method GetCustomers(files: seq<CsvFile>, th: Thresholds, page: int, pageSize: int)
    returns (r: Result<Page<Summary>, PageError>)
    ensures r == Paginate(Selected(files, th), page, pageSize)
    ensures r.Failure? <==> pageSize == 0
  {
    var summaries := SelectCustomers(files, th);
    r := Paginate(summaries, page, pageSize);
  }

  /** Selecting from two runs of files is selecting from each, in order. */
  lemma {:induction false} SelectedAppend(a: seq<CsvFile>, b: seq<CsvFile>, th: Thresholds)
    ensures Selected(a + b, th) == Selected(a, th) + Selected(b, th)
    decreases |b|
  {
    if b == [] {
      assert a + b == a;
    } else {
      var init := b[..|b| - 1];
      assert (a + b)[..|a + b| - 1] == a + init;
      assert (a + b)[|a + b| - 1] == b[|b| - 1];
      SelectedAppend(a, init, th);
    }
  }

  /** A summary is returned iff some chosen file yields it; at most one summary per file. */
  lemma {:induction false} SelectedMembers(files: seq<CsvFile>, th: Thresholds, s: Summary)
    ensures |Selected(files, th)| <= |files|
    ensures s in Selected(files, th) <==> exists f :: f in files && Chosen(f, th) && SummaryOf(f.rows) == s
  {
    if files != [] {
      var init := files[..|files| - 1];
      SelectedMembers(init, th, s);
      assert files == init + [files[|files| - 1]];
    }
  }

  /** With no effective threshold every non-empty file is returned. */
  lemma NoThresholdKeepsAll(files: seq<CsvFile>, th: Thresholds, i: nat)
    requires !Truthy(th.minTxns) && !Truthy(th.minDays) && !TruthyReal(th.minSpend)
    requires i < |files| && files[i].rows != []
    ensures SummaryOf(files[i].rows) in Selected(files, th)
  {
    assert files[i] in files && Chosen(files[i], th);
    SelectedMembers(files, th, SummaryOf(files[i].rows));
  }
}
