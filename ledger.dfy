/**
 * The transaction records and the pure queries over a sequence of them that
 * all three revisions of the account book share: a category total is
 * `sum(t['amount'] for t in ts if t['category'] == c)`, the current-month view
 * is a list comprehension over the records.
 */
module Ledger {
  import opened Wrappers
  import opened Calendar

  const IncomeCategory := "Income"
  const PaidCategory := "Paid"

  /**
   * One record. The ledger stores the category it is given without checking
   * it. `description` is `None` in the revisions that record none.
   */
  datatype Transaction = Transaction(amount: real, category: string, description: Option<string>, date: DateTime)

  /** What `t` adds to the total of `category`. */
  function Contribution(t: Transaction, category: string): real {
    if t.category == category then t.amount else 0.0
  }

  /** The sum of the amounts of the records of `category`, added front to back from 0. */
  function CategoryTotal(ts: seq<Transaction>, category: string): real
    decreases |ts|
  {
    if ts == [] then 0.0
    else CategoryTotal(ts[..|ts| - 1], category) + Contribution(ts[|ts| - 1], category)
  }

  /** Income minus paid: the net saving of any sequence of records. */
  function NetSaving(ts: seq<Transaction>): real {
    CategoryTotal(ts, IncomeCategory) - CategoryTotal(ts, PaidCategory)
  }

  /** The record falls in the calendar month and year of `now`. */
  predicate InMonthOf(t: Transaction, now: DateTime) {
    t.date.date.month == now.date.month && t.date.date.year == now.date.year
  }

  /** `[t for t in ts if t['date'].month == now.month and t['date'].year == now.year]`. */
  function MonthlyTransactions(ts: seq<Transaction>, now: DateTime): seq<Transaction>
    decreases |ts|
  {
    if ts == [] then []
    else
      var last := ts[|ts| - 1];
      MonthlyTransactions(ts[..|ts| - 1], now) + (if InMonthOf(last, now) then [last] else [])
  }

  /** The income of the current month's records minus what was paid in them. */
  function MonthlyTotal(ts: seq<Transaction>, now: DateTime): real {
    NetSaving(MonthlyTransactions(ts, now))
  }

  // ---------------------------------------------------------------------
  // Totals
  // ---------------------------------------------------------------------

  /** Appending a record changes the total of its own category by its amount and no other total. */
  lemma CategoryTotalAppend(ts: seq<Transaction>, t: Transaction, category: string)
    ensures CategoryTotal(ts + [t], category) ==
              CategoryTotal(ts, category) + (if t.category == category then t.amount else 0.0)
  {
    assert (ts + [t])[..|ts|] == ts;
  }

  /** A total over two stretches of records is the sum of their totals. */
  lemma {:induction false} CategoryTotalConcat(a: seq<Transaction>, b: seq<Transaction>, category: string)
    ensures CategoryTotal(a + b, category) == CategoryTotal(a, category) + CategoryTotal(b, category)
    decreases |b|
  {
    if b == [] {
      assert a + b == a;
    } else {
      var b' := b[..|b| - 1];
      assert a + b == (a + b') + [b[|b| - 1]];
      CategoryTotalAppend(a + b', b[|b| - 1], category);
      CategoryTotalConcat(a, b', category);
      CategoryTotalAppend(b', b[|b| - 1], category);
      assert b == b' + [b[|b| - 1]];
    }
  }

  /** A category that no record carries totals 0; in particular, every total of an empty ledger is 0. */
  lemma {:induction false} CategoryTotalAbsent(ts: seq<Transaction>, category: string)
    requires forall i :: 0 <= i < |ts| ==> ts[i].category != category
    ensures CategoryTotal(ts, category) == 0.0
    decreases |ts|
  {
    if ts != [] {
      CategoryTotalAbsent(ts[..|ts| - 1], category);
    }
  }

  /** The sum of all amounts, whatever their category. */
  function TotalAmount(ts: seq<Transaction>): real
    decreases |ts|
  {
    if ts == [] then 0.0 else TotalAmount(ts[..|ts| - 1]) + ts[|ts| - 1].amount
  }

  /** When every record is Income or Paid, the two totals together account for every amount. */
  lemma {:induction false} IncomeAndPaidCoverAll(ts: seq<Transaction>)
    requires forall i :: 0 <= i < |ts| ==> ts[i].category in {IncomeCategory, PaidCategory}
    ensures CategoryTotal(ts, IncomeCategory) + CategoryTotal(ts, PaidCategory) == TotalAmount(ts)
    decreases |ts|
  {
    if ts != [] {
      IncomeAndPaidCoverAll(ts[..|ts| - 1]);
    }
  }

  /**
   * Appending an Income record of amount `a` raises the net saving by `a`, a
   * Paid record lowers it by `a`, and any other record leaves it unchanged.
   */
  lemma NetSavingAppend(ts: seq<Transaction>, t: Transaction)
    ensures NetSaving(ts + [t]) == NetSaving(ts) +
              (if t.category == IncomeCategory then t.amount
               else if t.category == PaidCategory then -t.amount
               else 0.0)
  {
    CategoryTotalAppend(ts, t, IncomeCategory);
    CategoryTotalAppend(ts, t, PaidCategory);
  }

  // ---------------------------------------------------------------------
  // The current month
  // ---------------------------------------------------------------------

  /**
   * `idx` picks out of `ts`, in increasing order of position, exactly the
   * records of the month of `now`, and `r` lists them in that order.
   */
  ghost predicate SelectsMonth(idx: seq<int>, ts: seq<Transaction>, now: DateTime, r: seq<Transaction>) {
    && |idx| == |r|
    && (forall k :: 0 <= k < |idx| ==> 0 <= idx[k] < |ts| && r[k] == ts[idx[k]])
    && (forall k, l :: 0 <= k < l < |idx| ==> idx[k] < idx[l])
    && (forall i :: 0 <= i < |ts| ==> (InMonthOf(ts[i], now) <==> i in idx))
  }

  /**
   * The current-month view is the order-preserving subsequence of exactly the
   * records dated in the month and year of `now`: none is dropped, none from
   * another month is kept, and their order is the order of recording.
   */
  lemma {:induction false} MonthlyIsExactSelection(ts: seq<Transaction>, now: DateTime)
    ensures exists idx :: SelectsMonth(idx, ts, now, MonthlyTransactions(ts, now))
    decreases |ts|
  {
    if ts == [] {
      assert SelectsMonth([], ts, now, MonthlyTransactions(ts, now));
    } else {
      var n := |ts| - 1;
      var r := MonthlyTransactions(ts[..n], now);
      MonthlyIsExactSelection(ts[..n], now);
      var idx :| SelectsMonth(idx, ts[..n], now, r);
      SelectsMonthExtend(idx, ts, now, r);
      if InMonthOf(ts[n], now) {
        assert MonthlyTransactions(ts, now) == r + [ts[n]];
        assert SelectsMonth(idx + [n], ts, now, MonthlyTransactions(ts, now));
      } else {
        assert MonthlyTransactions(ts, now) == r;
        assert SelectsMonth(idx, ts, now, MonthlyTransactions(ts, now));
      }
    }
  }

  /** A selection for a ledger without its last record extends to one for the whole ledger. */
  lemma SelectsMonthExtend(idx: seq<int>, ts: seq<Transaction>, now: DateTime, r: seq<Transaction>)
    requires |ts| > 0 && SelectsMonth(idx, ts[..|ts| - 1], now, r)
    ensures InMonthOf(ts[|ts| - 1], now) ==> SelectsMonth(idx + [|ts| - 1], ts, now, r + [ts[|ts| - 1]])
    ensures !InMonthOf(ts[|ts| - 1], now) ==> SelectsMonth(idx, ts, now, r)
  {
    var n := |ts| - 1;
    assert forall k :: 0 <= k < |idx| ==> idx[k] < n;
    assert forall i :: 0 <= i < n ==> ts[..n][i] == ts[i];
    if InMonthOf(ts[n], now) {
      var idx' := idx + [n];
      var r' := r + [ts[n]];
      assert forall k :: 0 <= k < |idx| ==> idx'[k] == idx[k] && r'[k] == r[k];
      assert forall i :: 0 <= i < n ==> (i in idx' <==> i in idx);
    }
  }

  /** A record is in the current-month view exactly when it is in the ledger and dated in that month. */
  lemma {:induction false} MonthlyMembership(ts: seq<Transaction>, now: DateTime)
    ensures forall t :: t in MonthlyTransactions(ts, now) <==> t in ts && InMonthOf(t, now)
    decreases |ts|
  {
    if ts != [] {
      var init := ts[..|ts| - 1];
      MonthlyMembership(init, now);
      assert ts == init + [ts[|ts| - 1]];
    }
  }

  /** When every record is dated in the current month, the view is the whole ledger. */
  lemma {:induction false} MonthlyAllInMonth(ts: seq<Transaction>, now: DateTime)
    ensures (forall i :: 0 <= i < |ts| ==> InMonthOf(ts[i], now)) ==>
              MonthlyTransactions(ts, now) == ts && MonthlyTotal(ts, now) == NetSaving(ts)
    decreases |ts|
  {
    if ts != [] && forall i :: 0 <= i < |ts| ==> InMonthOf(ts[i], now) {
      var init := ts[..|ts| - 1];
      assert forall i :: 0 <= i < |init| ==> InMonthOf(init[i], now);
      MonthlyAllInMonth(init, now);
      assert MonthlyTransactions(ts, now) == MonthlyTransactions(init, now) + [ts[|ts| - 1]];
      assert ts == init + [ts[|ts| - 1]];
    }
  }

  /** Recording a transaction extends the current-month view by it exactly when it is dated in that month. */
  lemma MonthlyAppend(ts: seq<Transaction>, t: Transaction, now: DateTime)
    ensures MonthlyTransactions(ts + [t], now) ==
              MonthlyTransactions(ts, now) + (if InMonthOf(t, now) then [t] else [])
    ensures MonthlyTotal(ts + [t], now) == MonthlyTotal(ts, now) +
              (if !InMonthOf(t, now) then 0.0
               else if t.category == IncomeCategory then t.amount
               else if t.category == PaidCategory then -t.amount
               else 0.0)
  {
    assert (ts + [t])[..|ts|] == ts;
    if InMonthOf(t, now) {
      NetSavingAppend(MonthlyTransactions(ts, now), t);
    } else {
      assert MonthlyTransactions(ts, now) + [] == MonthlyTransactions(ts, now);
    }
  }
}
