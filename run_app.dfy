/** The account book of the final revision: records carry a description, and month-scoped queries exist. */
module RunApp {
  import opened Wrappers
  import opened Calendar
  import Ledger

  class AccountData {
    /** The records, in the order they were added. */
    var transactions: seq<Ledger.Transaction>

    constructor ()
      ensures transactions == []
      ensures Income() == 0.0 && Paid() == 0.0 && TotalSaving() == 0.0
    {
      transactions := [];
    }

    /**
     * Appends one record stamped with `now` (the caller's `datetime.now()`).
     * Earlier records are untouched; the totals move by the new amount in
     * its own category only, and the month view of any reference date grows
     * by the record exactly when it is dated in that month.
     */
    method AddTransaction(amount: real, category: string, description: string, now: DateTime)
      modifies this
      ensures transactions == old(transactions) + [Ledger.Transaction(amount, category, Some(description), now)]
      ensures Income() == old(Income()) + (if category == Ledger.IncomeCategory then amount else 0.0)
      ensures Paid() == old(Paid()) + (if category == Ledger.PaidCategory then amount else 0.0)
      ensures TotalSaving() == old(TotalSaving()) +
                (if category == Ledger.IncomeCategory then amount
                 else if category == Ledger.PaidCategory then -amount
                 else 0.0)
      ensures forall ref: DateTime {:trigger MonthlyTransactions(ref)} ::
                MonthlyTransactions(ref) == old(MonthlyTransactions(ref)) +
                  (if Ledger.InMonthOf(transactions[|transactions| - 1], ref) then [transactions[|transactions| - 1]] else [])
    {
      var t := Ledger.Transaction(amount, category, Some(description), now);
      Ledger.CategoryTotalAppend(transactions, t, Ledger.IncomeCategory);
      Ledger.CategoryTotalAppend(transactions, t, Ledger.PaidCategory);
      forall ref: DateTime
        ensures Ledger.MonthlyTransactions(transactions + [t], ref) ==
                  Ledger.MonthlyTransactions(transactions, ref) + (if Ledger.InMonthOf(t, ref) then [t] else [])
      {
        Ledger.MonthlyAppend(transactions, t, ref);
      }
      transactions := transactions + [t];
    }

    /** The `income` property. */
    function Income(): real
      reads this
    {
      Ledger.CategoryTotal(transactions, Ledger.IncomeCategory)
    }

    /** The `paid` property. */
    function Paid(): real
      reads this
    {
      Ledger.CategoryTotal(transactions, Ledger.PaidCategory)
    }

    /** The `total_saving` property. */
    function TotalSaving(): real
      reads this
    {
      Income() - Paid()
    }

    /**
     * The `monthly_transactions` property, with `now` for the clock: the
     * records of the month and year of `now`, and all of them.
     */
    function MonthlyTransactions(now: DateTime): (r: seq<Ledger.Transaction>)
      reads this
      ensures forall t :: t in r <==> t in transactions && Ledger.InMonthOf(t, now)
    {
      Ledger.MonthlyMembership(transactions, now);
      Ledger.MonthlyTransactions(transactions, now)
    }

    /**
     * The `monthly_total` property, with `now` for the clock. When every
     * record is of the current month it is the total saving.
     */
    function MonthlyTotal(now: DateTime): (r: real)
      reads this
      ensures (forall i :: 0 <= i < |transactions| ==> Ledger.InMonthOf(transactions[i], now)) ==> r == TotalSaving()
    {
      Ledger.MonthlyAllInMonth(transactions, now);
      Ledger.MonthlyTotal(transactions, now)
    }
  }
}
