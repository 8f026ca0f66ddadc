/**
 * The first revision, where the records are a module-level list: the list is
 * the field of one object standing for the module's state.
 */
module AccountApp {
  import opened Wrappers
  import opened Calendar
  import Ledger

  class AppState {
    /** The module-level `transactions` list. */
    var transactions: seq<Ledger.Transaction>

    /** The module is loaded with an empty list. */
    constructor ()
      ensures transactions == []
      ensures GetIncome() == 0.0 && GetPaid() == 0.0 && GetTotalSaving() == 0.0
    {
      transactions := [];
    }

    /**
     * `add_transaction`: appends `(amount, category, now)` and changes nothing
     * else in the list. The saving rises by `amount` for an Income record and
     * falls by it for a Paid one.
     */
    method AddTransaction(amount: real, category: string, now: DateTime)
      modifies this
      ensures transactions == old(transactions) + [Ledger.Transaction(amount, category, None, now)]
      ensures GetIncome() == old(GetIncome()) + (if category == Ledger.IncomeCategory then amount else 0.0)
      ensures GetPaid() == old(GetPaid()) + (if category == Ledger.PaidCategory then amount else 0.0)
      ensures GetTotalSaving() == old(GetTotalSaving()) +
                (if category == Ledger.IncomeCategory then amount
                 else if category == Ledger.PaidCategory then -amount
                 else 0.0)
    {
      var t := Ledger.Transaction(amount, category, None, now);
      Ledger.CategoryTotalAppend(transactions, t, Ledger.IncomeCategory);
      Ledger.CategoryTotalAppend(transactions, t, Ledger.PaidCategory);
      transactions := transactions + [t];
    }

    function GetIncome(): real
      reads this
    {
      Ledger.CategoryTotal(transactions, Ledger.IncomeCategory)
    }

    function GetPaid(): real
      reads this
    {
      Ledger.CategoryTotal(transactions, Ledger.PaidCategory)
    }

    function GetTotalSaving(): real
      reads this
    {
      GetIncome() - GetPaid()
    }
  }
}
