/** The earlier account book class: records carry no description, and there are no month queries. */
module AccountData {
  import opened Wrappers
  import opened Calendar
  import Ledger

  class AccountData {
    /** The records, in the order they were added. */
    var transactions: seq<Ledger.Transaction>

    constructor ()
      ensures transactions == []
      ensures Income() == 0.0 && Paid() == 0.0 && TotalSaving() == 0.0
    {
      transactions := [];
    }

    /**
     * Appends one record `(amount, category, now)` with no description.
     * A Paid record raises `paid` by its amount and leaves `income` alone, an
     * Income record does the converse, and any other category moves neither.
     */
    method AddTransaction(amount: real, category: string, now: DateTime)
      modifies this
      ensures transactions == old(transactions) + [Ledger.Transaction(amount, category, None, now)]
      ensures Income() == old(Income()) + (if category == Ledger.IncomeCategory then amount else 0.0)
      ensures Paid() == old(Paid()) + (if category == Ledger.PaidCategory then amount else 0.0)
      ensures TotalSaving() == old(TotalSaving()) +
                (if category == Ledger.IncomeCategory then amount
                 else if category == Ledger.PaidCategory then -amount
                 else 0.0)
    {
      var t := Ledger.Transaction(amount, category, None, now);
      Ledger.CategoryTotalAppend(transactions, t, Ledger.IncomeCategory);
      Ledger.CategoryTotalAppend(transactions, t, Ledger.PaidCategory);
      transactions := transactions + [t];
    }

    /** The `income` property. */
    function Income(): real
      reads this
    {
      Ledger.CategoryTotal(transactions, Ledger.IncomeCategory)
    }

    /** The `paid` property. */
    function Paid(): real
      reads this
    {
      Ledger.CategoryTotal(transactions, Ledger.PaidCategory)
    }

    /** The `total_saving` property. */
    function TotalSaving(): real
      reads this
    {
      Income() - Paid()
    }
  }
}
