/** Clients of the account book that rely on its contracts alone. */
module Examples {
  import opened Wrappers
  import opened Calendar
  import Ledger
  import RunApp

  /** A salary of 1000 and groceries of 250 leave a saving of 750. */
  method SalaryAndGroceries(now: DateTime) {
    var book := new RunApp.AccountData();
    book.AddTransaction(1000.0, "Income", "Salary", now);
    book.AddTransaction(250.0, "Paid", "Groceries", now);
    assert book.Income() == 1000.0;
    assert book.Paid() == 250.0;
    assert book.TotalSaving() == 750.0;
  }

  /** An empty book has no saving and an empty month view. */
  method EmptyBook(now: DateTime) {
    var book := new RunApp.AccountData();
    assert book.TotalSaving() == 0.0;
    assert book.MonthlyTransactions(now) == [];
  }

  /** A record from the previous month stays out of the current month's view. */
  method PreviousMonthExcluded() {
    var january := DateTime(Date(2024, 1, 31), 0);
    var february := DateTime(Date(2024, 2, 10), 0);
    var book := new RunApp.AccountData();
    book.AddTransaction(40.0, "Paid", "Rent", january);
    book.AddTransaction(90.0, "Income", "Refund", february);
    var refund := Ledger.Transaction(90.0, "Income", Some("Refund"), february);
    assert book.MonthlyTransactions(february) == [refund];
    Ledger.CategoryTotalAppend([], refund, Ledger.IncomeCategory);
    Ledger.CategoryTotalAppend([], refund, Ledger.PaidCategory);
    assert [] + [refund] == [refund];
    assert book.MonthlyTotal(february) == 90.0;
  }
}
