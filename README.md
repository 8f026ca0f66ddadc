# Account book ledger, month label and login check

A Dafny model of the non-UI logic of a desktop personal-finance tracker
(an "account book"):

- **The transaction ledger.** An append-only list of records (amount,
  category, optional description, timestamp) with linear-scan queries: income
  total, paid total, net saving, the current month's records and the current
  month's net. It appears in three revisions, all modelled: the final
  `AccountData` class of `run.py` (module `RunApp`), the earlier `AccountData`
  of `account_data.py` without descriptions or month queries (module
  `AccountData`), and the first version of `account_app.py`, whose list is a
  module-level global (module `AccountApp`, where the module's state is the
  field of one `AppState` object). Each revision is a class holding a `seq`
  of records with an `AddTransaction` method that appends. The pure sums and
  filters live once in module `Ledger`.
- **The month range label** `"{m}/1 - {m}/{last}"` of `monthly_range`
  (`run.py`) and `get_monthly_range` (`src/components/MonthlyStats.py`), two
  copies of the same code (module `MonthRange`). `last` is the day of the date
  one day before the first of the next month. Python's `date` is modelled in
  module `Calendar`: the constructor's range checks, and `date - timedelta`
  through day ordinals as Python's pure-Python `datetime` module computes
  them (`toordinal`, and `fromordinal` by 400-, 100- and 4-year cycles with the
  `(n + 50) >> 5` month estimate). The C accelerator module takes a different
  route to the same dates. The proof that `fromordinal` inverts `toordinal` is what makes
  "the last day is the Gregorian length of the month" a theorem, not a
  definition. Module `Decimal` models the f-string rendering of an `int`.
- **`validate_credentials`** (`auth_utils.py`, copied verbatim into `run.py`),
  an ordered three-way check returning `(is_valid, error_message)` (module
  `Auth`).

Amounts are exact `real` numbers. The clock (`datetime.now()`, `date.today()`)
is a parameter: `AddTransaction` takes the `now` it stamps on the record, and
the month queries and the label take the reference date. All query members
are functions, so none of them can change the ledger.

Two behaviours of the code are kept as written:

- The product works with two categories, `Income` and `Paid`, but the ledger
  code does not enforce that set. The category is stored as the string it is
  given, so a record whose category is neither can exist. It counts toward
  neither total.
- In December of year 9999, `date(today.year + 1, 1, 1)` raises `ValueError`.
  So the label is a `Result`, and it fails exactly then.

## Model

| member | source | states |
|---|---|---|
| `Calendar.LeapYearExamples` | src/components/MonthlyStats.py:52 | the Gregorian century rule that decides February's last day: 2024 and 2000 are leap years, 2023 and 1900 are not |
| `Calendar.ToOrdinal` | src/components/MonthlyStats.py:52 | `date.toordinal()`, days since 0001-01-01 counting that day as 1; its meaning is stated by `Calendar.FromOrdinalToOrdinal`, `Calendar.DaysBeforeNextYear` and `Calendar.OrdinalBounds` |
| `Calendar.FromOrdinal` | src/components/MonthlyStats.py:52 | `date.fromordinal(n)`; it inverts `ToOrdinal` on every representable date, by `Calendar.FromOrdinalToOrdinal` |
| `Calendar.SubtractDays` | src/components/MonthlyStats.py:52 | `d - timedelta(days=k)`: the date `k` days earlier, or `OverflowError` when that ordinal leaves 1..3652059; stepping back from a first of a month gives the last day of the month before, by `MonthRange.LastDayIsDaysInMonth` |
| `Calendar.MakeDate` | src/components/MonthlyStats.py:48-51 | `date(y, m, d)` succeeds exactly on dates with year 1..9999, month 1..12 and a day within the month; an out-of-range year is reported as such |
| `Calendar.FromOrdinalToOrdinal` | src/components/MonthlyStats.py:52 | the ordinal arithmetic behind `date - timedelta`: `fromordinal(toordinal(d)) == d` for every representable date, and its ordinal is at least 1 |
| `Calendar.SplitDays` | src/components/MonthlyStats.py:52 | `fromordinal`'s divmod chain splits a day count into 400-year cycles, centuries (at most 4), 4-year cycles (at most 24), years (at most 4) and under 365 leftover days that add back up to the count |
| `Calendar.DaysBeforeNextYear` | src/components/MonthlyStats.py:52 | in the ordinal scheme a year is 366 days long exactly when it is a Gregorian leap year, and 365 otherwise |
| `Calendar.OrdinalBounds` | run.py:87 | every representable date has an ordinal in 1..3652059, which bounds the subtraction of one day from the anchor |
| `MonthRange.NextMonthStart` | run.py:83-86 | the `next_month` anchor, or the constructor's error; its cases are stated by `MonthRange.NextMonthStartRollover` |
| `MonthRange.LastDay` | run.py:87 | `(next_month - timedelta(days=1)).day`; it is the length of today's month, or the year error in December 9999, by `MonthRange.LastDayIsDaysInMonth` and `MonthRange.LastDayByMonth` |
| `MonthRange.MonthlyRange` | src/components/MonthlyStats.py:42-54 | `get_monthly_range` and `monthly_range`; the label is stated by `MonthRange.MonthlyRangeLabel`, `MonthRange.FebruaryLabel`, `MonthRange.MonthlyRangeIgnoresDay` and `MonthRange.MonthlyRangeDetermines` |
| `MonthRange.NextMonthStartRollover` | src/components/MonthlyStats.py:48-51 | the anchor is `(y, m+1, 1)` for months 1-11 and `(y+1, 1, 1)` for December; December 9999 raises the out-of-range-year error |
| `MonthRange.LastDayIsDaysInMonth` | src/components/MonthlyStats.py:52 | the day before the anchor exists exactly when the anchor does, and its day is the Gregorian number of days of today's month |
| `MonthRange.LastDayByMonth` | run.py:83-87 | the last day is 31 for months 1, 3, 5, 7, 8, 10, 12, 30 for 4, 6, 9, 11, 29 for February of a leap year and 28 otherwise; it is 29 only for February of a leap year |
| `MonthRange.MonthlyRangeLabel` | run.py:78-88 | the label is `"{m}/1 - {m}/{last}"` with the unpadded month (one digit below 10) and the month's length, or the year error in December 9999 |
| `MonthRange.MonthlyRangeIgnoresDay` | src/components/MonthlyStats.py:44-54 | two dates of the same year and month give the same label |
| `MonthRange.FebruaryLabel` | run.py:81-88 | every day of February shows `"2/1 - 2/29"` in a leap year and `"2/1 - 2/28"` otherwise (so 2024-02-10 gives the former and 2023-02-10 the latter) |
| `Decimal.IntToString` | src/components/MonthlyStats.py:54 | `f"{i}"` of an `int`: a `-` before the digits of a negative number; the digits are stated by `Decimal.NatToStringIsDecimal` and `Decimal.NatToStringInjective` |
| `Decimal.NatToStringIsDecimal` | src/components/MonthlyStats.py:54 | the rendering of a number is non-empty decimal digits without a leading zero (except `0`) and reads back as the number |
| `Decimal.NatToStringInjective` | run.py:88 | different numbers render as different strings |
| `MonthRange.RangeTextInjective` | run.py:88 | two labels are equal only for the same month and the same last day |
| `MonthRange.LabelSplit` | src/components/MonthlyStats.py:54 | a label `"{a}/1 - {a}/{b}"` with a digit-only month splits uniquely into `a` and `b` |
| `MonthRange.MonthlyRangeDetermines` | run.py:78-88 | two dates with the same successful label are in the same month, and their months have the same number of days |
| `Ledger.CategoryTotal` | run.py:61-71 | the `sum` of the amounts of one category; stated by `Ledger.CategoryTotalAppend`, `Ledger.CategoryTotalConcat`, `Ledger.CategoryTotalAbsent` and `Ledger.IncomeAndPaidCoverAll` |
| `Ledger.NetSaving` | run.py:73-76 | income minus paid; it moves by the signed amount of each appended record, by `Ledger.NetSavingAppend` |
| `Ledger.MonthlyTransactions` | run.py:90-97 | the records of the month and year of `now`, in order; stated by `Ledger.MonthlyIsExactSelection`, `Ledger.MonthlyMembership`, `Ledger.MonthlyAllInMonth` and `Ledger.MonthlyAppend` |
| `Ledger.MonthlyTotal` | run.py:99-105 | income minus paid over the month view; stated by `Ledger.MonthlyAllInMonth` and `Ledger.MonthlyAppend` |
| `Ledger.CategoryTotalAppend` | account_data.py:21-31 | appending a record raises the total of its own category by its amount and leaves every other total unchanged |
| `Ledger.CategoryTotalConcat` | run.py:61-71 | a category total over two stretches of records is the sum of their totals |
| `Ledger.CategoryTotalAbsent` | account_app.py:19-25 | a category no record carries totals 0, so income and paid are 0 on the empty list |
| `Ledger.IncomeAndPaidCoverAll` | account_data.py:21-31 | when every record is Income or Paid, income plus paid is the sum of all amounts |
| `Ledger.NetSavingAppend` | account_app.py:19-28 | appending an Income record of amount `a` raises the saving by `a`, a Paid record lowers it by `a`, any other record leaves it unchanged |
| `Ledger.MonthlyIsExactSelection` | run.py:90-97 | the month view is the subsequence, in recording order, of exactly the records dated in the month and year of `now` |
| `Ledger.MonthlyMembership` | run.py:95-97 | a record is in the month view exactly when it is in the ledger and dated in the month of `now` |
| `Ledger.MonthlyAllInMonth` | run.py:99-105 | when every record is of the current month, the view is the whole ledger and the month net is the total saving |
| `Ledger.MonthlyAppend` | run.py:90-105 | recording a transaction extends the month view by it exactly when it is dated in the month, and moves the month net by its signed amount only then |
| `RunApp.AccountData.constructor` | run.py:44-45 | a new account book is empty, with income, paid and saving 0 |
| `RunApp.AccountData.AddTransaction` | run.py:47-54 | appends one record with the given amount, category, description and `now`, keeping the earlier ones; income and paid move by the amount in its category only, and the saving by the signed amount; every month view grows by the record exactly when it is of that month |
| `RunApp.AccountData.Income` | run.py:61-65 | the `income` property, the total of the Income records; `AddTransaction` states how it moves |
| `RunApp.AccountData.Paid` | run.py:67-71 | the `paid` property, the total of the Paid records; `AddTransaction` states how it moves |
| `RunApp.AccountData.TotalSaving` | run.py:73-76 | the `total_saving` property; `AddTransaction` states that it moves by the signed amount |
| `RunApp.AccountData.MonthlyTransactions` | run.py:90-97 | holds exactly the book's records dated in the month and year of `now` |
| `RunApp.AccountData.MonthlyTotal` | run.py:99-105 | equals the total saving when every record is of the current month |
| `AccountData.AccountData.constructor` | account_data.py:5-6 | a new book is empty, with income, paid and saving 0 |
| `AccountData.AccountData.AddTransaction` | account_data.py:8-14 | appends `(amount, category, now)` without description at the end; a Paid record raises paid by its amount and leaves income alone, an Income record the converse, any other category neither; the saving moves by the signed amount |
| `AccountData.AccountData.Income` | account_data.py:21-25 | the `income` property; `AddTransaction` states how it moves |
| `AccountData.AccountData.Paid` | account_data.py:27-31 | the `paid` property; `AddTransaction` states how it moves |
| `AccountData.AccountData.TotalSaving` | account_data.py:33-36 | the `total_saving` property; `AddTransaction` states that it moves by the signed amount |
| `AccountApp.AppState.constructor` | account_app.py:7 | the module-level list starts empty, with income, paid and saving 0 |
| `AccountApp.AppState.AddTransaction` | account_app.py:9-14 | appends `(amount, category, now)` at the end and changes nothing else in the list; the saving rises by the amount of an Income record and falls by that of a Paid one |
| `AccountApp.AppState.GetIncome` | account_app.py:19-21 | `get_income()`; `AddTransaction` states how it moves |
| `AccountApp.AppState.GetPaid` | account_app.py:23-25 | `get_paid()`; `AddTransaction` states how it moves |
| `AccountApp.AppState.GetTotalSaving` | account_app.py:27-28 | `get_total_saving()`; `AddTransaction` states that it moves by the signed amount |
| `Auth.ValidateCredentials` | auth_utils.py:11-28 | valid exactly when both fields are non-empty, the username is a key and its password equals the given one; the message is absent exactly when valid, and otherwise one of the two messages |
| `Auth.MissingFieldComesFirst` | auth_utils.py:16-19 | an empty username or password gives `(False, "Username and password are required")`, even when `""` is a key of the map |
| `Auth.RejectionsLookAlike` | run.py:28-37 | with both fields present, an unknown user or a wrong password gives `(False, "Invalid credentials")` |
| `Auth.UnknownUserIndistinguishable` | auth_utils.py:19-25 | an unknown user and a known user with a wrong password get the same result |
| `Auth.DefaultLogins` | run.py:9-12 | against the built-in mapping, exactly `("1", "1")` and `("user", "1")` are accepted |

The query functions (`Ledger`'s sums and filters, the classes' income, paid
and saving, the calendar's ordinals and the label) carry no contract of their
own; the rows above name the lemmas and method contracts that state their
meaning. The module `Examples` holds client methods built on the contracts alone: salary
1000 and groceries 250 leave a saving of 750; an empty book has no saving and
an empty month view; a record from the previous month is left out of the
current month.

## Left out

- The wall clock. `datetime.now()` and `date.today()` are parameters.
  `monthly_transactions` reads the clock twice, once for the month and once
  for the year (run.py:93-94). Around a New Year's midnight those two reads
  could come from different years. The model reads one instant.
- The time of day of a record. It is carried as an opaque number and no query
  uses it.
- The `today_date` property and `get_today_date`, and all `strftime`
  formatting. These are library formatting of the clock.
- Float semantics of amounts. Amounts are exact reals, so sums are
  associative. The `float(...)` parsing of typed text, and the `:.2f`
  currency formatting, belong to the UI.
- `first_day = date(today.year, today.month, 1)` (run.py:82,
  src/components/MonthlyStats.py:45) is computed and never used. It cannot
  fail for a valid `today`, so it is not modelled.
- The logging calls in `validate_credentials`. Values of `username` and
  `password` other than strings (such as `None`) are also not modelled.
- Python records are mutable dicts. The model's records are immutable
  values. No code in the ledger mutates a record after appending it.
- Every tkinter widget, dialog and screen, the splash image resizing, the
  splash timer and the event loop. These include the UI's check that a
  description is non-empty, which is not a ledger precondition.
- The calls of `get_total_saving()`, `get_income()` and `get_paid()` in
  account_screen.py. They target methods that the class in
  account_data.py does not define (it has properties), so there is no
  behaviour to model.
