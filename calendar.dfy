/**
 * Python's `date` and `datetime` as far as the ledger and the month label use
 * them: the proleptic Gregorian calendar, the range checks of the `date`
 * constructor, and `date - timedelta(days=k)` as Python's pure-Python
 * `datetime` module computes it, through day ordinals (`toordinal`, then
 * `fromordinal` by 400-, 100- and 4-year cycles).
 */
module Calendar {
  import opened Wrappers

  const MinYear := 1
  const MaxYear := 9999
  /** The ordinal of 9999-12-31, the last date Python can represent. */
  const MaxOrdinal := 3652059

  datatype Date = Date(year: int, month: int, day: int)

  /** A `datetime`: its calendar date and the time of day, in microseconds since midnight. */
  datatype DateTime = DateTime(date: Date, timeOfDay: nat)

  /** What the `date` constructor and date arithmetic raise. */
  datatype DateError =
    | YearOutOfRange      // ValueError: year is out of range
    | MonthOutOfRange     // ValueError: month must be in 1..12
    | DayOutOfRange       // ValueError: day is out of range for month
    | ResultOutOfRange    // OverflowError: date value out of range

  /** The Gregorian leap rule. */
  predicate IsLeapYear(y: int) {
    y % 4 == 0 && (y % 100 != 0 || y % 400 == 0)
  }

  /** The number of days of month `m` of year `y`, by the Gregorian rule. */
  function DaysInMonth(y: int, m: int): (n: int)
    ensures 28 <= n <= 31
  {
    if m == 2 then (if IsLeapYear(y) then 29 else 28)
    else if m == 4 || m == 6 || m == 9 || m == 11 then 30
    else 31
  }

  /** 2024 and 2000 are leap years; 2023 and 1900 are not. */
  lemma LeapYearExamples()
    ensures IsLeapYear(2024) && IsLeapYear(2000)
    ensures !IsLeapYear(2023) && !IsLeapYear(1900)
  {
  }

  /** The dates the `date` constructor accepts. */
  predicate ValidDate(d: Date) {
    MinYear <= d.year <= MaxYear && 1 <= d.month <= 12 && 1 <= d.day <= DaysInMonth(d.year, d.month)
  }

  /** `date(y, m, d)`: a date, or the ValueError of the first range check that fails. */
  function MakeDate(y: int, m: int, d: int): (r: Result<Date, DateError>)
    ensures r.Success? <==> ValidDate(Date(y, m, d))
    ensures r.Success? ==> r.value == Date(y, m, d)
    ensures r.Failure? && !(MinYear <= y <= MaxYear) ==> r.error == YearOutOfRange
  {
    if !(MinYear <= y <= MaxYear) then Failure(YearOutOfRange)
    else if !(1 <= m <= 12) then Failure(MonthOutOfRange)
    else if !(1 <= d <= DaysInMonth(y, m)) then Failure(DayOutOfRange)
    else Success(Date(y, m, d))
  }

  // ---------------------------------------------------------------------
  // The ordinal arithmetic of the pure-Python `datetime` module (day 1 is 0001-01-01)
  // ---------------------------------------------------------------------

  /** `_DAYS_IN_MONTH`: the month lengths of a common year. */
  function DaysInMonthTable(m: int): int
    requires 1 <= m <= 12
  {
    match m
    case 1 => 31 case 2 => 28 case 3 => 31 case 4 => 30 case 5 => 31 case 6 => 30
    case 7 => 31 case 8 => 31 case 9 => 30 case 10 => 31 case 11 => 30 case _ => 31
  }

  /** `_DAYS_BEFORE_MONTH`: the days of a common year before the first of each month. */
  function DaysBeforeMonthTable(m: int): int
    requires 1 <= m <= 12
  {
    match m
    case 1 => 0 case 2 => 31 case 3 => 59 case 4 => 90 case 5 => 120 case 6 => 151
    case 7 => 181 case 8 => 212 case 9 => 243 case 10 => 273 case 11 => 304 case _ => 334
  }

  const DaysIn400Years := 146097
  const DaysIn100Years := 36524
  const DaysIn4Years := 1461

  /** Days before January 1 of `year`. Python's `//` floors; with a positive divisor so does Dafny's `/`. */
  function DaysBeforeYear(year: int): int {
    var y := year - 1;
    y * 365 + y / 4 - y / 100 + y / 400
  }

  /** Days of `year` before the first of `month`. */
  function DaysBeforeMonth(year: int, month: int): int
    requires 1 <= month <= 12
  {
    DaysBeforeMonthTable(month) + (if month > 2 && IsLeapYear(year) then 1 else 0)
  }

  /** `date.toordinal()`. */
  function ToOrdinal(d: Date): int
    requires 1 <= d.month <= 12
  {
    DaysBeforeYear(d.year) + DaysBeforeMonth(d.year, d.month) + d.day
  }

  /**
   * The month and day of the day `n` (counted from 0) of a year: `_ord2ymd` first
   * estimates the month as `(n + 50) >> 5` and steps back one month when that
   * overshoots. `>> 5` of a non-negative number is `/ 32`.
   */
  function MonthAndDay(year: int, n: int, leap: bool): Date
    requires 0 <= n < 365
  {
    var estimate := (n + 50) / 32;
    var preceding := DaysBeforeMonthTable(estimate) + (if estimate > 2 && leap then 1 else 0);
    if preceding > n then
      var month := estimate - 1;
      var preceding' := preceding - (DaysInMonthTable(month) + (if month == 2 && leap then 1 else 0));
      Date(year, month, n - preceding' + 1)
    else
      Date(year, estimate, n - preceding + 1)
  }

  /**
   * A count of days split as `_ord2ymd` splits it: whole 400-year cycles,
   * then centuries, 4-year cycles and years, and the days left over.
   */
  datatype Cycles = Cycles(n400: int, n100: int, n4: int, n1: int, rest: int)

  /** The `divmod` chain of `_ord2ymd` applied to `n0` days. */
  function SplitDays(n0: int): (r: Cycles)
    requires n0 >= 0
    ensures r.n400 >= 0 && 0 <= r.n100 <= 4 && 0 <= r.n4 < 25 && 0 <= r.n1 <= 4 && 0 <= r.rest < 365
    ensures n0 == DaysIn400Years * r.n400 + DaysIn100Years * r.n100 + DaysIn4Years * r.n4 + 365 * r.n1 + r.rest
  {
    var n400, r400 := n0 / DaysIn400Years, n0 % DaysIn400Years;
    var n100, r100 := r400 / DaysIn100Years, r400 % DaysIn100Years;
    var n4, r4 := r100 / DaysIn4Years, r100 % DaysIn4Years;
    var n1, r1 := r4 / 365, r4 % 365;
    Cycles(n400, n100, n4, n1, r1)
  }

  /** The date `_ord2ymd` builds from the split of `n - 1`. */
  function DateOfCycles(c: Cycles): Date
    requires 0 <= c.rest < 365
  {
    var year := c.n400 * 400 + 1 + c.n100 * 100 + c.n4 * 4 + c.n1;
    if c.n1 == 4 || c.n100 == 4 then
      // the last day of a 4-year or 400-year cycle
      Date(year - 1, 12, 31)
    else
      MonthAndDay(year, c.rest, c.n1 == 3 && (c.n4 != 24 || c.n100 == 3))
  }

  /** `date.fromordinal(n)`, `_ord2ymd` of the pure-Python `datetime` module. */
  function FromOrdinal(n: int): Date
    requires n >= 1
  {
    DateOfCycles(SplitDays(n - 1))
  }

  /** `d - timedelta(days=k)`: `fromordinal(d.toordinal() - k)`, or OverflowError outside 1..MaxOrdinal. */
  function SubtractDays(d: Date, k: int): Result<Date, DateError>
    requires ValidDate(d)
  {
    var o := ToOrdinal(d) - k;
    if 0 < o <= MaxOrdinal then Success(FromOrdinal(o)) else Failure(ResultOutOfRange)
  }

  // ---------------------------------------------------------------------
  // The ordinal scheme agrees with the calendar
  // ---------------------------------------------------------------------

  /** The table of month starts is the running sum of the Gregorian month lengths. */
  lemma DaysBeforeNextMonth(y: int, m: int)
    requires 1 <= m < 12
    ensures DaysBeforeMonth(y, m + 1) == DaysBeforeMonth(y, m) + DaysInMonth(y, m)
  {
  }

  /** A year has 365 days, and 366 in a leap year. */
  lemma DaysBeforeNextYear(y: int)
    ensures DaysBeforeYear(y + 1) == DaysBeforeYear(y) + 365 + (if IsLeapYear(y) then 1 else 0)
  {
    var x := y - 1;
    assert DaysBeforeYear(y) == x * 365 + x / 4 - x / 100 + x / 400;
    assert DaysBeforeYear(y + 1) == y * 365 + y / 4 - y / 100 + y / 400;
    FloorStep4(x, y);
    FloorStep100(x, y);
    FloorStep400(x, y);
    DivisibilityChain(y);
  }

  /** A multiple of 400 is a multiple of 100, and a multiple of 100 is a multiple of 4. */
  lemma DivisibilityChain(y: int)
    ensures y % 400 == 0 ==> y % 100 == 0
    ensures y % 100 == 0 ==> y % 4 == 0
  {
    if y % 400 == 0 {
      DivByHundred(y, 4 * (y / 400), 0);
    }
    if y % 100 == 0 {
      DivByFour(y, 25 * (y / 100), 0);
    }
  }

  /** Quotient and remainder by 4, 100 and 400, from a decomposition. */
  lemma DivByFour(x: int, q: int, r: int)
    requires x == 4 * q + r && 0 <= r < 4
    ensures x / 4 == q && x % 4 == r
  {
  }

  lemma DivByHundred(x: int, q: int, r: int)
    requires x == 100 * q + r && 0 <= r < 100
    ensures x / 100 == q && x % 100 == r
  {
  }

  lemma DivByFourHundred(x: int, q: int, r: int)
    requires x == 400 * q + r && 0 <= r < 400
    ensures x / 400 == q && x % 400 == r
  {
  }

  /** Floor division by 4, 100 and 400 steps up by one exactly at the multiples. */
  lemma FloorStep4(x: int, y: int)
    requires y == x + 1
    ensures y / 4 == x / 4 + (if y % 4 == 0 then 1 else 0)
  {
  }

  lemma FloorStep100(x: int, y: int)
    requires y == x + 1
    ensures y / 100 == x / 100 + (if y % 100 == 0 then 1 else 0)
  {
  }

  lemma FloorStep400(x: int, y: int)
    requires y == x + 1
    ensures y / 400 == x / 400 + (if y % 400 == 0 then 1 else 0)
  {
  }

  /** Splitting `y - 1` into 400-, 100-, 4- and 1-year cycles gives the days before `y` and its leap status. */
  lemma DaysBeforeYearByCycles(y: int, a: int, b: int, c: int, e: int)
    requires a >= 0 && 0 <= b < 4 && 0 <= c < 25 && 0 <= e < 4
    requires y - 1 == 400 * a + 100 * b + 4 * c + e
    ensures DaysBeforeYear(y) == DaysIn400Years * a + DaysIn100Years * b + DaysIn4Years * c + 365 * e
    ensures IsLeapYear(y) <==> e == 3 && (c != 24 || b == 3)
  {
    var z := y - 1;
    DivByFour(z, 100 * a + 25 * b + c, e);
    DivByHundred(z, 4 * a + b, 4 * c + e);
    DivByFourHundred(z, a, 100 * b + 4 * c + e);
    LeapYearByCycles(y, a, b, c, e);
  }

  /** The leap status of `y` from the cycles of `y - 1`: the last year of a 4-year cycle, except at a century not ending 400 years. */
  lemma LeapYearByCycles(y: int, a: int, b: int, c: int, e: int)
    requires a >= 0 && 0 <= b < 4 && 0 <= c < 25 && 0 <= e < 4
    requires y - 1 == 400 * a + 100 * b + 4 * c + e
    ensures IsLeapYear(y) <==> e == 3 && (c != 24 || b == 3)
  {
    if e == 3 {
      DivByFour(y, 100 * a + 25 * b + c + 1, 0);
    } else {
      DivByFour(y, 100 * a + 25 * b + c, e + 1);
    }
    if c == 24 && e == 3 {
      DivByHundred(y, 4 * a + b + 1, 0);
    } else {
      DivByHundred(y, 4 * a + b, 4 * c + e + 1);
    }
    if b == 3 && c == 24 && e == 3 {
      DivByFourHundred(y, a + 1, 0);
    } else {
      DivByFourHundred(y, a, 100 * b + 4 * c + e + 1);
    }
  }

  /** The day of the year (from 0) of a valid date is less than the length of its year. */
  lemma DayOfYearBounds(d: Date)
    requires ValidDate(d)
    ensures 0 <= DaysBeforeMonth(d.year, d.month) + d.day - 1 < 365 + (if IsLeapYear(d.year) then 1 else 0)
    ensures DaysBeforeMonth(d.year, d.month) + d.day - 1 == 364 + (if IsLeapYear(d.year) then 1 else 0)
            ==> d.month == 12 && d.day == 31
  {
  }

  /** The month estimate of `_ord2ymd`, with its one-step correction, finds the month and day of a day of the year. */
  lemma MonthAndDayCorrect(d: Date, leap: bool)
    requires ValidDate(d) && leap == IsLeapYear(d.year)
    requires DaysBeforeMonth(d.year, d.month) + d.day - 1 < 365
    ensures MonthAndDay(d.year, DaysBeforeMonth(d.year, d.month) + d.day - 1, leap) == d
  {
  }

  /** Quotient and remainder by a cycle length, from a decomposition (one lemma per constant divisor). */
  lemma DivBy400Years(x: int, q: int, r: int)
    requires x == DaysIn400Years * q + r && 0 <= r < DaysIn400Years
    ensures x / DaysIn400Years == q && x % DaysIn400Years == r
  {
  }

  lemma DivBy100Years(x: int, q: int, r: int)
    requires x == DaysIn100Years * q + r && 0 <= r < DaysIn100Years
    ensures x / DaysIn100Years == q && x % DaysIn100Years == r
  {
  }

  lemma DivBy4Years(x: int, q: int, r: int)
    requires x == DaysIn4Years * q + r && 0 <= r < DaysIn4Years
    ensures x / DaysIn4Years == q && x % DaysIn4Years == r
  {
  }

  lemma DivByYear(x: int, q: int, r: int)
    requires x == 365 * q + r && 0 <= r < 365
    ensures x / 365 == q && x % 365 == r
  {
  }

  /**
   * The split of a day count given by its cycles: `a` 400-year cycles, `b`
   * centuries, `c` 4-year cycles, `e` years and `doy` days into the year. The
   * last day of a leap year overflows into `n1 == 4`, or into `n100 == 4`
   * at the end of a 400-year cycle.
   */
  lemma SplitDaysByCycles(n0: int, a: int, b: int, c: int, e: int, doy: int)
    requires a >= 0 && 0 <= b < 4 && 0 <= c < 25 && 0 <= e < 4
    requires 0 <= doy <= 365 && (doy == 365 ==> e == 3 && (c != 24 || b == 3))
    requires n0 == DaysIn400Years * a + DaysIn100Years * b + DaysIn4Years * c + 365 * e + doy
    ensures n0 >= 0
    ensures SplitDays(n0) ==
              if doy < 365 then Cycles(a, b, c, e, doy)
              else if b == 3 && c == 24 then Cycles(a, 4, 0, 0, 0)
              else Cycles(a, b, c, 4, 0)
  {
    var rest := DaysIn100Years * b + DaysIn4Years * c + 365 * e + doy;
    DivBy400Years(n0, a, rest);
    if b == 3 && c == 24 && doy == 365 {
      DivBy100Years(rest, 4, 0);
    } else {
      var rest100 := DaysIn4Years * c + 365 * e + doy;
      DivBy100Years(rest, b, rest100);
      var rest4 := 365 * e + doy;
      DivBy4Years(rest100, c, rest4);
      if doy == 365 {
        DivByYear(rest4, 4, 0);
      } else {
        DivByYear(rest4, e, doy);
      }
    }
  }

  /** `fromordinal(n)` for the ordinal `n` of the day `doy` (from 0) of year `y`. */
  lemma FromOrdinalOfDayOfYear(y: int, doy: int, n: int)
    requires y >= 1 && 0 <= doy < 365 + (if IsLeapYear(y) then 1 else 0)
    requires n == DaysBeforeYear(y) + doy + 1
    ensures n >= 1
    ensures FromOrdinal(n) == if doy == 365 then Date(y, 12, 31) else MonthAndDay(y, doy, IsLeapYear(y))
  {
    var a, b, c, e := YearCycles(y);
    DaysBeforeYearByCycles(y, a, b, c, e);
    FromOrdinalByCycles(y, a, b, c, e, doy, n);
  }

  /** `fromordinal(n)` for the ordinal `n` of the day `doy` of year `y`, with `y - 1` given by its cycles. */
  lemma FromOrdinalByCycles(y: int, a: int, b: int, c: int, e: int, doy: int, n: int)
    requires a >= 0 && 0 <= b < 4 && 0 <= c < 25 && 0 <= e < 4
    requires y - 1 == 400 * a + 100 * b + 4 * c + e
    requires 0 <= doy <= 365 && (doy == 365 ==> e == 3 && (c != 24 || b == 3))
    requires n == 1 + DaysIn400Years * a + DaysIn100Years * b + DaysIn4Years * c + 365 * e + doy
    ensures n >= 1
    ensures FromOrdinal(n) == if doy == 365 then Date(y, 12, 31) else MonthAndDay(y, doy, e == 3 && (c != 24 || b == 3))
  {
    var cycles := if doy < 365 then Cycles(a, b, c, e, doy)
                  else if b == 3 && c == 24 then Cycles(a, 4, 0, 0, 0)
                  else Cycles(a, b, c, 4, 0);
    SplitDaysByCycles(n - 1, a, b, c, e, doy);
    assert FromOrdinal(n) == DateOfCycles(cycles);
    DateOfYearCycles(y, a, b, c, e, doy);
  }

  /** The date built from the cycles of the day `doy` of year `y`. */
  lemma DateOfYearCycles(y: int, a: int, b: int, c: int, e: int, doy: int)
    requires a >= 0 && 0 <= b < 4 && 0 <= c < 25 && 0 <= e < 4
    requires y - 1 == 400 * a + 100 * b + 4 * c + e
    requires 0 <= doy <= 365 && (doy == 365 ==> e == 3 && (c != 24 || b == 3))
    ensures DateOfCycles(if doy < 365 then Cycles(a, b, c, e, doy)
                         else if b == 3 && c == 24 then Cycles(a, 4, 0, 0, 0)
                         else Cycles(a, b, c, 4, 0)) ==
              if doy == 365 then Date(y, 12, 31) else MonthAndDay(y, doy, e == 3 && (c != 24 || b == 3))
  {
  }

  /** `date.fromordinal(d.toordinal()) == d` for every date Python can represent. */
  lemma FromOrdinalToOrdinal(d: Date)
    requires ValidDate(d)
    ensures ToOrdinal(d) >= 1
    ensures FromOrdinal(ToOrdinal(d)) == d
  {
    DayOfYearBounds(d);
    var doy := DaysBeforeMonth(d.year, d.month) + d.day - 1;
    FromOrdinalOfDayOfYear(d.year, doy, ToOrdinal(d));
    if doy < 365 {
      MonthAndDayCorrect(d, IsLeapYear(d.year));
    }
  }

  /** Every valid date has an ordinal in `1..MaxOrdinal`. */
  lemma OrdinalBounds(d: Date)
    requires ValidDate(d)
    ensures 1 <= ToOrdinal(d) <= MaxOrdinal
  {
    DayOfYearBounds(d);
    DaysBeforeNextYear(d.year);
    DaysBeforeYearGrows(1, d.year);
    DaysBeforeYearGrows(d.year + 1, MaxYear + 1);
    assert DaysBeforeYear(1) == 0;
    assert DaysBeforeYear(MaxYear + 1) == MaxOrdinal;
  }

  /** Each year adds at least 365 days. */
  lemma {:induction false} DaysBeforeYearGrows(y: int, z: int)
    requires y <= z
    ensures DaysBeforeYear(y) + 365 * (z - y) <= DaysBeforeYear(z)
    decreases z - y
  {
    if y < z {
      DaysBeforeNextYear(y);
      DaysBeforeYearGrows(y + 1, z);
    }
  }

  /** The 400-year cycles, centuries, 4-year cycles and years that make up `y - 1`. */
  lemma YearCycles(y: int) returns (a: int, b: int, c: int, e: int)
    requires y >= 1
    ensures a >= 0 && 0 <= b < 4 && 0 <= c < 25 && 0 <= e < 4
    ensures y - 1 == 400 * a + 100 * b + 4 * c + e
  {
    var z := y - 1;
    a := z / 400;
    b := (z - 400 * a) / 100;
    c := (z - 400 * a - 100 * b) / 4;
    e := z - 400 * a - 100 * b - 4 * c;
  }
}
