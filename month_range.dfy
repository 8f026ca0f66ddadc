/**
 * The current month's range label, `"{m}/1 - {m}/{last}"`, where `last` is the
 * day before the first of the next month. `today` stands for `date.today()`.
 */
module MonthRange {
  import opened Wrappers
  import opened Calendar
  import opened Decimal

  /** The first of the month after `today`'s: January 1 of the next year in December. */
  function NextMonthStart(today: Date): Result<Date, DateError>
    requires ValidDate(today)
  {
    if today.month == 12 then MakeDate(today.year + 1, 1, 1)
    else MakeDate(today.year, today.month + 1, 1)
  }

  /** `(next_month - timedelta(days=1)).day`, or what the date arithmetic raised. */
  function LastDay(today: Date): Result<int, DateError>
    requires ValidDate(today)
  {
    match NextMonthStart(today)
    case Failure(e) => Failure(e)
    case Success(next) =>
      match SubtractDays(next, 1)
      case Failure(e) => Failure(e)
      case Success(d) => Success(d.day)
  }

  /** `monthly_range` / `get_monthly_range`: the label, or the error raised in December 9999. */
  function MonthlyRange(today: Date): Result<string, DateError>
    requires ValidDate(today)
  {
    match LastDay(today)
    case Failure(e) => Failure(e)
    case Success(last) => Success(RangeText(today.month, last))
  }

  /** `f"{month}/1 - {month}/{last}"`. */
  function RangeText(month: int, last: int): string {
    IntToString(month) + "/1 - " + IntToString(month) + "/" + IntToString(last)
  }

  /**
   * The anchor is the first of the next month of the same year for months
   * 1-11 and January 1 of the next year for December; only December 9999 has
   * no next month, and the `date` constructor then raises.
   */
  lemma NextMonthStartRollover(today: Date)
    requires ValidDate(today)
    ensures today.month < 12 ==> NextMonthStart(today) == Success(Date(today.year, today.month + 1, 1))
    ensures today.month == 12 && today.year < MaxYear ==> NextMonthStart(today) == Success(Date(today.year + 1, 1, 1))
    ensures today.month == 12 && today.year == MaxYear ==> NextMonthStart(today) == Failure(YearOutOfRange)
  {
  }

  /** The day before the first of the next month is the last day of this month. */
  lemma {:induction false} LastDayIsDaysInMonth(today: Date)
    requires ValidDate(today)
    ensures LastDay(today) ==
              if today.month == 12 && today.year == MaxYear then Failure(YearOutOfRange)
              else Success(DaysInMonth(today.year, today.month))
  {
    var y, m := today.year, today.month;
    if !(m == 12 && y == MaxYear) {
      var next := NextMonthStart(today).value;
      var last := Date(y, m, DaysInMonth(y, m));
      DayBeforeNextMonthStart(today, next);
      FromOrdinalToOrdinal(last);
      OrdinalBounds(last);
      assert SubtractDays(next, 1) == Success(last);
    }
  }

  /** The ordinal of the anchor is one more than that of the last day of `today`'s month. */
  lemma DayBeforeNextMonthStart(today: Date, next: Date)
    requires ValidDate(today) && NextMonthStart(today) == Success(next)
    ensures ValidDate(next)
    ensures ToOrdinal(next) - 1 == ToOrdinal(Date(today.year, today.month, DaysInMonth(today.year, today.month)))
  {
    if today.month < 12 {
      DaysBeforeNextMonth(today.year, today.month);
    } else {
      DaysBeforeNextYear(today.year);
    }
  }

  /**
   * The last day follows the Gregorian calendar: 31 for months 1, 3, 5, 7, 8,
   * 10 and 12, 30 for months 4, 6, 9 and 11, and 29 or 28 for February as the
   * year is a leap year or not.
   */
  lemma LastDayByMonth(today: Date)
    requires ValidDate(today) && !(today.month == 12 && today.year == MaxYear)
    ensures var m := today.month;
            (m in {1, 3, 5, 7, 8, 10, 12} ==> LastDay(today) == Success(31)) &&
            (m in {4, 6, 9, 11} ==> LastDay(today) == Success(30)) &&
            (m == 2 && IsLeapYear(today.year) ==> LastDay(today) == Success(29)) &&
            (m == 2 && !IsLeapYear(today.year) ==> LastDay(today) == Success(28))
    ensures LastDay(today) == Success(29) <==> today.month == 2 && IsLeapYear(today.year)
  {
    LastDayIsDaysInMonth(today);
  }

  /**
   * The label is `"{m}/1 - {m}/{last}"` with the unpadded month and the
   * month's length, except in December 9999, where the year error surfaces.
   */
  lemma MonthlyRangeLabel(today: Date)
    requires ValidDate(today)
    ensures MonthlyRange(today) ==
              if today.month == 12 && today.year == MaxYear then Failure(YearOutOfRange)
              else Success(NatToString(today.month) + "/1 - " + NatToString(today.month) + "/" +
                           NatToString(DaysInMonth(today.year, today.month)))
    ensures today.month < 10 ==> |NatToString(today.month)| == 1
  {
    LastDayIsDaysInMonth(today);
    NatToStringLength(today.month);
  }

  /** The label depends on the year and the month of `today`, not on its day. */
  lemma MonthlyRangeIgnoresDay(today: Date, other: Date)
    requires ValidDate(today) && ValidDate(other)
    requires today.year == other.year && today.month == other.month
    ensures MonthlyRange(today) == MonthlyRange(other)
  {
    MonthlyRangeLabel(today);
    MonthlyRangeLabel(other);
  }

  /** Every February shows `"2/1 - 2/29"` in a leap year and `"2/1 - 2/28"` otherwise. */
  lemma FebruaryLabel(today: Date)
    requires ValidDate(today) && today.month == 2
    ensures MonthlyRange(today) == Success(if IsLeapYear(today.year) then "2/1 - 2/29" else "2/1 - 2/28")
  {
    LastDayIsDaysInMonth(today);
    FebruaryText();
  }

  /** The February labels for a last day of 28 and of 29. */
  lemma FebruaryText()
    ensures RangeText(2, 28) == "2/1 - 2/28"
    ensures RangeText(2, 29) == "2/1 - 2/29"
  {
    assert IntToString(2) == "2";
    assert IntToString(28) == "28";
    assert IntToString(29) == "29";
  }
  /** The label can be read back: two labels are equal only for the same month and the same last day. */
  lemma RangeTextInjective(m: nat, l: nat, m': nat, l': nat)
    requires RangeText(m, l) == RangeText(m', l')
    ensures m == m' && l == l'
  {
    NatToStringIsDecimal(m);
    NatToStringIsDecimal(m');
    LabelSplit(NatToString(m), NatToString(l), NatToString(m'), NatToString(l'));
    NatToStringInjective(m, m');
    NatToStringInjective(l, l');
  }

  /**
   * A label splits uniquely: digits are never `/`, so the first `/` ends the
   * month, and the last day is what follows the second copy of the month.
   */
  lemma LabelSplit(a: string, b: string, a': string, b': string)
    requires IsDigits(a) && IsDigits(a')
    requires a + "/1 - " + a + "/" + b == a' + "/1 - " + a' + "/" + b'
    ensures a == a' && b == b'
  {
    var s := a + "/1 - " + a + "/" + b;
    assert forall i :: 0 <= i < |a| ==> s[i] == a[i];
    assert forall i :: 0 <= i < |a'| ==> s[i] == a'[i];
    assert s[|a|] == '/' && s[|a'|] == '/';
    assert |a| == |a'|;
    assert a == a';
    var k := 2 * |a| + 6;
    assert forall j :: 0 <= j < |b| ==> s[k + j] == b[j];
    assert forall j :: 0 <= j < |b'| ==> s[k + j] == b'[j];
  }

  /** Equal labels come from the same month, with the same number of days. */
  lemma MonthlyRangeDetermines(today: Date, other: Date)
    requires ValidDate(today) && ValidDate(other)
    requires MonthlyRange(today).Success? && MonthlyRange(today) == MonthlyRange(other)
    ensures today.month == other.month
    ensures DaysInMonth(today.year, today.month) == DaysInMonth(other.year, other.month)
  {
    LastDayIsDaysInMonth(today);
    LastDayIsDaysInMonth(other);
    RangeTextInjective(today.month, DaysInMonth(today.year, today.month),
                       other.month, DaysInMonth(other.year, other.month));
  }
}
