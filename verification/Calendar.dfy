/** The calendar program's day of the week, against a calendar that counts days. */
module Calendar {
  /** C's integer division and remainder, which truncate towards zero. */
  function CDiv(a: int, b: int): int
    requires b > 0
  {
    if a >= 0 then a / b else -((-a) / b)
  }

  function CMod(a: int, b: int): int
    requires b > 0
  {
    a - b * CDiv(a, b)
  }

  predicate IsLeapYear(year: int) {
    (CMod(year, 4) == 0 && CMod(year, 100) != 0) || CMod(year, 400) == 0
  }

  /** The `days_in_month` table with its rule for February. */
  function DaysInMonth(year: int, month: int): int
    requires 1 <= month <= 12
  {
    if month == 2 && IsLeapYear(year) then 29
    else [31, 28, 31, 30, 31, 30, 31, 31, 30, 31, 30, 31][month - 1]
  }

  /** `get_day_of_week`: 0 is Sunday. */
  function GetDayOfWeek(year: int, month: int, day: int): int {
    var m := if month < 3 then month + 12 else month;
    var y := if month < 3 then year - 1 else year;
    var k := CMod(y, 100);
    var j := CDiv(y, 100);
    var h := CMod(day + CDiv(13 * (m + 1), 5) + k + CDiv(k, 4) + CDiv(j, 4) - 2 * j, 7);
    CMod(h + 6, 7)
  }

  /** The result is a weekday, even where the sum is negative. */
  lemma WeekdayRange(year: int, month: int, day: int)
    ensures 0 <= GetDayOfWeek(year, month, day) <= 6
  {}

  // ---------- counting days ----------

  datatype Date = Date(year: int, month: int, day: int)

  predicate ValidDate(d: Date) {
    d.year >= 1 && 1 <= d.month <= 12 && 1 <= d.day <= DaysInMonth(d.year, d.month)
  }

  function NextDay(d: Date): Date
    requires ValidDate(d)
  {
    if d.day < DaysInMonth(d.year, d.month) then d.(day := d.day + 1)
    else if d.month < 12 then Date(d.year, d.month + 1, 1)
    else Date(d.year + 1, 1, 1)
  }

  /** Days from 1 January of year 1 to 1 January of this year, and to the first of this month. */
  function DaysBeforeYear(year: int): nat
    requires year >= 1
  {
    if year == 1 then 0 else DaysBeforeYear(year - 1) + if IsLeapYear(year - 1) then 366 else 365
  }

  function DaysBeforeMonth(year: int, month: int): int
    requires 1 <= month <= 12
    decreases month
  {
    if month == 1 then 0 else DaysBeforeMonth(year, month - 1) + DaysInMonth(year, month - 1)
  }

  /** The number of the day, counted from 1 January of year 1. */
  function DayNumber(d: Date): int
    requires ValidDate(d)
  {
    DaysBeforeYear(d.year) + DaysBeforeMonth(d.year, d.month) + d.day - 1
  }

  lemma YearLength(year: int)
    ensures DaysBeforeMonth(year, 12) + 31 == if IsLeapYear(year) then 366 else 365
  {
    MonthStarts(year, 12);
  }

  /** The next day has the next number: no day is skipped or counted twice. */
  lemma NextDayNumber(d: Date)
    requires ValidDate(d)
    ensures ValidDate(NextDay(d)) && DayNumber(NextDay(d)) == DayNumber(d) + 1
  {
    if d.month == 12 { YearLength(d.year); }
  }

  lemma {:induction false} DaysBeforeYearClosed(year: int)
    requires year >= 1
    ensures var y := year - 1;
            DaysBeforeYear(year) == 365 * y + LeapDays(y)
  {
    if year > 1 {
      DaysBeforeYearClosed(year - 1);
      LeapStep(year - 1);
    }
  }

  /** Each year adds one to y/4 - y/100 + y/400 exactly when it is a leap year. */
  lemma LeapStep(y: nat)
    requires y >= 1
    ensures LeapDays(y) == LeapDays(y - 1) + if IsLeapYear(y) then 1 else 0
  {
    DivStep4(y);
    DivStep100(y);
    DivStep400(y);
    LeapRule(y);
  }

  function LeapDays(y: nat): int {
    y / 4 - y / 100 + y / 400
  }

  lemma LeapRule(y: nat)
    ensures IsLeapYear(y) <==> y % 4 == 0 && (y % 100 == 0 ==> y % 400 == 0)
    ensures y % 400 == 0 ==> y % 100 == 0
    ensures y % 100 == 0 ==> y % 4 == 0
  {
    assert y == 400 * (y / 400) + y % 400;
    assert y == 100 * (y / 100) + y % 100;
    if y % 400 == 0 { Multiple(y, 100, 4 * (y / 400)); }
    if y % 100 == 0 { Multiple(y, 4, 25 * (y / 100)); }
  }

  lemma Multiple(y: nat, d: int, q: int)
    requires d in {4, 100} && y == d * q
    ensures y % d == 0
  {
    if d == 4 { assert y == 4 * q; } else { assert y == 100 * q; }
  }

  lemma DivStep4(y: nat)
    requires y >= 1
    ensures y / 4 == (y - 1) / 4 + if y % 4 == 0 then 1 else 0
  {}

  lemma DivStep100(y: nat)
    requires y >= 1
    ensures y / 100 == (y - 1) / 100 + if y % 100 == 0 then 1 else 0
  {}

  lemma DivStep400(y: nat)
    requires y >= 1
    ensures y / 400 == (y - 1) / 400 + if y % 400 == 0 then 1 else 0
  {}

  /** Days before each month of a common year, and the month term of the formula, whose year starts in March. */
  function Start(month: int): int
    requires 1 <= month <= 12
  {
    [0, 31, 59, 90, 120, 151, 181, 212, 243, 273, 304, 334][month - 1]
  }

  function Term(month: int): int
    requires 1 <= month <= 12
  {
    (13 * ((if month < 3 then month + 12 else month) + 1)) / 5
  }

  /** Days before each month: the sums of the code's table. */
  lemma MonthStarts(year: int, month: int)
    requires 1 <= month <= 12
    ensures DaysBeforeMonth(year, month) ==
            Start(month) + if month > 2 && IsLeapYear(year) then 1 else 0
    decreases month
  {
    if month > 1 { MonthStarts(year, month - 1); }
  }

  /** They agree up to whole weeks. */
  lemma TermCountsDays(month: int)
    requires 1 <= month <= 12
    ensures (Start(month) - Term(month) + if month < 3 then 36 else 0) % 7 == 0
  {}

  /** Splitting the year into century and year of the century keeps the leap days. */
  lemma CenturySplit(y: nat)
    ensures y / 4 == 25 * (y / 100) + y % 100 / 4 && y / 400 == y / 100 / 4
  {}

  /** The day number of a date, in the terms of the formula. */
  lemma DayNumberClosed(d: Date)
    requires ValidDate(d)
    ensures DayNumber(d) >= 0
    ensures var y := if d.month < 3 then d.year - 1 else d.year;
            DayNumber(d) == 365 * (d.year - 1) + LeapDays(y) + Start(d.month) + d.day - 1
  {
    DaysBeforeYearClosed(d.year);
    MonthStarts(d.year, d.month);
    if d.month >= 3 { LeapStep(d.year); }
  }

  /** Zeller's congruence agrees with counting: day 0, 1 January of year 1, is a Monday. */
  lemma WeekdayCounts(d: Date)
    requires ValidDate(d)
    ensures GetDayOfWeek(d.year, d.month, d.day) == (DayNumber(d) + 1) % 7
  {
    hide GetDayOfWeek, DayNumber, CMod, CDiv, LeapDays, Start, Term, DaysInMonth;
    DayNumberClosed(d);
    WholeWeeks(d.year, d.month, d.day, DayNumber(d));
    FormulaIs(d.year, d.month, d.day);
  }

  /** The sum in the formula and the day number differ by whole weeks. */
  lemma WholeWeeks(year: int, month: int, day: int, n: nat)
    requires year >= 1 && 1 <= month <= 12
    requires var y := if month < 3 then year - 1 else year;
             n == 365 * (year - 1) + LeapDays(y) + Start(month) + day - 1
    ensures var y := if month < 3 then year - 1 else year;
            var j, k := y / 100, y % 100;
            CMod(CMod(day + Term(month) + k + k / 4 + j / 4 - 2 * j, 7) + 6, 7) == (n + 1) % 7
  {
    var y := if month < 3 then year - 1 else year;
    var j, k := y / 100, y % 100;
    CenturySplit(y);
    TermCountsDays(month);
    var h := day + Term(month) + k + k / 4 + j / 4 - 2 * j;
    var week := (Start(month) - Term(month) + if month < 3 then 36 else 0) / 7;
    Weeks(n, h, 5218 * j + 52 * k + week - if month < 3 then 5 else 52);
  }

  /** For a year of the calendar none of the divisions truncates. */
  lemma FormulaIs(year: int, month: int, day: int)
    requires year >= 1 && 1 <= month <= 12
    ensures var y := if month < 3 then year - 1 else year;
            var j, k := y / 100, y % 100;
            GetDayOfWeek(year, month, day) == CMod(CMod(day + Term(month) + k + k / 4 + j / 4 - 2 * j, 7) + 6, 7)
  {}

  /** Truncated remainders of numbers that differ by whole weeks. */
  lemma Weeks(n: nat, h: int, weeks: int)
    requires n + 2 == h + 7 * weeks
    ensures CMod(CMod(h, 7) + 6, 7) == (n + 1) % 7
  {}

  /** The weekday of a date. */
  function Weekday(d: Date): (w: int)
    requires ValidDate(d)
  {
    GetDayOfWeek(d.year, d.month, d.day)
  }

  lemma NextResidue(n: int, w: int, w': int)
    requires w == (n + 1) % 7 && w' == (n + 1 + 1) % 7
    ensures w' == (w + 1) % 7
  {}

  lemma Consecutive(d: Date, e: Date, n: int)
    requires ValidDate(d) && ValidDate(e) && DayNumber(d) == n && DayNumber(e) == n + 1
    ensures Weekday(e) == (Weekday(d) + 1) % 7
  {
    WeekdayCounts(d);
    WeekdayCounts(e);
    NextResidue(n, Weekday(d), Weekday(e));
  }

  /** The next day is the next weekday, across the ends of months, leap years and centuries. */
  lemma NextWeekday(d: Date)
    requires ValidDate(d)
    ensures ValidDate(NextDay(d)) && Weekday(NextDay(d)) == (Weekday(d) + 1) % 7
  {
    NextDayNumber(d);
    Consecutive(d, NextDay(d), DayNumber(d));
  }
}
