/**
Dates of the proleptic Gregorian calendar and their day numbers, counted from 1970-01-01
(ISO 8601:2004 section 3.2.1), over the years -9999..9999 that `time::OffsetDateTime` accepts.
*/
module Calendar {
  const MIN_YEAR: int := -9999
  const MAX_YEAR: int := 9999

  datatype Date = Date(year: int, month: nat, day: nat)

  predicate IsLeap(year: int) { year % 4 == 0 && (year % 100 != 0 || year % 400 == 0) }

  function DaysInYear(year: int): nat { if IsLeap(year) then 366 else 365 }

  function DaysInMonth(year: int, month: nat): nat
    requires 1 <= month <= 12
  {
    if month == 2 then (if IsLeap(year) then 29 else 28)
    else if month in {4, 6, 9, 11} then 30
    else 31
  }

  predicate ValidDate(d: Date)
  {
    && MIN_YEAR <= d.year <= MAX_YEAR
    && 1 <= d.month <= 12
    && 1 <= d.day <= DaysInMonth(d.year, d.month)
  }

  /** Leap days in the years up to and including `year`, relative to year 0. */
  function LeapDaysThrough(year: int): int { year / 4 - year / 100 + year / 400 }

  /** The day number of 1 January, in closed form. */
  function DaysBeforeYear(year: int): int
  {
    365 * (year - 1970) + LeapDaysThrough(year - 1) - LeapDaysThrough(1969)
  }

  function DaysBeforeMonth(year: int, month: nat): nat
    requires 1 <= month <= 13
  {
    if month == 1 then 0 else DaysBeforeMonth(year, month - 1) + DaysInMonth(year, month - 1)
  }

  function DayNumber(d: Date): int
    requires 1 <= d.month <= 12
  {
    DaysBeforeYear(d.year) + DaysBeforeMonth(d.year, d.month) + d.day - 1
  }

  predicate DayInRange(day: int)
  {
    DaysBeforeYear(MIN_YEAR) <= day < DaysBeforeYear(MAX_YEAR + 1)
  }

  /** The year that contains a day, searched upwards from a year that starts no later. */
  function YearFrom(day: int, year: int): (y: int)
    requires DaysBeforeYear(year) <= day
    ensures year <= y && DaysBeforeYear(y) <= day < DaysBeforeYear(y + 1)
    decreases day - DaysBeforeYear(year)
  {
    YearLength(year);
    if day < DaysBeforeYear(year + 1) then year else YearFrom(day, year + 1)
  }

  function MonthFrom(dayOfYear: nat, year: int, month: nat): (m: nat)
    requires 1 <= month <= 12
    requires DaysBeforeMonth(year, month) <= dayOfYear < DaysInYear(year)
    ensures month <= m <= 12
    ensures DaysBeforeMonth(year, m) <= dayOfYear < DaysBeforeMonth(year, m + 1)
    decreases 12 - month
  {
    MonthsFillYear(year);
    if dayOfYear < DaysBeforeMonth(year, month + 1) then month else MonthFrom(dayOfYear, year, month + 1)
  }

  /** The calendar date of a day number. */
  function DateOf(day: int): (d: Date)
    requires DayInRange(day)
    ensures ValidDate(d) && DayNumber(d) == day
  {
    var year := YearFrom(day, MIN_YEAR);
    YearLength(year);
    YearBound(day, year);
    var dayOfYear := day - DaysBeforeYear(year);
    var month := MonthFrom(dayOfYear, year, 1);
    Date(year, month, dayOfYear - DaysBeforeMonth(year, month) + 1)
  }

  /** The closed form advances by the length of each year. */
  lemma YearLength(year: int)
    ensures DaysBeforeYear(year + 1) == DaysBeforeYear(year) + DaysInYear(year)
  {
    LeapStep(year);
  }

  lemma LeapStep(year: int)
    ensures LeapDaysThrough(year) == LeapDaysThrough(year - 1) + (if IsLeap(year) then 1 else 0)
  {
    StepDiv(year, 4);
    StepDiv(year, 100);
    StepDiv(year, 400);
  }

  lemma StepDiv(y: int, k: int)
    requires k == 4 || k == 100 || k == 400
    ensures y / k == (y - 1) / k + (if y % k == 0 then 1 else 0)
  {
  }

  // ----- the calendar in independent forms

  /** The dates that exist: twelve months of these lengths, and the Gregorian leap day. */
  lemma ValidDates(d: Date)
    ensures ValidDate(d) <==>
              && -9999 <= d.year <= 9999 && 1 <= d.month <= 12 && 1 <= d.day
              && d.day <= [31, if d.year % 4 == 0 && (d.year % 100 != 0 || d.year % 400 == 0) then 29 else 28,
                           31, 30, 31, 30, 31, 31, 30, 31, 30, 31][d.month - 1]
  {
  }

  /** The days before each month, with the leap day after February. */
  lemma {:induction false} MonthStarts(year: int, month: nat)
    requires 1 <= month <= 12
    ensures DaysBeforeMonth(year, month)
         == [0, 31, 59, 90, 120, 151, 181, 212, 243, 273, 304, 334][month - 1]
            + (if month > 2 && IsLeap(year) then 1 else 0)
  {
    if month > 1 { MonthStarts(year, month - 1); }
  }

  /**
  Day numbers in closed form: counted in years that begin in March, five months of 153 days repeat and
  the leap day comes last.
  */
  lemma DayNumberClosedForm(d: Date)
    requires ValidDate(d)
    ensures var y := if d.month <= 2 then d.year - 1 else d.year;
            var m := if d.month <= 2 then d.month + 9 else d.month - 3;
            DayNumber(d) == 365 * y + y / 4 - y / 100 + y / 400 + (153 * m + 2) / 5 + d.day - 719_469
  {
    MonthStarts(d.year, d.month);
    LeapStep(d.year);
    MarchMonths(d.month);
  }

  lemma MarchMonths(month: nat)
    requires 1 <= month <= 12
    ensures (153 * (if month <= 2 then month + 9 else month - 3) + 2) / 5
         == [306, 337, 0, 31, 61, 92, 122, 153, 184, 214, 245, 275][month - 1]
  {
  }

  /** The days from 1 January -9999 to 31 December 9999. */
  lemma DayRange(day: int)
    ensures DayInRange(day) <==> -4_371_587 <= day <= 2_932_896
  {
  }

  lemma MonthsFillYear(year: int)
    ensures DaysBeforeMonth(year, 13) == DaysInYear(year)
  {
    assert DaysBeforeMonth(year, 2) == 31;
    assert DaysBeforeMonth(year, 4) == DaysInYear(year) - 275;
    assert DaysBeforeMonth(year, 6) == DaysInYear(year) - 214;
    assert DaysBeforeMonth(year, 8) == DaysInYear(year) - 153;
    assert DaysBeforeMonth(year, 10) == DaysInYear(year) - 92;
    assert DaysBeforeMonth(year, 12) == DaysInYear(year) - 31;
  }

  lemma {:induction false} YearsAscend(a: int, b: int)
    requires a <= b
    ensures DaysBeforeYear(a) + (b - a) <= DaysBeforeYear(b)
    decreases b - a
  {
    if a < b {
      YearLength(b - 1);
      YearsAscend(a, b - 1);
    }
  }

  lemma YearBound(day: int, year: int)
    requires DayInRange(day) && DaysBeforeYear(year) <= day
    ensures year <= MAX_YEAR
  {
    if year > MAX_YEAR { YearsAscend(MAX_YEAR + 1, year); }
  }

  lemma {:induction false} MonthsAscend(year: int, a: nat, b: nat)
    requires 1 <= a < b <= 13
    ensures DaysBeforeMonth(year, a) + DaysInMonth(year, a) <= DaysBeforeMonth(year, b)
    decreases b - a
  {
    if a + 1 < b { MonthsAscend(year, a, b - 1); }
  }

  predicate DateLess(a: Date, b: Date)
  {
    a.year < b.year || (a.year == b.year && (a.month < b.month || (a.month == b.month && a.day < b.day)))
  }

  lemma EarlierDateSmallerDay(a: Date, b: Date)
    requires ValidDate(a) && ValidDate(b) && DateLess(a, b)
    ensures DayNumber(a) < DayNumber(b)
  {
    if a.year < b.year {
      YearsAscend(a.year + 1, b.year);
      YearLength(a.year);
      MonthsAscend(a.year, a.month, 13);
      MonthsFillYear(a.year);
    } else if a.month < b.month {
      MonthsAscend(a.year, a.month, b.month);
    }
  }

  /** Day numbers order valid dates exactly as year, month and day do. */
  lemma DayOrder(a: Date, b: Date)
    requires ValidDate(a) && ValidDate(b)
    ensures DayNumber(a) < DayNumber(b) <==> DateLess(a, b)
    ensures DayNumber(a) == DayNumber(b) <==> a == b
  {
    if DateLess(a, b) { EarlierDateSmallerDay(a, b); }
    if DateLess(b, a) { EarlierDateSmallerDay(b, a); }
  }

  /** Every valid date is the date of its day number. */
  lemma DateOfDayNumber(d: Date)
    requires ValidDate(d)
    ensures DayInRange(DayNumber(d)) && DateOf(DayNumber(d)) == d
  {
    YearsAscend(MIN_YEAR, d.year);
    YearsAscend(d.year + 1, MAX_YEAR + 1);
    YearLength(d.year);
    MonthsAscend(d.year, d.month, 13);
    MonthsFillYear(d.year);
    DayOrder(DateOf(DayNumber(d)), d);
  }
}
