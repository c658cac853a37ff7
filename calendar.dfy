/**
 * The proleptic Gregorian calendar as Python's `datetime` module counts it:
 * leap years, month lengths, and the day number (`date.toordinal()`) whose
 * differences give the whole days between two dates.
 */
module Calendar {

  datatype Date = Date(year: int, month: int, day: int)

  /** The range of years a Python `date` can hold. */
  const MinYear: int := 1
  const MaxYear: int := 9999

  predicate IsLeapYear(y: int)
  {
    y % 4 == 0 && (y % 100 != 0 || y % 400 == 0)
  }

  function DaysInMonth(y: int, m: int): (n: int)
    requires 1 <= m <= 12
    ensures 28 <= n <= 31
    ensures m == 2 ==> (n == 29 <==> IsLeapYear(y))
  {
    if m == 2 then (if IsLeapYear(y) then 29 else 28)
    else if m == 4 || m == 6 || m == 9 || m == 11 then 30
    else 31
  }

  /** A date `datetime` accepts: its year in range and its day within its month. */
  predicate ValidDate(d: Date)
  {
    MinYear <= d.year <= MaxYear && 1 <= d.month <= 12 && 1 <= d.day <= DaysInMonth(d.year, d.month)
  }

  /** Days in the months before month `m` of year `y`, from a table for a common year. */
  function DaysBeforeMonth(y: int, m: int): int
    requires 1 <= m <= 12
  {
    var common := [0, 31, 59, 90, 120, 151, 181, 212, 243, 273, 304, 334];
    common[m - 1] + (if m > 2 && IsLeapYear(y) then 1 else 0)
  }

  /** The table agrees with the month lengths: each month starts where the last one ends. */
  lemma DaysBeforeNextMonth(y: int, m: int)
    requires 1 <= m < 12
    ensures DaysBeforeMonth(y, m + 1) == DaysBeforeMonth(y, m) + DaysInMonth(y, m)
  {
  }

  /** Days in the years before year `y`. */
  function DaysBeforeYear(y: int): int
    requires y >= 1
  {
    var p := y - 1;
    p * 365 + p / 4 - p / 100 + p / 400
  }

  /** The position of a date within its year, counting 1 January as 1. */
  function DayOfYear(d: Date): (n: int)
    requires ValidDate(d)
    ensures 1 <= n <= (if IsLeapYear(d.year) then 366 else 365)
  {
    DaysBeforeMonth(d.year, d.month) + d.day
  }

  /** `date.toordinal()`: 1 January of year 1 is day 1. */
  function Ordinal(d: Date): int
    requires ValidDate(d)
  {
    DaysBeforeYear(d.year) + DayOfYear(d)
  }

  /** `d` falls before `e` in the calendar. */
  predicate Before(d: Date, e: Date)
  {
    d.year < e.year || (d.year == e.year && (d.month < e.month || (d.month == e.month && d.day < e.day)))
  }

  /** The date after `d`. */
  function NextDay(d: Date): (e: Date)
    requires ValidDate(d) && (d.year < MaxYear || d.month < 12 || d.day < 31)
    ensures ValidDate(e) && Before(d, e)
  {
    if d.day < DaysInMonth(d.year, d.month) then d.(day := d.day + 1)
    else if d.month < 12 then Date(d.year, d.month + 1, 1)
    else Date(d.year + 1, 1, 1)
  }

  /** A year has 366 days when it is a leap year and 365 otherwise. */
  lemma DaysInYear(y: int)
    requires y >= 1
    ensures DaysBeforeYear(y + 1) == DaysBeforeYear(y) + if IsLeapYear(y) then 366 else 365
  {
    var p := y - 1;
    var q4, q100, q400 := y / 4 - p / 4, y / 100 - p / 100, y / 400 - p / 400;
    assert q4 == if y % 4 == 0 then 1 else 0 by { QuotientStep4(y); }
    assert q100 == if y % 100 == 0 then 1 else 0 by { QuotientStep100(y); }
    assert q400 == if y % 400 == 0 then 1 else 0 by { QuotientStep400(y); }
    assert DaysBeforeYear(y + 1) - DaysBeforeYear(y) == 365 + q4 - q100 + q400;
    DivisorsOfCentury(y);
  }

  /** A multiple of 400 is a multiple of 100, and a multiple of 100 a multiple of 4. */
  lemma DivisorsOfCentury(y: int)
    ensures y % 400 == 0 ==> y % 100 == 0
    ensures y % 100 == 0 ==> y % 4 == 0
  {
    if y % 400 == 0 {
      var k := y / 400;
      assert y == 100 * (4 * k);
      MultipleOf100(4 * k);
    }
    if y % 100 == 0 {
      var k := y / 100;
      assert y == 4 * (25 * k);
      MultipleOf4(25 * k);
    }
  }

  lemma MultipleOf100(m: int)
    ensures (100 * m) % 100 == 0
  {
  }

  lemma MultipleOf4(m: int)
    ensures (4 * m) % 4 == 0
  {
  }

  /** Counting the multiples of 4 up to `y`: one more than up to `y - 1` exactly when `y` is one. */
  lemma QuotientStep4(y: int)
    ensures y / 4 - (y - 1) / 4 == if y % 4 == 0 then 1 else 0
  {
  }

  lemma QuotientStep100(y: int)
    ensures y / 100 - (y - 1) / 100 == if y % 100 == 0 then 1 else 0
  {
  }

  lemma QuotientStep400(y: int)
    ensures y / 400 - (y - 1) / 400 == if y % 400 == 0 then 1 else 0
  {
  }

  /**
   * New Year's Day has the day number after that of the last day of the
   * year before it (`NextDayYearEnd` shows it is the next date).
   */
  lemma OrdinalNewYear(y: int)
    requires MinYear <= y < MaxYear
    ensures ValidDate(Date(y, 12, 31)) && ValidDate(Date(y + 1, 1, 1))
    ensures Ordinal(Date(y + 1, 1, 1)) == Ordinal(Date(y, 12, 31)) + 1
  {
    var last, first := Date(y, 12, 31), Date(y + 1, 1, 1);
    var len := if IsLeapYear(y) then 366 else 365;
    assert ValidDate(last) && ValidDate(first);
    assert DayOfYear(first) == 1;
    assert DayOfYear(last) == len;
    var before, after := DaysBeforeYear(y), DaysBeforeYear(y + 1);
    assert after == before + len by { DaysInYear(y); }
  }

  /** The date after 31 December is 1 January of the next year. */
  lemma NextDayYearEnd(y: int)
    requires MinYear <= y < MaxYear
    ensures NextDay(Date(y, 12, 31)) == Date(y + 1, 1, 1)
  {
  }

  /** Consecutive dates within a year (before 31 December) have consecutive day numbers. */
  lemma OrdinalNextDayWithinYear(d: Date)
    requires ValidDate(d) && (d.month < 12 || d.day < 31)
    ensures Ordinal(NextDay(d)) == Ordinal(d) + 1
  {
    NextDayOfYear(d);
    var e := NextDay(d);
    assert Ordinal(e) == DaysBeforeYear(d.year) + DayOfYear(e);
    assert Ordinal(d) == DaysBeforeYear(d.year) + DayOfYear(d);
  }

  /** Within one year, the next date is one further on in the year. */
  lemma NextDayOfYear(d: Date)
    requires ValidDate(d) && (d.month < 12 || d.day < 31)
    ensures NextDay(d).year == d.year && DayOfYear(NextDay(d)) == DayOfYear(d) + 1
  {
    if d.day == DaysInMonth(d.year, d.month) {
      DaysBeforeNextMonth(d.year, d.month);
    }
  }

  /** Within one year, a later date has a larger day number. */
  lemma {:induction false} DayOfYearIncreases(d: Date, e: Date)
    requires ValidDate(d) && ValidDate(e) && d.year == e.year && Before(d, e)
    ensures DayOfYear(d) < DayOfYear(e)
    decreases e.month - d.month
  {
    if d.month < e.month {
      DaysBeforeNextMonth(d.year, d.month);
      var first := Date(d.year, d.month + 1, 1);
      if first != e {
        DayOfYearIncreases(first, e);
      }
    }
  }
}
