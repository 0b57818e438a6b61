/** The part of the ECMAScript `Date` object the age calculation uses:
    `new Date(year, 0, day)` read back through `getFullYear`, `getMonth`
    and `getDate`, on the proleptic Gregorian calendar. Months count from
    0 as `getMonth` does; days of the month count from 1. */
module Calendar {

  datatype CalendarDate = CalendarDate(year: int, month: int, day: int)

  predicate IsLeap(y: int) {
    y % 4 == 0 && (y % 100 != 0 || y % 400 == 0)
  }

  function DaysInYear(y: int): int {
    if IsLeap(y) then 366 else 365
  }

  /** Days of a common year before month m. */
  function CommonDaysBefore(m: int): int
    requires 0 <= m <= 12
  {
    [0, 31, 59, 90, 120, 151, 181, 212, 243, 273, 304, 334, 365][m]
  }

  /** Days of year y before the first of month m (m == 12 gives the whole year). */
  function DaysBefore(y: int, m: int): int
    requires 0 <= m <= 12
  {
    CommonDaysBefore(m) + (if IsLeap(y) && m >= 2 then 1 else 0)
  }

  function DaysInMonth(y: int, m: int): int
    requires 0 <= m < 12
  {
    DaysBefore(y, m + 1) - DaysBefore(y, m)
  }

  predicate Valid(d: CalendarDate) {
    0 <= d.month < 12 && 1 <= d.day <= DaysInMonth(d.year, d.month)
  }

  /** 1 for the first of January. */
  function DayOfYear(d: CalendarDate): int
    requires Valid(d)
  {
    DaysBefore(d.year, d.month) + d.day
  }

  lemma MonthLengths(y: int, m: int)
    requires 0 <= m < 12
    ensures 28 <= DaysInMonth(y, m) <= 31
    ensures m == 1 ==> (DaysInMonth(y, m) == 29 <==> IsLeap(y))
  {
  }

  /** Month starts grow strictly through the year. */
  lemma {:induction false} DaysBeforeIncreasing(y: int, a: int, b: int)
    requires 0 <= a < b <= 12
    ensures DaysBefore(y, a) < DaysBefore(y, b)
  {
    MonthLengths(y, b - 1);
    if a < b - 1 {
      DaysBeforeIncreasing(y, a, b - 1);
    }
  }

  lemma YearLength(y: int)
    ensures DaysBefore(y, 12) == DaysInYear(y)
  {
  }

  /** The month, at or before m, whose days contain day d of the year. */
  function MonthContaining(y: int, d: int, m: int): (k: int)
    requires 0 <= m < 12 && 1 <= d <= DaysBefore(y, m + 1)
    ensures 0 <= k <= m
    ensures DaysBefore(y, k) < d <= DaysBefore(y, k + 1)
    decreases m
  {
    if m == 0 || DaysBefore(y, m) < d then m else MonthContaining(y, d, m - 1)
  }

  /** The date that is day d of year y. */
  function FromDayOfYear(y: int, d: int): (r: CalendarDate)
    requires 1 <= d <= DaysInYear(y)
    ensures Valid(r) && r.year == y && DayOfYear(r) == d
  {
    YearLength(y);
    var m := MonthContaining(y, d, 11);
    CalendarDate(y, m, d - DaysBefore(y, m))
  }

  /** Every valid date is the date of its own day of the year: the day
      numbering is a bijection between the dates of a year and
      1..DaysInYear. */
  lemma {:induction false} FromDayOfYearInverse(date: CalendarDate)
    requires Valid(date)
    ensures 1 <= DayOfYear(date) <= DaysInYear(date.year)
    ensures FromDayOfYear(date.year, DayOfYear(date)) == date
  {
    var y, m := date.year, date.month;
    var n := DayOfYear(date);
    YearLength(y);
    if m < 11 {
      DaysBeforeIncreasing(y, m + 1, 12);
    }
    var k := MonthContaining(y, n, 11);
    if k < m {
      DaysBeforeIncreasing(y, k + 1, m + 1);
      if k + 1 < m {
        DaysBeforeIncreasing(y, k + 1, m);
      }
    } else if k > m {
      if m + 1 < k {
        DaysBeforeIncreasing(y, m + 1, k);
      }
    }
    assert k == m;
  }

  /** The year `new Date(y, …)` uses: section 21.4.2.1 of ECMA-262 maps
      the years 0 to 99 to 1900 to 1999. */
  function FullYear(y: int): (r: int)
    ensures 0 <= y <= 99 ==> r == 1900 + y
    ensures (y < 0 || y > 99) ==> r == y
  {
    if 0 <= y <= 99 then 1900 + y else y
  }

  /** `new Date(y, 0, d)` for 1 <= d <= 366: day d of the full year, where
      day 366 of a common year overflows into the first of January of the
      next year. */
  function JanuaryDay(y: int, d: int): (r: CalendarDate)
    requires 1 <= d <= 366
    ensures Valid(r)
    ensures d <= DaysInYear(FullYear(y)) ==> r.year == FullYear(y) && DayOfYear(r) == d
    ensures d > DaysInYear(FullYear(y)) ==> r == CalendarDate(FullYear(y) + 1, 0, 1)
  {
    var fy := FullYear(y);
    if d <= DaysInYear(fy) then FromDayOfYear(fy, d)
    else CalendarDate(fy + 1, 0, 1)
  }

  /** `a` is not later than `b`: comparison by year, then month, then day. */
  predicate NotAfter(a: CalendarDate, b: CalendarDate) {
    || a.year < b.year
    || (a.year == b.year && (a.month < b.month || (a.month == b.month && a.day <= b.day)))
  }

  /** The anniversary of `birth` in year y (possibly the 29th of February
      of a common year, which still compares correctly). */
  function Anniversary(birth: CalendarDate, y: int): CalendarDate {
    CalendarDate(y, birth.month, birth.day)
  }

  /** The age computation: the difference of the years, less one when the
      month and day of `birth` have not yet come round in `today`'s year. */
  function AgeYears(birth: CalendarDate, today: CalendarDate): int {
    var age := today.year - birth.year;
    var m := today.month - birth.month;
    if m < 0 || (m == 0 && today.day < birth.day) then age - 1 else age
  }

  /** The age is the number of anniversaries of `birth` that have passed
      by `today`: the anniversary `age` years on has been reached and the
      next one has not. */
  lemma AgeIsCompletedYears(birth: CalendarDate, today: CalendarDate)
    ensures NotAfter(Anniversary(birth, birth.year + AgeYears(birth, today)), today)
    ensures !NotAfter(Anniversary(birth, birth.year + AgeYears(birth, today) + 1), today)
  {
  }

  /** The age is negative exactly when `birth` is after `today`. */
  lemma AgeNegativeIffFuture(birth: CalendarDate, today: CalendarDate)
    ensures AgeYears(birth, today) < 0 <==> !NotAfter(birth, today)
  {
  }
}
