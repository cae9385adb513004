/** Gregorian date arithmetic of the calendar widget: the leap-year test, the
    month lengths (with the previous/next year wrap) and the closed-form
    day-of-week formula.  The formula is checked against an independent
    reference: the Rata Die day count, in which day 1 is January 1 of year 1
    of the proleptic Gregorian calendar. */
module DateMath {

  /** Leap-year test: 1 for a leap year, 0 otherwise (Gregorian rule). */
  function IsLeapYear(year: nat): (r: nat)
    ensures r <= 1
    ensures r == 1 <==> year % 4 == 0 && (year % 100 != 0 || year % 400 == 0)
  {
    if year % 4 != 0 || (year % 100 == 0 && year % 400 != 0) then 0 else 1
  }

  /** Number of leap years among 1..year, counted one year at a time. */
  function LeapYearsThrough(year: nat): nat
  {
    if year == 0 then 0 else LeapYearsThrough(year - 1) + IsLeapYear(year)
  }

  /** The `b/4 - b/100 + b/400` term of the weekday formula. */
  function LeapTerm(b: nat): int
  {
    b / 4 - b / 100 + b / 400
  }

  /** `b / k` grows by one exactly when `k` divides `b` (for the three
      divisors of the leap rule). */
  lemma DivStep(b: nat, k: nat)
    requires b >= 1 && (k == 4 || k == 100 || k == 400)
    ensures b / k - (b - 1) / k == if b % k == 0 then 1 else 0
  {
    if k == 4 {
    } else if k == 100 {
    } else {
    }
  }

  /** One step of the leap term adds exactly the leap-year indicator. */
  lemma {:induction false} LeapTermStep(b: nat)
    requires b >= 1
    ensures LeapTerm(b) - LeapTerm(b - 1) == IsLeapYear(b)
  {
    DivStep(b, 4);
    DivStep(b, 100);
    DivStep(b, 400);
  }

  /** The leap term of the weekday formula counts the leap years 1..b. */
  lemma {:induction false} LeapYearsClosedForm(b: nat)
    ensures LeapYearsThrough(b) == LeapTerm(b)
  {
    if b > 0 {
      LeapYearsClosedForm(b - 1);
      LeapTermStep(b);
    }
  }

  /** The normalised (year, month index 0..11) that `MonthLength` looks up. */
  function NormaliseMonth(year: int, month: int): (r: (int, int))
    requires -11 <= month <= 24
    ensures 0 <= r.1 < 12
    ensures 12 * r.0 + r.1 == 12 * year + month - 1
  {
    var m := month - 1;
    var (y1, m1) := if m < 0 then (year - 1, 12 + m) else (year, m);
    if m1 >= 12 then (y1 + 1, m1 - 12) else (y1, m1)
  }

  /** The year whose leap status `MonthLength` consults must not be negative. */
  predicate MonthLengthDomain(year: int, month: int)
  {
    -11 <= month <= 24 && NormaliseMonth(year, month).0 >= 0
  }

  /** Length of the month in days; 28 + leap for February, otherwise
      31 - month % 7 % 2 on the 0-based month.  Months -11..0 and 13..24
      mean the previous and the next year. */
  function MonthLength(year: int, month: int): (r: nat)
    requires MonthLengthDomain(year, month)
    ensures 28 <= r <= 31
    ensures 1 <= month <= 12 && year >= 0 ==> r == MonthTable(year)[month - 1]
  {
    var (y, m) := NormaliseMonth(year, month);
    if m == 1 then 28 + IsLeapYear(y) else 31 - m % 7 % 2
  }

  /** The familiar table of month lengths, January first. */
  function MonthTable(year: nat): (t: seq<nat>)
    ensures |t| == 12
  {
    [31, 28 + IsLeapYear(year), 31, 30, 31, 30, 31, 31, 30, 31, 30, 31]
  }

  /** Month 0 is December of the previous year, month -11 its January. */
  lemma MonthLengthPreviousYear(year: int, month: int)
    requires -11 <= month <= 0 && year >= 1
    ensures MonthLengthDomain(year, month) && MonthLengthDomain(year - 1, month + 12)
    ensures MonthLength(year, month) == MonthLength(year - 1, month + 12)
  {
  }

  /** Month 13 is January of the next year, month 24 its December. */
  lemma MonthLengthNextYear(year: int, month: int)
    requires 13 <= month <= 24 && year >= 0
    ensures MonthLengthDomain(year, month) && MonthLengthDomain(year + 1, month - 12)
    ensures MonthLength(year, month) == MonthLength(year + 1, month - 12)
  {
  }

  /** The weekday formula reads `year - (month < 3)` as an unsigned number,
      so January and February of year 0 are out of its range. */
  predicate DayOfWeekDomain(year: int, month: int, day: int)
  {
    1 <= month <= 12 && day >= 0 && year >= (if month < 3 then 1 else 0)
  }

  /** The sum whose remainder modulo 7 is the day of the week. */
  function WeekdaySum(year: int, month: int, day: int): int
    requires DayOfWeekDomain(year, month, day)
  {
    var a := if month < 3 then 1 else 0;
    var b := year - a;
    day + 31 * (month - 2 + 12 * a) / 12 + b + LeapTerm(b)
  }

  /** Day of the week: 0..6 meaning Sunday..Saturday, or Monday..Sunday when
      the week starts on Monday. */
  function DayOfWeek(year: int, month: int, day: int, mondayFirst: bool): (r: nat)
    requires DayOfWeekDomain(year, month, day)
    ensures r < 7
  {
    var s := WeekdaySum(year, month, day);
    if mondayFirst then (s - 1) % 7 else s % 7
  }

  /** Number of days of year `year`. */
  function DaysInYear(year: nat): nat
  {
    365 + IsLeapYear(year)
  }

  /** Days in the years 0 .. year-1. */
  function DaysBeforeYear(year: nat): nat
  {
    if year == 0 then 0 else DaysBeforeYear(year - 1) + DaysInYear(year - 1)
  }

  /** Days in the months 1 .. month-1 of `year`. */
  function DaysBeforeMonth(year: nat, month: int): nat
    requires 1 <= month <= 13
  {
    if month == 1 then 0 else DaysBeforeMonth(year, month - 1) + MonthLength(year, month - 1)
  }

  /** Rata Die: consecutive day numbers with day 1 = January 1 of year 1
      (year 0 has 366 days). */
  function RataDie(year: nat, month: int, day: int): int
    requires 1 <= month <= 12
  {
    DaysBeforeYear(year) + DaysBeforeMonth(year, month) + day - 366
  }

  /** The reference weekday of a date, from its Rata Die number (day 1 was a
      Monday). */
  function Weekday(year: nat, month: int, day: int, mondayFirst: bool): nat
    requires 1 <= month <= 12
  {
    (RataDie(year, month, day) - (if mondayFirst then 1 else 0)) % 7
  }

  lemma {:induction false} DaysBeforeYearClosedForm(year: nat)
    ensures DaysBeforeYear(year) == 365 * year + (if year == 0 then 0 else 1 + LeapTerm(year - 1))
  {
    if year > 0 {
      DaysBeforeYearClosedForm(year - 1);
      if year >= 2 {
        LeapTermStep(year - 1);
      }
    }
  }

  /** Cumulative days before each month in a common year. */
  function CommonDaysBefore(month: int): nat
    requires 1 <= month <= 13
  {
    [0, 31, 59, 90, 120, 151, 181, 212, 243, 273, 304, 334, 365][month - 1]
  }

  lemma {:induction false} DaysBeforeMonthTable(year: nat, month: int)
    requires 1 <= month <= 13
    ensures DaysBeforeMonth(year, month) == CommonDaysBefore(month) + (if month >= 3 then IsLeapYear(year) else 0)
  {
    if month > 1 {
      DaysBeforeMonthTable(year, month - 1);
      var len := MonthLength(year, month - 1);
      assert len == MonthTable(year)[month - 2];
      CommonDaysStep(month);
      MonthTableLeap(year, month - 1);
    }
  }

  /** The common-year table of days before a month grows by the month's
      length in a common year. */
  lemma CommonDaysStep(month: int)
    requires 2 <= month <= 13
    ensures CommonDaysBefore(month) == CommonDaysBefore(month - 1) + MonthTable(1)[month - 2]
  {
  }

  /** Only February's length depends on the year. */
  lemma MonthTableLeap(year: nat, month: int)
    requires 1 <= month <= 12
    ensures MonthTable(year)[month - 1] == MonthTable(1)[month - 1] + (if month == 2 then IsLeapYear(year) else 0)
  {
  }

  /** A whole year of months adds up to the year's length. */
  lemma MonthsMakeYear(year: nat)
    ensures DaysBeforeMonth(year, 13) == DaysInYear(year)
  {
    DaysBeforeMonthTable(year, 13);
  }

  /** The month part of the weekday formula, less the days before the month,
      is a multiple of 7; `q` is the multiple. */
  lemma MonthOffset(month: int) returns (q: int)
    requires 1 <= month <= 12
    ensures var a := if month < 3 then 1 else 0;
            31 * (month - 2 + 12 * a) / 12 - CommonDaysBefore(month) + 364 + (1 - a) == 7 * q
  {
    q := [56, 52, 44, 40, 36, 32, 28, 24, 20, 16, 12, 8][month - 1];
  }

  /** Adding a multiple of 7 does not change a remainder modulo 7. */
  lemma ModSevenShift(x: int, k: int)
    ensures (x + 7 * k) % 7 == x % 7
  {
  }

  /** Rata Die in closed form, with the leap term the weekday formula uses. */
  lemma {:induction false} RataDieClosedForm(year: int, month: int, day: int)
    requires DayOfWeekDomain(year, month, day)
    ensures RataDie(year, month, day)
            == 365 * year + LeapTerm(year - (if month < 3 then 1 else 0)) + CommonDaysBefore(month) + day - 365
  {
    DaysBeforeYearClosedForm(year);
    DaysBeforeMonthTable(year, month);
    if month >= 3 && year >= 1 {
      LeapTermStep(year);
    }
  }

  /** The Rata Die number differs from the weekday sum by a multiple of 7. */
  lemma {:induction false} WeekdaySumIsRataDie(year: int, month: int, day: int) returns (k: int)
    requires DayOfWeekDomain(year, month, day)
    ensures WeekdaySum(year, month, day) == RataDie(year, month, day) + 7 * k
  {
    RataDieClosedForm(year, month, day);
    var q := MonthOffset(month);
    var a := if month < 3 then 1 else 0;
    var t := 31 * (month - 2 + 12 * a) / 12;
    var lt := LeapTerm(year - a);
    assert WeekdaySum(year, month, day) == day + t + (year - a) + lt;
    SumDifference(day, t, CommonDaysBefore(month), q, year, a, lt, RataDie(year, month, day), WeekdaySum(year, month, day));
    k := q - 52 * year;
  }

  /** The bookkeeping behind `WeekdaySumIsRataDie`, on plain numbers. */
  lemma SumDifference(day: int, t: int, cdb: int, q: int, y: int, a: int, lt: int, rd: int, ws: int)
    requires t - cdb + 364 + (1 - a) == 7 * q
    requires rd == 365 * y + lt + cdb + day - 365
    requires ws == day + t + (y - a) + lt
    ensures ws == rd + 7 * (q - 52 * y)
  {
  }

  /** The closed-form formula agrees with counting days: it is the Rata Die
      number modulo 7 (shifted by one when the week starts on Monday). */
  lemma {:induction false} DayOfWeekIsWeekday(year: int, month: int, day: int, mondayFirst: bool)
    requires DayOfWeekDomain(year, month, day)
    ensures DayOfWeek(year, month, day, mondayFirst) == Weekday(year, month, day, mondayFirst)
    ensures DayOfWeek(year, month, day, mondayFirst) == (RataDie(year, month, day) - (if mondayFirst then 1 else 0)) % 7
  {
    var k := WeekdaySumIsRataDie(year, month, day);
    var shift := if mondayFirst then 1 else 0;
    assert DayOfWeek(year, month, day, mondayFirst) == (WeekdaySum(year, month, day) - shift) % 7;
    ModSevenShift(RataDie(year, month, day) - shift, k);
  }

  /** The Monday-first variant is the Sunday-first one moved back by a day. */
  lemma DayOfWeekMondayShift(year: int, month: int, day: int)
    requires DayOfWeekDomain(year, month, day)
    ensures DayOfWeek(year, month, day, true) == (DayOfWeek(year, month, day, false) + 6) % 7
  {
    var s := WeekdaySum(year, month, day);
    assert DayOfWeek(year, month, day, true) == (s - 1) % 7;
    assert DayOfWeek(year, month, day, false) == s % 7;
    ModSevenShift(s % 7 + 6, s / 7 - 1);
  }

  /** Within the formula, the next day number is the next weekday. */
  lemma DayOfWeekNextDay(year: int, month: int, day: int, mondayFirst: bool)
    requires DayOfWeekDomain(year, month, day)
    ensures DayOfWeek(year, month, day + 1, mondayFirst) == (DayOfWeek(year, month, day, mondayFirst) + 1) % 7
  {
    var shift := if mondayFirst then 1 else 0;
    var s := WeekdaySum(year, month, day) - shift;
    assert WeekdaySum(year, month, day + 1) == WeekdaySum(year, month, day) + 1;
    assert DayOfWeek(year, month, day, mondayFirst) == s % 7;
    assert DayOfWeek(year, month, day + 1, mondayFirst) == (s + 1) % 7;
    ModSevenNext(s);
  }

  /** January 1, 2024 was a Monday. */
  lemma DayOfWeekReferenceDate()
    ensures DayOfWeek(2024, 1, 1, false) == 1
    ensures DayOfWeek(2024, 1, 1, true) == 0
  {
    assert LeapTerm(2023) == 490;
    assert WeekdaySum(2024, 1, 1) == 2542;
  }

  /** A real calendar date: a month 1..12 and a day within its length. */
  predicate ValidDate(year: int, month: int, day: int)
  {
    year >= 0 && 1 <= month <= 12 && 1 <= day <= MonthLength(year, month)
  }

  /** The calendar day after a valid date, across month and year ends. */
  function NextDate(year: int, month: int, day: int): (int, int, int)
    requires ValidDate(year, month, day)
  {
    if day < MonthLength(year, month) then (year, month, day + 1)
    else if month < 12 then (year, month + 1, 1)
    else (year + 1, 1, 1)
  }

  /** The day after a valid date is valid and has the next Rata Die number. */
  lemma {:induction false} RataDieNextDate(year: int, month: int, day: int)
    requires ValidDate(year, month, day)
    ensures var (y, m, d) := NextDate(year, month, day);
            ValidDate(y, m, d) && RataDie(y, m, d) == RataDie(year, month, day) + 1
  {
    if day == MonthLength(year, month) && month == 12 {
      MonthsMakeYear(year);
    }
  }

  /** Remainders modulo 7 of consecutive numbers are consecutive. */
  lemma ModSevenNext(x: int)
    ensures (x + 1) % 7 == (x % 7 + 1) % 7
  {
  }

  /** The remainders modulo 7 of two consecutive numbers are consecutive. */
  lemma ConsecutiveResidues(x: int, w: int, w': int)
    requires w == x % 7 && w' == (x + 1) % 7
    ensures w' == (w + 1) % 7
  {
    ModSevenNext(x);
  }

  /** From one calendar day to the next, across month and year ends, the
      weekday formula advances by one modulo 7. */
  lemma {:induction false} DayOfWeekNextDate(year: int, month: int, day: int, mondayFirst: bool)
    requires ValidDate(year, month, day) && DayOfWeekDomain(year, month, day)
    ensures var (y, m, d) := NextDate(year, month, day);
            DayOfWeekDomain(y, m, d)
            && DayOfWeek(y, m, d, mondayFirst) == (DayOfWeek(year, month, day, mondayFirst) + 1) % 7
  {
    var (y, m, d) := NextDate(year, month, day);
    RataDieNextDate(year, month, day);
    assert DayOfWeekDomain(y, m, d);
    DayOfWeekConsecutive(year, month, day, y, m, d, mondayFirst);
  }

  /** Two dates with consecutive Rata Die numbers have consecutive weekdays. */
  lemma DayOfWeekConsecutive(year: int, month: int, day: int, y: int, m: int, d: int, mondayFirst: bool)
    requires DayOfWeekDomain(year, month, day) && DayOfWeekDomain(y, m, d)
    requires RataDie(y, m, d) == RataDie(year, month, day) + 1
    ensures DayOfWeek(y, m, d, mondayFirst) == (DayOfWeek(year, month, day, mondayFirst) + 1) % 7
  {
    DayOfWeekIsWeekday(year, month, day, mondayFirst);
    DayOfWeekIsWeekday(y, m, d, mondayFirst);
    ConsecutiveResidues(RataDie(year, month, day) - (if mondayFirst then 1 else 0),
                        DayOfWeek(year, month, day, mondayFirst), DayOfWeek(y, m, d, mondayFirst));
  }
}
