/** The CP/M 3 date stamp: a 16-bit count of days where day 1 is
    1 January 1978 (operations.c, is_leap_year and days_to_date). */
module Calendar {

  const EPOCH_YEAR: int := 1978

  /** Gregorian leap-year rule: every fourth year, but a century year only
      when it is a multiple of 400. Between 1978 and 2099 that is just
      every fourth year (2000 is a leap year). */
  predicate IsLeapYear(year: int)
    ensures IsLeapYear(year) ==> year % 4 == 0
    ensures year % 100 == 0 ==> (IsLeapYear(year) <==> year % 400 == 0)
    ensures year % 100 != 0 ==> (IsLeapYear(year) <==> year % 4 == 0)
    ensures EPOCH_YEAR <= year < 2100 ==> (IsLeapYear(year) <==> year % 4 == 0)
  {
    (year % 4 == 0 && year % 100 != 0) || year % 400 == 0
  }

  function DaysInYear(year: int): (d: nat)
    ensures d == 365 || d == 366
    ensures d == 366 <==> IsLeapYear(year)
  {
    if IsLeapYear(year) then 366 else 365
  }

  /** The table `days_in_month[leap][month]`, month counted from 0. */
  function DaysInMonth(leap: bool, month: nat): (d: nat)
    requires month < 12
    ensures 28 <= d <= 31
  {
    if month == 1 then (if leap then 29 else 28)
    else if month == 3 || month == 5 || month == 8 || month == 10 then 30
    else 31
  }

  /** Days of the months before month index `month` (0-based) of a year. */
  function DaysBeforeMonth(leap: bool, month: nat): nat
    requires month <= 12
  {
    if month == 0 then 0 else DaysBeforeMonth(leap, month - 1) + DaysInMonth(leap, month - 1)
  }

  /** Days from 1 January 1978 to 1 January of `year`. */
  function DaysBeforeYear(year: int): nat
    requires year >= EPOCH_YEAR
    decreases year - EPOCH_YEAR
  {
    if year == EPOCH_YEAR then 0 else DaysBeforeYear(year - 1) + DaysInYear(year - 1)
  }

  /** A calendar date whose month (1..12) and day are in range. */
  predicate ValidDate(year: int, month: int, day: int) {
    year >= EPOCH_YEAR && 1 <= month <= 12 &&
    1 <= day <= DaysInMonth(IsLeapYear(year), month - 1)
  }

  /** The CP/M day number of a date: the reference inverse of the conversion. */
  function DayNumber(year: int, month: int, day: int): (n: nat)
    requires ValidDate(year, month, day)
    ensures n >= day >= 1
    ensures year == EPOCH_YEAR && month == 1 ==> n == day
  {
    DaysBeforeYear(year) + DaysBeforeMonth(IsLeapYear(year), month - 1) + day
  }

  lemma {:induction false} MonthsFillYear(leap: bool)
    ensures DaysBeforeMonth(leap, 12) == (if leap then 366 else 365)
  {
    var feb := if leap then 29 else 28;
    assert DaysBeforeMonth(leap, 1) == 31;
    assert DaysBeforeMonth(leap, 2) == 31 + feb;
    assert DaysBeforeMonth(leap, 3) == 31 + feb + 31;
    assert DaysBeforeMonth(leap, 4) == 31 + feb + 31 + 30;
    assert DaysBeforeMonth(leap, 5) == 31 + feb + 31 + 30 + 31;
    assert DaysBeforeMonth(leap, 6) == 31 + feb + 31 + 30 + 31 + 30;
    assert DaysBeforeMonth(leap, 7) == 31 + feb + 31 + 30 + 31 + 30 + 31;
    assert DaysBeforeMonth(leap, 8) == 31 + feb + 31 + 30 + 31 + 30 + 31 + 31;
    assert DaysBeforeMonth(leap, 9) == 31 + feb + 31 + 30 + 31 + 30 + 31 + 31 + 30;
    assert DaysBeforeMonth(leap, 10) == 31 + feb + 31 + 30 + 31 + 30 + 31 + 31 + 30 + 31;
    assert DaysBeforeMonth(leap, 11) == 31 + feb + 31 + 30 + 31 + 30 + 31 + 31 + 30 + 31 + 30;
    assert DaysBeforeMonth(leap, 12) == 31 + feb + 31 + 30 + 31 + 30 + 31 + 31 + 30 + 31 + 30 + 31;
  }

  /** Months only add up: a later month starts no earlier. */
  lemma {:induction false} DaysBeforeMonthMonotone(leap: bool, m: nat, n: nat)
    requires m <= n <= 12
    ensures DaysBeforeMonth(leap, m) <= DaysBeforeMonth(leap, n)
    decreases n - m
  {
    if m < n {
      DaysBeforeMonthMonotone(leap, m, n - 1);
    }
  }

  lemma {:induction false} DaysBeforeYearMonotone(y: int, z: int)
    requires EPOCH_YEAR <= y <= z
    ensures DaysBeforeYear(y) + (z - y) * 365 <= DaysBeforeYear(z)
    decreases z - y
  {
    if y < z {
      DaysBeforeYearMonotone(y, z - 1);
    }
  }

  /** The year walk of days_to_date, as a function: from `rem` days into
      `year`, skip whole years. */
  function YearWalk(rem: nat, year: int): (r: (nat, int))
    requires year >= EPOCH_YEAR
    ensures r.1 >= year && r.0 < DaysInYear(r.1)
    ensures r.0 + DaysBeforeYear(r.1) == rem + DaysBeforeYear(year)
    decreases rem
  {
    if rem >= DaysInYear(year) then YearWalk(rem - DaysInYear(year), year + 1) else (rem, year)
  }

  /** The month walk: from `rem` days into month index `month`, skip whole months. */
  function MonthWalk(rem: nat, leap: bool, month: nat): (r: (nat, nat))
    requires month < 12
    requires rem + DaysBeforeMonth(leap, month) < DaysBeforeMonth(leap, 12)
    ensures month <= r.1 < 12 && r.0 < DaysInMonth(leap, r.1)
    ensures r.0 + DaysBeforeMonth(leap, r.1) == rem + DaysBeforeMonth(leap, month)
    decreases 12 - month
  {
    if rem >= DaysInMonth(leap, month) then
      assert month + 1 < 12 by {
        if month + 1 == 12 { assert false; }
      }
      MonthWalk(rem - DaysInMonth(leap, month), leap, month + 1)
    else (rem, month)
  }

  /** Each skipped year takes at least 365 days. */
  lemma {:induction false} YearWalkBound(rem: nat, year: int)
    requires year >= EPOCH_YEAR
    ensures (YearWalk(rem, year).1 - year) * 365 <= rem
    decreases rem
  {
    if rem >= DaysInYear(year) {
      YearWalkBound(rem - DaysInYear(year), year + 1);
    }
  }

  datatype Date = Date(year: int, month: int, day: int)

  /** What days_to_date leaves in the (date, month, day) fields for a day number. */
  function CalendarDate(days: nat): (d: Date)
    ensures days == 0 <==> d == Date(0, 0, 0)
    ensures days > 0 ==> ValidDate(d.year, d.month, d.day)
  {
    if days == 0 then Date(0, 0, 0)
    else
      var (rem, year) := YearWalk(days - 1, EPOCH_YEAR);
      MonthsFillYear(IsLeapYear(year));
      var (r, m) := MonthWalk(rem, IsLeapYear(year), 0);
      Date(year, m + 1, r + 1)
  }

  /** A 16-bit day number lands in a year that fits the 16-bit field. */
  lemma CalendarYearBound(days: nat)
    requires days < 0x1_0000
    ensures 0 <= CalendarDate(days).year < 0x1_0000
  {
    if days > 0 {
      YearWalkBound(days - 1, EPOCH_YEAR);
    }
  }

  /** Day 0 means "no date"; every other day number is a valid date that
      converts back to the same day number. */
  lemma CalendarDateCorrect(days: nat)
    ensures days == 0 ==> CalendarDate(days) == Date(0, 0, 0)
    ensures days > 0 ==>
      var d := CalendarDate(days);
      ValidDate(d.year, d.month, d.day) && DayNumber(d.year, d.month, d.day) == days
  {
    if days > 0 {
      var (rem, year) := YearWalk(days - 1, EPOCH_YEAR);
      MonthsFillYear(IsLeapYear(year));
      var (r, m) := MonthWalk(rem, IsLeapYear(year), 0);
      assert CalendarDate(days) == Date(year, m + 1, r + 1);
    }
  }

  /** A valid date lies inside its year: its day number is after all earlier
      years and no later than the end of its own year. */
  lemma {:induction false} DayNumberInYear(year: int, month: int, day: int)
    requires ValidDate(year, month, day)
    ensures DaysBeforeYear(year) < DayNumber(year, month, day) <= DaysBeforeYear(year + 1)
  {
    var leap := IsLeapYear(year);
    MonthsFillYear(leap);
    DaysBeforeMonthMonotone(leap, month, 12);
  }

  /** Two valid dates with the same day number are the same date. */
  lemma DayNumberInjective(d1: Date, d2: Date)
    requires ValidDate(d1.year, d1.month, d1.day) && ValidDate(d2.year, d2.month, d2.day)
    requires DayNumber(d1.year, d1.month, d1.day) == DayNumber(d2.year, d2.month, d2.day)
    ensures d1 == d2
  {
    SameDayNumberSameYear(d1, d2);
    SameDayNumberSameMonth(d1, d2);
  }

  lemma SameDayNumberSameYear(d1: Date, d2: Date)
    requires ValidDate(d1.year, d1.month, d1.day) && ValidDate(d2.year, d2.month, d2.day)
    requires DayNumber(d1.year, d1.month, d1.day) == DayNumber(d2.year, d2.month, d2.day)
    ensures d1.year == d2.year
  {
    DayNumberInYear(d1.year, d1.month, d1.day);
    DayNumberInYear(d2.year, d2.month, d2.day);
    if d1.year < d2.year {
      DaysBeforeYearMonotone(d1.year + 1, d2.year);
      assert false;
    } else if d2.year < d1.year {
      DaysBeforeYearMonotone(d2.year + 1, d1.year);
      assert false;
    }
  }

  lemma SameDayNumberSameMonth(d1: Date, d2: Date)
    requires ValidDate(d1.year, d1.month, d1.day) && ValidDate(d2.year, d2.month, d2.day)
    requires d1.year == d2.year
    requires DayNumber(d1.year, d1.month, d1.day) == DayNumber(d2.year, d2.month, d2.day)
    ensures d1.month == d2.month
  {
    var leap := IsLeapYear(d1.year);
    if d1.month < d2.month {
      DaysBeforeMonthMonotone(leap, d1.month, d2.month - 1);
      assert false;
    } else if d2.month < d1.month {
      DaysBeforeMonthMonotone(leap, d2.month, d1.month - 1);
      assert false;
    }
  }

  /** days_to_date: in C the 16-bit `date` field holds the day number on
      entry and the year on exit; `month` and `day` are overwritten. */
  method DaysToDate(days: nat) returns (year: int, month: int, day: int)
    requires days < 0x1_0000
    ensures Date(year, month, day) == CalendarDate(days)
    ensures days == 0 ==> year == 0 && month == 0 && day == 0
    ensures days > 0 ==> ValidDate(year, month, day) && DayNumber(year, month, day) == days
    ensures year < 0x1_0000 && 0 <= month < 256 && 0 <= day < 256
  {
    CalendarDateCorrect(days);
    CalendarYearBound(days);
    if days == 0 {
      year, month, day := 0, 0, 0;
      return;
    }
    var rem: nat;
    rem, year := WalkYears(days - 1);
    var leap := IsLeapYear(year);
    MonthsFillYear(leap);
    var m: nat;
    rem, m := WalkMonths(rem, leap);
    day := rem + 1;
    month := m + 1;
  }

  /** The year loop of days_to_date. */
  method WalkYears(days: nat) returns (rem: nat, year: int)
    ensures (rem, year) == YearWalk(days, EPOCH_YEAR)
  {
    rem := days;
    year := EPOCH_YEAR;
    while rem >= 365
      invariant year >= EPOCH_YEAR
      invariant YearWalk(rem, year) == YearWalk(days, EPOCH_YEAR)
      decreases rem
    {
      var daysInYear := if IsLeapYear(year) then 366 else 365;
      if rem < daysInYear {
        break;
      }
      rem := rem - daysInYear;
      year := year + 1;
    }
  }

  /** The month loop of days_to_date. */
  method WalkMonths(days: nat, leap: bool) returns (rem: nat, m: nat)
    requires days < DaysBeforeMonth(leap, 12)
    ensures (rem, m) == MonthWalk(days, leap, 0)
  {
    rem := days;
    m := 0;
    while rem >= DaysInMonth(leap, m)
      invariant m < 12
      invariant rem + DaysBeforeMonth(leap, m) < DaysBeforeMonth(leap, 12)
      invariant MonthWalk(rem, leap, m) == MonthWalk(days, leap, 0)
      decreases 12 - m
    {
      assert m + 1 < 12 by {
        if m + 1 == 12 { assert false; }
      }
      rem := rem - DaysInMonth(leap, m);
      m := m + 1;
    }
  }
}
