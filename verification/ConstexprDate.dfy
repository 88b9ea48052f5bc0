/**
  constexpr_date: date arithmetic by counting loops.  Years are unbounded integers.
*/
module ConstexprDate {

  datatype Date = Date(year: int, month: nat, day: nat)

  predicate IsLeapYear(year: int) {
    (year % 4 == 0 && year % 100 != 0) || year % 400 == 0
  }

  function YearLength(year: int): (days: nat) {
    if IsLeapYear(year) then 366 else 365
  }

  function DaysInMonth(year: int, month: nat): (days: nat)
    requires 1 <= month <= 12
    ensures 28 <= days <= 31
  {
    if month == 2 && IsLeapYear(year) then 29
    else [31, 28, 31, 30, 31, 30, 31, 31, 30, 31, 30, 31][month - 1]
  }

  predicate Valid(d: Date) {
    1 <= d.month <= 12 && 1 <= d.day <= DaysInMonth(d.year, d.month)
  }

  // ---------------------------------------------------------------------------------
  // The reference: an absolute day number in the proleptic Gregorian calendar
  // ---------------------------------------------------------------------------------

  /** Day number of 1 January: 1970 begins with day 0, and every year has its length. */
  function YearStart(year: int): (n: int)
    decreases if year > 1970 then year - 1970 else 1970 - year
  {
    if year == 1970 then 0
    else if year > 1970 then YearStart(year - 1) + YearLength(year - 1)
    else YearStart(year + 1) - YearLength(year)
  }

  function MonthsBefore(year: int, month: nat): (days: nat)
    requires 1 <= month <= 13
  {
    if month == 1 then 0 else MonthsBefore(year, month - 1) + DaysInMonth(year, month - 1)
  }

  function DayNumber(d: Date): (n: int)
    requires Valid(d)
  {
    YearStart(d.year) + MonthsBefore(d.year, d.month) + d.day - 1
  }

  /** The next day, said with the calendar alone. */
  function NextDay(d: Date): (r: Date)
    requires Valid(d)
    ensures Valid(r)
  {
    if d.day < DaysInMonth(d.year, d.month) then d.(day := d.day + 1)
    else if d.month < 12 then Date(d.year, d.month + 1, 1)
    else Date(d.year + 1, 1, 1)
  }

  lemma YearStep(year: int)
    ensures YearStart(year + 1) == YearStart(year) + YearLength(year)
  {
  }

  /** Leap years up to and including year, counted from year 0 (negative before it). */
  function Leaps(year: int): (n: int) {
    year / 4 - year / 100 + year / 400
  }

  lemma LeapStep(year: int)
    ensures Leaps(year) == Leaps(year - 1) + YearLength(year) - 365
  {
    QuarterStep(year);
    CenturyStep(year);
    FourCenturyStep(year);
    LeapCount(year);
  }

  lemma QuarterStep(year: int)
    ensures year / 4 == (year - 1) / 4 + (if year % 4 == 0 then 1 else 0)
  {}

  lemma CenturyStep(year: int)
    ensures year / 100 == (year - 1) / 100 + (if year % 100 == 0 then 1 else 0)
  {}

  lemma FourCenturyStep(year: int)
    ensures year / 400 == (year - 1) / 400 + (if year % 400 == 0 then 1 else 0)
  {}

  /** A multiple of 400 is one of 100, and that is one of 4. */
  lemma LeapCount(year: int)
    ensures YearLength(year) - 365 ==
            (if year % 4 == 0 then 1 else 0) - (if year % 100 == 0 then 1 else 0) + (if year % 400 == 0 then 1 else 0)
  {
    CenturiesAreQuarters(year);
    FourCenturiesAreCenturies(year);
  }

  lemma CenturiesAreQuarters(year: int)
    ensures year % 100 == 0 ==> year % 4 == 0
  {}

  lemma FourCenturiesAreCenturies(year: int)
    ensures year % 400 == 0 ==> year % 100 == 0
  {}

  /** The Gregorian closed form of the day number of 1 January. */
  lemma {:induction false} YearStartClosed(year: int)
    ensures YearStart(year) == 365 * (year - 1970) + Leaps(year - 1) - Leaps(1969)
    decreases if year > 1970 then year - 1970 else 1970 - year
  {
    if year > 1970 {
      YearStartClosed(year - 1);
      LeapStep(year - 1);
    } else if year < 1970 {
      YearStartClosed(year + 1);
      LeapStep(year);
    }
  }

  lemma YearHasTwelveMonths(year: int)
    ensures MonthsBefore(year, 13) == YearLength(year)
  {
    assert MonthsBefore(year, 2) == 31;
    assert MonthsBefore(year, 3) == 31 + DaysInMonth(year, 2);
    assert MonthsBefore(year, 4) == MonthsBefore(year, 3) + 31;
    assert MonthsBefore(year, 5) == MonthsBefore(year, 4) + 30;
    assert MonthsBefore(year, 6) == MonthsBefore(year, 5) + 31;
    assert MonthsBefore(year, 7) == MonthsBefore(year, 6) + 30;
    assert MonthsBefore(year, 8) == MonthsBefore(year, 7) + 31;
    assert MonthsBefore(year, 9) == MonthsBefore(year, 8) + 31;
    assert MonthsBefore(year, 10) == MonthsBefore(year, 9) + 30;
    assert MonthsBefore(year, 11) == MonthsBefore(year, 10) + 31;
    assert MonthsBefore(year, 12) == MonthsBefore(year, 11) + 30;
  }

  /** Day numbers go up by one from day to day. */
  lemma NextDayNumber(d: Date)
    requires Valid(d)
    ensures DayNumber(NextDay(d)) == DayNumber(d) + 1
  {
    if d.day == DaysInMonth(d.year, d.month) && d.month == 12 {
      YearHasTwelveMonths(d.year);
      YearStep(d.year);
    }
  }

  lemma {:induction false} YearsGoUp(a: int, b: int)
    requires a <= b
    ensures YearStart(a) + 365 * (b - a) <= YearStart(b)
    decreases b - a
  {
    if a < b {
      YearsGoUp(a, b - 1);
      YearStep(b - 1);
    }
  }

  lemma {:induction false} MonthsGoUp(year: int, a: nat, b: nat)
    requires 1 <= a <= b <= 13
    ensures MonthsBefore(year, a) <= MonthsBefore(year, b)
    ensures a < b ==> MonthsBefore(year, a) + DaysInMonth(year, a) <= MonthsBefore(year, b)
    decreases b - a
  {
    if a < b { MonthsGoUp(year, a, b - 1); }
  }

  /** A date lies in its year. */
  lemma InsideYear(d: Date)
    requires Valid(d)
    ensures YearStart(d.year) <= DayNumber(d) < YearStart(d.year + 1)
  {
    MonthsGoUp(d.year, d.month + 1, 13);
    YearHasTwelveMonths(d.year);
    YearStep(d.year);
  }

  predicate Before(d: Date, e: Date) {
    d.year < e.year || (d.year == e.year && (d.month < e.month || (d.month == e.month && d.day < e.day)))
  }

  /** Day numbers order dates exactly as year, month and day do; so equal numbers mean equal dates. */
  lemma DayNumberOrders(d: Date, e: Date)
    requires Valid(d) && Valid(e)
    ensures DayNumber(d) < DayNumber(e) <==> Before(d, e)
    ensures DayNumber(d) == DayNumber(e) <==> d == e
  {
    EarlierIsLess(d, e);
    EarlierIsLess(e, d);
  }

  lemma EarlierIsLess(d: Date, e: Date)
    requires Valid(d) && Valid(e)
    ensures Before(d, e) ==> DayNumber(d) < DayNumber(e)
  {
    InsideYear(d);
    InsideYear(e);
    if d.year < e.year {
      YearsGoUp(d.year + 1, e.year);
    } else if d.year == e.year && d.month < e.month {
      MonthsGoUp(d.year, d.month, e.month);
    }
  }

  // ---------------------------------------------------------------------------------
  // Addition
  // ---------------------------------------------------------------------------------

  /** operator+: whole months first, then the days that are left. */
  method AddDays(d: Date, n: int) returns (result: Date)
    requires Valid(d)
    ensures Valid(result)
    ensures DayNumber(result) == DayNumber(d) + n
  {
    result := d;
    var days := n;
    if days >= 0 {
      while days > 0
        invariant days >= 0
        invariant Valid(result)
        invariant DayNumber(result) + days == DayNumber(d) + n
      {
        var daysInCurrentMonth := DaysInMonth(result.year, result.month);
        var daysLeftInMonth := daysInCurrentMonth - result.day + 1;
        if days >= daysLeftInMonth {
          FirstOfNextMonth(result);
          days := days - daysLeftInMonth;
          result := result.(day := 1, month := result.month + 1);
          if result.month > 12 {
            result := result.(month := 1, year := result.year + 1);
          }
        } else {
          result := result.(day := result.day + days);
          days := 0;
        }
      }
    } else {
      days := -days;
      while days > 0
        invariant days >= 0
        invariant Valid(result)
        invariant DayNumber(result) - days == DayNumber(d) + n
      {
        if days >= result.day {
          LastOfPreviousMonth(result);
          days := days - result.day;
          result := result.(month := result.month - 1);
          if result.month == 0 {
            result := result.(month := 12, year := result.year - 1);
          }
          result := result.(day := DaysInMonth(result.year, result.month));
        } else {
          result := result.(day := result.day - days);
          days := 0;
        }
      }
    }
  }

  function NextMonth(d: Date): (r: Date)
    requires Valid(d)
  {
    if d.month < 12 then Date(d.year, d.month + 1, 1) else Date(d.year + 1, 1, 1)
  }

  lemma FirstOfNextMonth(d: Date)
    requires Valid(d)
    ensures Valid(NextMonth(d))
    ensures DayNumber(NextMonth(d)) == DayNumber(d) + (DaysInMonth(d.year, d.month) - d.day + 1)
  {
    if d.month == 12 {
      YearHasTwelveMonths(d.year);
      YearStep(d.year);
    }
  }

  function LastOfPrevious(d: Date): (r: Date)
    requires Valid(d)
  {
    if d.month > 1 then Date(d.year, d.month - 1, DaysInMonth(d.year, d.month - 1)) else Date(d.year - 1, 12, 31)
  }

  lemma LastOfPreviousMonth(d: Date)
    requires Valid(d)
    ensures Valid(LastOfPrevious(d))
    ensures DayNumber(LastOfPrevious(d)) == DayNumber(d) - d.day
  {
    if d.month == 1 {
      YearHasTwelveMonths(d.year - 1);
      YearStep(d.year - 1);
    }
  }

  // ---------------------------------------------------------------------------------
  // Days since the epoch
  // ---------------------------------------------------------------------------------

  /** What the year loop of to_days_since_epoch adds up: nothing before 1970. */
  function EpochYear(year: int): (n: int) {
    if year < 1970 then 0 else YearStart(year)
  }

  function DaysSinceEpoch(d: Date): (n: int)
    requires Valid(d)
  {
    EpochYear(d.year) + MonthsBefore(d.year, d.month) + d.day - 1
  }

  /** to_days_since_epoch. */
  method ToDaysSinceEpoch(d: Date) returns (days: int)
    requires Valid(d)
    ensures days == DaysSinceEpoch(d)
  {
    days := 0;
    var y := 1970;
    while y < d.year
      invariant y == 1970 || 1970 < y <= d.year
      invariant days == YearStart(y)
    {
      YearStep(y);
      days := days + (if (y % 4 == 0 && y % 100 != 0) || y % 400 == 0 then 366 else 365);
      y := y + 1;
    }
    var m := 1;
    ghost var start := days;
    while m < d.month
      invariant 1 <= m <= d.month
      invariant days == start + MonthsBefore(d.year, m)
    {
      days := days + [31, 28, 31, 30, 31, 30, 31, 31, 30, 31, 30, 31][m - 1];
      if m == 2 && IsLeapYear(d.year) {
        days := days + 1;
      }
      m := m + 1;
    }
    days := days + d.day - 1;
  }

  /** operator-. */
  method Difference(d: Date, e: Date) returns (days: int)
    requires Valid(d) && Valid(e)
    ensures days == DaysSinceEpoch(d) - DaysSinceEpoch(e)
  {
    var x := ToDaysSinceEpoch(d);
    var y := ToDaysSinceEpoch(e);
    days := x - y;
  }

  /** day_of_week: 0 is Sunday. */
  function DayOfWeek(d: Date): (w: nat)
    requires Valid(d)
    ensures w < 7
  {
    (DaysSinceEpoch(d) + 4) % 7
  }

  /** The two counts agree from 1970 on; before, the epoch count restarts with every year. */
  lemma EpochAgreesFrom1970(d: Date)
    requires Valid(d)
    ensures DaysSinceEpoch(d) == DayNumber(d) <==> d.year >= 1970
    ensures d.year < 1970 ==> 0 <= DaysSinceEpoch(d) < YearLength(d.year)
  {
    InsideYear(d);
    YearStep(d.year);
    if d.year < 1970 {
      YearsGoUp(d.year, 1970);
    }
  }

  /** n days after d, the epoch count can still be right. */
  predicate CountsOn(d: Date, n: int)
    requires Valid(d)
  {
    0 <= DaysSinceEpoch(d) + n && (d.year >= 1970 || DaysSinceEpoch(d) + n < YearLength(d.year))
  }

  /**
    Adding n days adds n to the epoch count exactly when the sum does not leave the years from
    1970 on or, for a date before 1970, does not leave its year.
  */
  lemma EpochCountAdds(d: Date, n: int, r: Date)
    requires Valid(d) && Valid(r) && DayNumber(r) == DayNumber(d) + n
    ensures DaysSinceEpoch(r) == DaysSinceEpoch(d) + n <==> CountsOn(d, n)
  {
    InsideYear(d);
    InsideYear(r);
    YearStep(d.year);
    YearStep(r.year);
    SameEpochYear(d.year, r.year);
    if d.year >= 1970 {
      YearsGoUp(1970, d.year);
      if r.year >= 1970 { YearsGoUp(1970, r.year); } else { YearsGoUp(r.year + 1, 1970); }
    } else if r.year > d.year {
      YearsGoUp(d.year + 1, r.year);
    } else if r.year < d.year {
      YearsGoUp(r.year + 1, d.year);
    }
  }

  /** Weekdays of two counts, the second one more than the first or started afresh after a year. */
  lemma NextMod(a: int, b: int)
    ensures b == a + 1 ==> (b + 4) % 7 == ((a + 4) % 7 + 1) % 7
    ensures b == 0 && 364 <= a <= 365 ==> (b + 4) % 7 != ((a + 4) % 7 + 1) % 7
  {}

  /** The epoch count goes on by one, except that it starts afresh at the end of a year before 1970. */
  lemma NextEpochCount(d: Date)
    requires Valid(d)
    ensures DaysSinceEpoch(NextDay(d)) ==
            if d.year >= 1970 || NextDay(d).year == d.year then DaysSinceEpoch(d) + 1 else 0
    ensures d.year < 1970 && NextDay(d).year != d.year ==> 364 <= DaysSinceEpoch(d) <= 365
  {
    YearHasTwelveMonths(d.year);
    YearStep(d.year);
  }

  /**
    The next day has the next weekday, exactly when the epoch count goes on from one to the
    other: always from 1970 on, and before that inside a year.
  */
  lemma NextDayOfWeekIff(d: Date)
    requires Valid(d)
    ensures DayOfWeek(NextDay(d)) == (DayOfWeek(d) + 1) % 7 <==> d.year >= 1970 || NextDay(d).year == d.year
  {
    NextEpochCount(d);
    NextMod(DaysSinceEpoch(d), DaysSinceEpoch(NextDay(d)));
  }

  /** The counts of two years are off by the same amount only inside one year or from 1970 on. */
  lemma SameEpochYear(a: int, b: int)
    ensures YearStart(a) - EpochYear(a) == YearStart(b) - EpochYear(b) <==> a == b || (a >= 1970 && b >= 1970)
  {
    YearStep(a);
    if a < 1970 { YearsGoUp(a, 1970); }
    if b < 1970 { YearsGoUp(b, 1970); }
    if a < b { YearsGoUp(a, b); } else { YearsGoUp(b, a); }
  }

  /** d + (e - d): gives back e exactly when both dates are from 1970 on or in the same year. */
  method AddDifference(d: Date, e: Date) returns (r: Date)
    requires Valid(d) && Valid(e)
    ensures Valid(r)
    ensures r == e <==> d.year == e.year || (d.year >= 1970 && e.year >= 1970)
  {
    var n := Difference(e, d);
    r := AddDays(d, n);
    DayNumberOrders(r, e);
    SameEpochYear(d.year, e.year);
  }

  /** The day before the epoch counts as day 364 of its own year. */
  lemma BeforeTheEpoch()
    ensures var eve, epoch := Date(1969, 12, 31), Date(1970, 1, 1);
            && NextDay(eve) == epoch
            && DaysSinceEpoch(eve) == 364
            && DaysSinceEpoch(epoch) == 0
            && DayOfWeek(eve) == DayOfWeek(epoch) == 4
  {
    YearHasTwelveMonths(1969);
    assert MonthsBefore(1969, 13) == MonthsBefore(1969, 12) + 31;
  }
}
