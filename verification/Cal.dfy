/**
  cal: the closed form for 1 January with the switch from the Julian to the Gregorian calendar
  in September 1752, the month record that setmonth fills, and the grid of a month.
  Years are 1 and later, as domonth and doyear check.
*/
module Cal {

  /** The sum in Jan1 before it is reduced: Julian years, then the Gregorian corrections. */
  function Jan1Sum(year: int): (sum: int)
    requires year >= 1
  {
    var julian := year + 4 + (year + 3) / 4;
    var corrected := if year > 1800 then julian - (year - 1701) / 100 + (year - 1601) / 400 else julian;
    if year > 1752 then corrected + 3 else corrected
  }

  /** Jan1: the weekday of 1 January, Sunday being 0. */
  function Jan1(year: int): (day: int)
    requires year >= 1
    ensures 0 <= day < 7
  {
    Jan1Sum(year) % 7
  }

  /** The switch expression of setmonth: how far 1 January moves in the week. */
  function YearShift(year: int): (k: int)
    requires year >= 1
  {
    (Jan1(year + 1) + 7 - Jan1(year)) % 7
  }

  function February(year: int): (days: int)
    requires year >= 1
  {
    if YearShift(year) == 1 then 28 else 29
  }

  function September(year: int): (days: int)
    requires year >= 1
  {
    if YearShift(year) == 1 || YearShift(year) == 2 then 30 else 19
  }

  const DAY_MONTH: seq<int> := [0, 31, 28, 31, 30, 31, 30, 31, 31, 30, 31, 30, 31]

  /** What setmonth makes of a month's length. */
  function MonthLength(year: int, month: int): (days: int)
    requires year >= 1 && 1 <= month <= 12
  {
    if month == 2 then February(year) else if month == 9 then September(year) else DAY_MONTH[month]
  }

  /** Weekdays gone by before the month, counted from Jan1 as the loop of setmonth does. */
  function Advance(year: int, month: int): (days: int)
    requires year >= 1 && 1 <= month <= 13
    decreases month
  {
    if month == 1 then Jan1(year) else Advance(year, month - 1) + MonthLength(year, month - 1)
  }

  /** The weekday of the first of the month. */
  function FirstWeekday(year: int, month: int): (day: int)
    requires year >= 1 && 1 <= month <= 12
  {
    Advance(year, month) % 7
  }

  // ---------------------------------------------------------------------------------
  // The reference: the calendar itself
  // ---------------------------------------------------------------------------------

  /** The Julian rule up to 1752, the Gregorian rule after it. */
  predicate LeapYear(year: int) {
    if year <= 1752 then year % 4 == 0 else (year % 4 == 0 && year % 100 != 0) || year % 400 == 0
  }

  /** September 1752 lost eleven days. */
  function CalendarDays(year: int, month: int): (days: int)
    requires 1 <= month <= 12
    ensures 19 <= days <= 31
  {
    if month == 2 then (if LeapYear(year) then 29 else 28)
    else if month == 9 && year == 1752 then 19
    else DAY_MONTH[month]
  }

  /** Days from 1 January of year 1 to the first of the month, counted month by month. */
  function Elapsed(year: int, month: int): (days: int)
    requires year >= 1 && 1 <= month <= 13
    decreases year, month
  {
    if month > 1 then Elapsed(year, month - 1) + CalendarDays(year, month - 1)
    else if year > 1 then Elapsed(year - 1, 13)
    else 0
  }

  // ---------------------------------------------------------------------------------
  // The closed form keeps step with the calendar
  // ---------------------------------------------------------------------------------

  /** Days in a year beyond whole weeks. */
  function YearRest(year: int): (k: int) {
    if year == 1752 then 5 else if LeapYear(year) then 2 else 1
  }

  /** 1 when n divides the year, else 0. */
  function Divides(year: int, n: nat): (k: int)
    requires n > 0
  {
    if year % n == 0 then 1 else 0
  }

  lemma QuarterStep(year: int)
    ensures (year + 4) / 4 == (year + 3) / 4 + Divides(year, 4)
  {}

  lemma CenturyStep(year: int)
    ensures (year - 1700) / 100 == (year - 1701) / 100 + Divides(year, 100)
  {}

  lemma FourCenturyStep(year: int)
    ensures (year - 1600) / 400 == (year - 1601) / 400 + Divides(year, 400)
  {}

  lemma JulianStep(year: int)
    requires 1 <= year <= 1752
    ensures Jan1Sum(year + 1) == Jan1Sum(year) + YearRest(year)
  {
    QuarterStep(year);
  }

  lemma GregorianSum(year: int)
    requires year > 1752
    ensures Jan1Sum(year + 1) == Jan1Sum(year) + 1 + Divides(year, 4) - Divides(year, 100) + Divides(year, 400)
  {
    QuarterStep(year);
    if year >= 1800 {
      CenturyStep(year);
      FourCenturyStep(year);
    }
  }

  lemma GregorianRest(year: int)
    requires year > 1752
    ensures YearRest(year) == 1 + Divides(year, 4) - Divides(year, 100) + Divides(year, 400)
  {
    if year % 100 == 0 { assert year % 4 == 0; }
    if year % 400 == 0 { assert year % 100 == 0; }
  }

  lemma ShiftMod(a: int, k: int)
    requires 0 <= k < 7
    ensures ((a + k) % 7 + 7 - a % 7) % 7 == k
  {}

  /** How far 1 January moves: a weekday a year, two over a leap year, five over 1752. */
  lemma YearShiftMeans(year: int)
    requires year >= 1
    ensures YearShift(year) == YearRest(year)
  {
    if year <= 1752 {
      JulianStep(year);
    } else {
      GregorianSum(year);
      GregorianRest(year);
    }
    ShiftMod(Jan1Sum(year), YearRest(year));
  }

  /** setmonth's month lengths are the calendar's; its default branch is taken in 1752 alone. */
  lemma MonthLengthIsCalendar(year: int, month: int)
    requires year >= 1 && 1 <= month <= 12
    ensures MonthLength(year, month) == CalendarDays(year, month)
    ensures (YearShift(year) != 1 && YearShift(year) != 2) <==> year == 1752
  {
    YearShiftMeans(year);
  }

  /** a and b fall on the same weekday. */
  predicate SameWeekday(a: int, b: int) {
    (a - b) % 7 == 0
  }

  lemma SameWeekdayMeans(a: int, b: int)
    ensures SameWeekday(a, b) <==> a % 7 == b % 7
  {}

  lemma SameWeekdayTrans(a: int, b: int, c: int)
    requires SameWeekday(a, b) && SameWeekday(b, c)
    ensures SameWeekday(a, c)
  {}

  lemma SameWeekdayShift(a: int, b: int, days: int)
    requires (b + 7 - a) % 7 == days % 7
    ensures SameWeekday(a + days, b)
  {}

  lemma CarryOn(a: int, b: int, feb: int, sept: int)
    requires var shift := (b + 7 - a) % 7;
             || (shift == 1 && feb == 28 && sept == 30)
             || (shift == 2 && feb == 29 && sept == 30)
             || (shift == 5 && feb == 29 && sept == 19)
    ensures SameWeekday(a + 307 + feb + sept, b)
  {
    SameWeekdayShift(a, b, 307 + feb + sept);
  }

  /** After twelve months the running weekday is that of the next 1 January. */
  lemma YearCarriesOn(year: int)
    requires year >= 1
    ensures SameWeekday(Advance(year, 13), Jan1(year + 1))
  {
    YearShiftMeans(year);
    TwelveMonths(year);
    CarryOn(Jan1(year), Jan1(year + 1), February(year), September(year));
  }

  lemma TwelveMonths(year: int)
    requires year >= 1
    ensures Advance(year, 13) == Jan1(year) + 307 + February(year) + September(year)
  {
    assert Advance(year, 2) == Jan1(year) + 31;
    assert Advance(year, 3) == Advance(year, 2) + February(year);
    assert Advance(year, 4) == Advance(year, 3) + 31;
    assert Advance(year, 5) == Advance(year, 4) + 30;
    assert Advance(year, 6) == Advance(year, 5) + 31;
    assert Advance(year, 7) == Advance(year, 6) + 30;
    assert Advance(year, 8) == Advance(year, 7) + 31;
    assert Advance(year, 9) == Advance(year, 8) + 31;
    assert Advance(year, 10) == Advance(year, 9) + September(year);
    assert Advance(year, 11) == Advance(year, 10) + 31;
    assert Advance(year, 12) == Advance(year, 11) + 30;
    assert Advance(year, 13) == Advance(year, 12) + 31;
  }

  /** No gap at a month boundary, nor at a year boundary. */
  lemma WeekdaysRunOn(year: int, month: int)
    requires year >= 1 && 1 <= month <= 12
    ensures (FirstWeekday(year, month) + CalendarDays(year, month)) % 7 ==
            if month < 12 then FirstWeekday(year, month + 1) else FirstWeekday(year + 1, 1)
  {
    MonthLengthIsCalendar(year, month);
    AddMod(Advance(year, month), MonthLength(year, month));
    if month == 12 {
      YearCarriesOn(year);
      SameWeekdayMeans(Advance(year, 13), Jan1(year + 1));
    }
  }

  lemma AddMod(a: int, b: int)
    ensures (a % 7 + b) % 7 == (a + b) % 7
  {}

  predicate KeepsStep(year: int, month: int)
    requires year >= 1 && 1 <= month <= 13
  {
    SameWeekday(Advance(year, month), 6 + Elapsed(year, month))
  }

  lemma MonthKeepsStep(year: int, month: int)
    requires year >= 1 && 1 <= month <= 12
    requires KeepsStep(year, month)
    ensures KeepsStep(year, month + 1)
  {
    MonthLengthIsCalendar(year, month);
    SameWeekdayAdd(Advance(year, month), 6 + Elapsed(year, month), CalendarDays(year, month));
  }

  lemma YearKeepsStep(year: int)
    requires year >= 1
    requires KeepsStep(year, 13)
    ensures KeepsStep(year + 1, 1)
  {
    YearCarriesOn(year);
    SameWeekdaySwap(Advance(year, 13), Jan1(year + 1));
    SameWeekdayTrans(Jan1(year + 1), Advance(year, 13), 6 + Elapsed(year, 13));
  }

  lemma {:induction false} AdvanceCountsDays(year: int, month: int)
    requires year >= 1 && 1 <= month <= 13
    ensures KeepsStep(year, month)
    decreases year, month
  {
    if month > 1 {
      AdvanceCountsDays(year, month - 1);
      MonthKeepsStep(year, month - 1);
    } else if year > 1 {
      AdvanceCountsDays(year - 1, 13);
      YearKeepsStep(year - 1);
    }
  }

  lemma SameWeekdayAdd(a: int, b: int, days: int)
    requires SameWeekday(a, b)
    ensures SameWeekday(a + days, b + days)
  {}

  lemma SameWeekdaySwap(a: int, b: int)
    requires SameWeekday(a, b)
    ensures SameWeekday(b, a)
  {}

  /**
    The closed form is right for every month from year 1 on: 1 January of year 1 was a
    Saturday, and every day since has been the next weekday.
  */
  lemma FirstWeekdayCountsDays(year: int, month: int)
    requires year >= 1 && 1 <= month <= 12
    ensures FirstWeekday(year, month) == (6 + Elapsed(year, month)) % 7
  {
    AdvanceCountsDays(year, month);
    SameWeekdayMeans(Advance(year, month), 6 + Elapsed(year, month));
  }

  lemma Column(days: int, k: int, week: int, wday: int)
    requires 0 <= wday < 7 && week * 7 + wday == days % 7 + k
    ensures wday == (days + k) % 7
  {
    AddMod(days, k);
  }

  // ---------------------------------------------------------------------------------
  // The month record and the grid
  // ---------------------------------------------------------------------------------

  /** Label of the k-th day of a month, counting from 0. */
  function Label(year: int, month: int, k: int): (shown: int) {
    if year == 1752 && month == 9 && k >= 2 then k + 12 else k + 1
  }

  /** The static record `info` that setmonth writes and getdate reads. */

  /** Every month's dates start with 1 and end as they always do, however many days are left out. */
  lemma DatesOfMonth(year: int, month: int)
    requires year >= 1 && 1 <= month <= 12
    ensures Label(year, month, 0) == 1
    ensures month != 2 ==> Label(year, month, CalendarDays(year, month) - 1) == DAY_MONTH[month]
    ensures month == 2 ==> Label(year, month, CalendarDays(year, month) - 1) == if LeapYear(year) then 29 else 28
  {}

  class MonthInfo {
    var thisMonth: int
    var feb: int
    var sept: int
    var daysInMonth: int
    var dowFirst: int

    constructor () {}

    /** The record describes the month. */
    ghost predicate Describes(year: int, month: int)
      requires year >= 1
      reads this
    {
      && 1 <= month <= 12
      && thisMonth == month
      && feb == February(year)
      && sept == September(year)
      && daysInMonth == CalendarDays(year, month)
      && dowFirst == FirstWeekday(year, month)
    }

    /** setmonth. */
    method SetMonth(year: int, month: int)
      requires year >= 1
      modifies this
      ensures 1 <= month <= 12 ==> Describes(year, month)
      ensures !(1 <= month <= 12) ==>
        daysInMonth == 0 && unchanged(this`thisMonth, this`feb, this`sept, this`dowFirst)
    {
      if month < 1 || month > 12 {
        daysInMonth := 0;
        return;
      }
      thisMonth := month;
      dowFirst := Jan1(year);
      feb := 29;
      sept := 30;
      var shift := (Jan1(year + 1) + 7 - dowFirst) % 7;
      if shift == 1 {
        feb := 28;
      } else if shift != 2 {
        sept := 19;
      }
      daysInMonth := if month == 2 then feb else if month == 9 then sept else DAY_MONTH[month];
      MonthLengthIsCalendar(year, month);
      for i := 1 to month
        invariant thisMonth == month && feb == February(year) && sept == September(year)
        invariant daysInMonth == CalendarDays(year, month)
        invariant dowFirst == Advance(year, i)
      {
        if i == 2 {
          dowFirst := dowFirst + feb;
        } else if i == 9 {
          dowFirst := dowFirst + sept;
        } else {
          dowFirst := dowFirst + DAY_MONTH[i];
        }
      }
      dowFirst := dowFirst % 7;
    }

    /** getdate: the date in a cell of the grid, or 0. */
    function GetDate(week: int, wday: int): (shown: int)
      reads this
    {
      var today := week * 7 + wday - dowFirst + 1;
      if today <= 0 || today > daysInMonth then 0
      else if sept == 19 && thisMonth == 9 && today >= 3 then today + 11
      else today
    }

    /** A cell holds the day as many places after the first weekday as the cell is, if there is one. */
    lemma CellShows(year: int, month: int, week: int, wday: int)
      requires year >= 1 && Describes(year, month)
      requires 0 <= week && 0 <= wday < 7
      ensures var k := week * 7 + wday - FirstWeekday(year, month);
              GetDate(week, wday) == if 0 <= k < CalendarDays(year, month) then Label(year, month, k) else 0
    {
      MonthLengthIsCalendar(year, month);
    }

    /**
      Day k of the month stands in exactly one cell of the six-week grid, and the column of
      that cell is the weekday one gets by counting days from 1 January of year 1.
    */
    lemma GridIsRight(year: int, month: int, k: int, week: int, wday: int)
      requires year >= 1 && Describes(year, month)
      requires 0 <= k < CalendarDays(year, month)
      requires 0 <= week && 0 <= wday < 7
      ensures GetDate(week, wday) == Label(year, month, k) <==> week * 7 + wday == FirstWeekday(year, month) + k
      ensures GetDate(week, wday) == Label(year, month, k) ==>
        week < 6 && wday == (6 + Elapsed(year, month) + k) % 7
    {
      CellShows(year, month, week, wday);
      if week * 7 + wday == FirstWeekday(year, month) + k {
        FirstWeekdayCountsDays(year, month);
        Column(6 + Elapsed(year, month), k, week, wday);
      }
    }

    /** calendar: fill one month's part of the layout, three characters a cell. */
    method Calendar(year: int, month: int, layout: array2<string>)
      requires year >= 1 && 1 <= month <= 12
      requires layout.Length0 == 6 && layout.Length1 == 7
      modifies this, layout
      ensures Describes(year, month)
      ensures forall week, wday :: 0 <= week < 6 && 0 <= wday < 7 ==>
        layout[week, wday] == CellText(GetDate(week, wday))
    {
      SetMonth(year, month);
      for week := 0 to 6
        invariant Describes(year, month)
        invariant forall w, d :: 0 <= w < week && 0 <= d < 7 ==> layout[w, d] == CellText(GetDate(w, d))
      {
        for wday := 0 to 7
          invariant Describes(year, month)
          invariant forall w, d :: 0 <= w < week && 0 <= d < 7 ==> layout[w, d] == CellText(GetDate(w, d))
          invariant forall d :: 0 <= d < wday ==> layout[week, d] == CellText(GetDate(week, d))
        {
          CellShows(year, month, week, wday);
          WriteCell(layout, week, wday, GetDate(week, wday));
        }
      }
    }
  }

  /** The three characters of one cell. */
  method WriteCell(layout: array2<string>, week: int, wday: int, today: int)
    requires 0 <= week < layout.Length0 && 0 <= wday < layout.Length1 && today < 100
    modifies layout
    ensures layout[week, wday] == CellText(today)
    ensures forall w, d :: 0 <= w < layout.Length0 && 0 <= d < layout.Length1 && (w, d) != (week, wday) ==>
      layout[w, d] == old(layout[w, d])
  {
    if today <= 0 {
      layout[week, wday] := "   ";
    } else if today < 10 {
      layout[week, wday] := [' ', ' ', Digit(today)];
    } else {
      layout[week, wday] := [' ', Digit(today / 10), Digit(today % 10)];
    }
  }

  function Digit(n: int): (c: char)
    requires 0 <= n <= 9
  {
    '0' + n as char
  }

  /** A date right-aligned in three characters. */
  function CellText(shown: int): (text: string)
    ensures |text| == 3
  {
    if shown <= 0 || shown >= 100 then "   "
    else if shown < 10 then [' ', ' ', Digit(shown)]
    else [' ', Digit(shown / 10), Digit(shown % 10)]
  }
}

/** The two calendars agree. */
module CalendarAgreement {
  import Cal
  import D = ConstexprDate
  import DateText

  /** From 1753 on cal's months are constexpr_date's. */
  lemma SameMonths(year: int, month: nat)
    requires year >= 1753 && 1 <= month <= 12
    ensures Cal.CalendarDays(year, month) == D.DaysInMonth(year, month)
  {}

  /** Going on by a month moves constexpr_date's weekday by the month's length. */
  lemma NextWeekday(d: D.Date)
    requires D.Valid(d) && d.year >= 1970 && d.day == 1
    ensures D.Valid(D.NextMonth(d))
    ensures D.DayOfWeek(D.NextMonth(d)) == (D.DayOfWeek(d) + D.DaysInMonth(d.year, d.month)) % 7
  {
    D.FirstOfNextMonth(d);
    D.EpochAgreesFrom1970(d);
    D.EpochAgreesFrom1970(D.NextMonth(d));
    Cal.AddMod(D.DayNumber(d) + 4, D.DaysInMonth(d.year, d.month));
  }

  /** One month on, both calendars move by the same number of weekdays. */
  lemma StaySame(year: int, month: nat)
    requires year >= 1970 && 1 <= month <= 12
    requires Cal.FirstWeekday(year, month) == D.DayOfWeek(D.Date(year, month, 1))
    ensures month < 12 ==> Cal.FirstWeekday(year, month + 1) == D.DayOfWeek(D.Date(year, month + 1, 1))
    ensures month == 12 ==> Cal.FirstWeekday(year + 1, 1) == D.DayOfWeek(D.Date(year + 1, 1, 1))
  {
    SameMonths(year, month);
    Cal.WeekdaysRunOn(year, month);
    NextWeekday(D.Date(year, month, 1));
  }

  /** For every month from 1970 on, cal's closed form and constexpr_date's loops give one weekday. */
  lemma {:induction false} CalendarsAgree(year: int, month: nat)
    requires year >= 1970 && 1 <= month <= 12
    ensures Cal.FirstWeekday(year, month) == D.DayOfWeek(D.Date(year, month, 1))
    decreases year, month
  {
    if month > 1 {
      CalendarsAgree(year, month - 1);
      StaySame(year, month - 1);
    } else if year > 1970 {
      CalendarsAgree(year - 1, 12);
      StaySame(year - 1, 12);
    } else {
      assert Cal.Jan1(1970) == 4;
    }
  }

  /** Inside a month both calendars move by one weekday a day. */
  lemma {:induction false} DaysAgree(year: int, month: nat, day: nat)
    requires year >= 1970 && D.Valid(D.Date(year, month, day))
    ensures (Cal.FirstWeekday(year, month) + (day - 1)) % 7 == D.DayOfWeek(D.Date(year, month, day))
    decreases day
  {
    if day == 1 {
      CalendarsAgree(year, month);
    } else {
      var before := D.Date(year, month, day - 1);
      DaysAgree(year, month, day - 1);
      D.NextDayOfWeekIff(before);
      assert D.NextDay(before) == D.Date(year, month, day);
      Cal.AddMod(Cal.FirstWeekday(year, month) + (day - 2), 1);
    }
  }

  /** A row of seven cells: adding whole weeks does not move the column. */
  lemma SameColumn(week: int, wday: int, first: int, k: int)
    requires 0 <= wday < 7 && week * 7 + wday == first + k
    ensures wday == (first + k) % 7
  {}

  /** From 1970 on, every date cal shows stands in the column of constexpr_date's weekday for it. */
  lemma GridShowsWeekdays(info: Cal.MonthInfo, year: int, month: nat, week: int, wday: int)
    requires year >= 1970 && info.Describes(year, month)
    requires 0 <= week && 0 <= wday < 7 && info.GetDate(week, wday) != 0
    ensures var d := D.Date(year, month, info.GetDate(week, wday));
            D.Valid(d) && D.DayOfWeek(d) == wday
  {
    var day := info.GetDate(week, wday);
    info.CellShows(year, month, week, wday);
    SameMonths(year, month);
    DaysAgree(year, month, day);
    SameColumn(week, wday, Cal.FirstWeekday(year, month), day - 1);
  }

  /** The number in a cell of the layout is the date it stands for, and an empty cell is blank. */
  lemma CellReadsBack(shown: int)
    requires 0 <= shown < 100
    ensures DateText.Number(Cal.CellText(shown)) == shown
    ensures Cal.CellText(shown)[0] == ' '
    ensures Cal.CellText(shown) == "   " <==> shown == 0
  {
    var a, b, c := Cal.CellText(shown)[0], Cal.CellText(shown)[1], Cal.CellText(shown)[2];
    DateText.NumberLast("", a);
    DateText.NumberLast([a], b);
    DateText.NumberLast([a, b], c);
    assert "" + [a] == [a] && [a] + [b] == [a, b] && [a, b] + [c] == Cal.CellText(shown);
  }
}
