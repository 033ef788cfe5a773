/**
 The week rules of `_strftime`: `%V` (week number) and `%G` (week-based year), with the calendar helpers
 they use. Years are full years; days are numbered from Monday, 1 January of year 1, in the proleptic
 Gregorian calendar.
 */
module IsoWeek {

  // ---------------------------------------------------------------------------------------------
  // Calendar
  // ---------------------------------------------------------------------------------------------

  /** JavaScript's `%`, which takes the sign of the dividend. */
  function JsMod(a: int, b: int): int
    requires b > 0
  {
    if a >= 0 then a % b else -((-a) % b)
  }

  predicate IsLeapYear(year: int) {
    JsMod(year, 4) == 0 && (JsMod(year, 100) != 0 || JsMod(year, 400) == 0)
  }

  const MONTH_DAYS_LEAP := [31, 29, 31, 30, 31, 30, 31, 31, 30, 31, 30, 31]
  const MONTH_DAYS_REGULAR := [31, 28, 31, 30, 31, 30, 31, 31, 30, 31, 30, 31]

  function DaysInMonth(year: int, month: nat): (days: nat)
    requires month < 12
    ensures 28 <= days <= 31
  {
    if IsLeapYear(year) then MONTH_DAYS_LEAP[month] else MONTH_DAYS_REGULAR[month]
  }

  /**
   The lengths of the months by rule, counted from 0: 31 days in the even ones up to July and in the odd ones from
   August on, 30 in the others, but 28 in February and 29 in a leap year.
   */
  lemma MonthLengths(year: nat, month: nat)
    requires month < 12
    ensures DaysInMonth(year, month) ==
      if month == 1 then (if year % 4 == 0 && (year % 100 != 0 || year % 400 == 0) then 29 else 28)
      else if (if month < 7 then month % 2 == 0 else month % 2 == 1) then 31
      else 30
  {
    LeapRule(year);
  }

  function DaysBeforeMonth(year: int, month: nat): nat
    requires month <= 12
  {
    if month == 0 then 0 else DaysBeforeMonth(year, month - 1) + DaysInMonth(year, month - 1)
  }

  function YearLength(year: int): nat { if IsLeapYear(year) then 366 else 365 }

  /** Days from the origin to 1 January. */
  function DaysBeforeYear(year: nat): nat {
    if year <= 1 then 0 else DaysBeforeYear(year - 1) + YearLength(year - 1)
  }

  /** 0 is Sunday. */
  function Weekday(day: nat): nat { (day + 1) % 7 }

  datatype Date = Date(year: nat, month: nat, day: nat)

  predicate ValidDate(d: Date) { d.year > 0 && d.month < 12 && 1 <= d.day <= DaysInMonth(d.year, d.month) }

  function DayNumber(d: Date): nat
    requires ValidDate(d)
  {
    DaysBeforeYear(d.year) + DaysBeforeMonth(d.year, d.month) + d.day - 1
  }

  lemma {:induction false} LaterYear(a: nat, b: nat)
    requires 0 < a < b
    ensures DaysBeforeYear(a) + YearLength(a) <= DaysBeforeYear(b)
  {
    if a < b - 1 { LaterYear(a, b - 1); }
  }

  lemma {:induction false} LaterMonth(year: int, a: nat, b: nat)
    requires a < b <= 12
    ensures DaysBeforeMonth(year, a) + DaysInMonth(year, a) <= DaysBeforeMonth(year, b)
  {
    if a < b - 1 { LaterMonth(year, a, b - 1); }
  }

  lemma MonthsFillYear(year: int)
    ensures DaysBeforeMonth(year, 12) == YearLength(year)
  {
    assert DaysBeforeMonth(year, 1) == 31;
    assert DaysBeforeMonth(year, 2) == 31 + DaysInMonth(year, 1);
    assert DaysBeforeMonth(year, 4) == DaysBeforeMonth(year, 2) + 31 + 30;
    assert DaysBeforeMonth(year, 6) == DaysBeforeMonth(year, 4) + 31 + 30;
    assert DaysBeforeMonth(year, 8) == DaysBeforeMonth(year, 6) + 31 + 31;
    assert DaysBeforeMonth(year, 10) == DaysBeforeMonth(year, 8) + 30 + 31;
    assert DaysBeforeMonth(year, 12) == DaysBeforeMonth(year, 10) + 30 + 31;
  }

  lemma WithinYear(d: Date)
    requires ValidDate(d)
    ensures DaysBeforeYear(d.year) <= DayNumber(d) < DaysBeforeYear(d.year) + YearLength(d.year)
  {
    LaterMonth(d.year, d.month, 12);
    MonthsFillYear(d.year);
  }

  function Sgn(value: int): int { if value < 0 then -1 else if value > 0 then 1 else 0 }

  function CompareByDay(a: Date, b: Date): int {
    if Sgn(a.year - b.year) != 0 then Sgn(a.year - b.year)
    else if Sgn(a.month - b.month) != 0 then Sgn(a.month - b.month)
    else Sgn(a.day - b.day)
  }

  /** Comparing field by field compares days. */
  lemma CompareIsByDayNumber(a: Date, b: Date)
    requires ValidDate(a) && ValidDate(b)
    ensures CompareByDay(a, b) == Sgn(DayNumber(a) - DayNumber(b))
  {
    WithinYear(a);
    WithinYear(b);
    if a.year < b.year { LaterYear(a.year, b.year); }
    if b.year < a.year { LaterYear(b.year, a.year); }
    if a.year == b.year && a.month < b.month { LaterMonth(a.year, a.month, b.month); }
    if a.year == b.year && b.month < a.month { LaterMonth(a.year, b.month, a.month); }
  }

  /** `addDays` lands exactly `days` days later, whatever months and years lie between. */
  method AddDays(date: Date, days: int) returns (newDate: Date)
    requires ValidDate(date)
    ensures ValidDate(newDate)
    ensures days <= 0 ==> newDate == date
    ensures days >= 0 ==> DayNumber(newDate) == DayNumber(date) + days
  {
    newDate := date;
    var left := days;
    while left > 0
      invariant ValidDate(newDate)
      invariant days <= 0 ==> newDate == date && left == days
      invariant days > 0 ==> left >= 0 && DayNumber(newDate) + left == DayNumber(date) + days
    {
      var currentMonth := newDate.month;
      var daysInCurrentMonth := DaysInMonth(newDate.year, currentMonth);
      if left > daysInCurrentMonth - newDate.day {
        MonthsFillYear(newDate.year);
        left := left - (daysInCurrentMonth - newDate.day + 1);
        newDate := newDate.(day := 1);
        if currentMonth < 11 {
          newDate := newDate.(month := currentMonth + 1);
        } else {
          newDate := newDate.(month := 0);
          newDate := newDate.(year := newDate.year + 1);
        }
      } else {
        newDate := newDate.(day := newDate.day + left);
        return;
      }
    }
  }

  // ---------------------------------------------------------------------------------------------
  // ISO 8601 weeks, as section 7.27.3.5 of C11 describes them
  // ---------------------------------------------------------------------------------------------

  /** The Monday of the week of a day. */
  function MondayOf(day: nat): (monday: nat)
    ensures monday <= day < monday + 7
  {
    day - (Weekday(day) + 6) % 7
  }

  /** The Monday of the week that contains 4 January, given 1 January. */
  function WeekOneFrom(jan1: nat): nat { MondayOf(jan1 + 3) }

  function FirstMonday(year: nat): nat { WeekOneFrom(DaysBeforeYear(year)) }

  ghost predicate IsWeekYear(day: nat, year: nat) {
    year > 0 && FirstMonday(year) <= day < FirstMonday(year + 1)
  }

  ghost predicate IsWeek(day: nat, year: nat, week: int) {
    IsWeekYear(day, year) && week == (day - FirstMonday(year)) / 7 + 1
  }

  lemma Mod7(a: nat, k: int, r: nat)
    requires a == 7 * k + r && r < 7
    ensures a % 7 == r && a / 7 == k
  {
  }

  lemma MondayIsSevenfold(day: nat)
    ensures MondayOf(day) == 7 * (day / 7)
  {
    var q, r := day / 7, day % 7;
    if r == 6 {
      Mod7(day + 1, q + 1, 0);
    } else {
      Mod7(day + 1, q, r + 1);
      Mod7(r + 7, 1, r);
    }
  }

  lemma WeekOneIs(jan1: nat)
    ensures WeekOneFrom(jan1) == 7 * (if jan1 % 7 <= 3 then jan1 / 7 else jan1 / 7 + 1)
  {
    MondayIsSevenfold(jan1 + 3);
  }

  /** A year that starts on a Thursday, or on a Wednesday and is a leap year, has 53 weeks; others have 52. */
  lemma WeeksOfYear(jan1: nat, length: nat)
    requires length == 365 || length == 366
    ensures WeekOneFrom(jan1 + length) ==
      WeekOneFrom(jan1) + if jan1 % 7 == 3 || (jan1 % 7 == 2 && length == 366) then 371 else 364
  {
    hide WeekOneFrom;
    WeekOneIs(jan1);
    WeekOneIs(jan1 + length);
    var q, f, more := jan1 / 7, jan1 % 7, length - 364;
    if f + more < 7 { Mod7(jan1 + length, q + 52, f + more); } else { Mod7(jan1 + length, q + 53, f + more - 7); }
  }

  lemma {:induction false} LaterFirstMonday(a: nat, b: nat)
    requires 0 < a < b
    ensures FirstMonday(a) + 364 <= FirstMonday(b)
  {
    WeeksOfYear(DaysBeforeYear(b - 1), YearLength(b - 1));
    if a < b - 1 { LaterFirstMonday(a, b - 1); }
  }

  /** A day has one week-based year and one week number. */
  lemma WeekIsUnique(day: nat, y1: nat, w1: int, y2: nat, w2: int)
    requires IsWeek(day, y1, w1) && IsWeek(day, y2, w2)
    ensures y1 == y2 && w1 == w2
  {
    if y1 < y2 { LaterFirstMonday(y1, y2); if y1 + 1 < y2 { LaterFirstMonday(y1 + 1, y2); } }
    if y2 < y1 { LaterFirstMonday(y2, y1); if y2 + 1 < y1 { LaterFirstMonday(y2 + 1, y1); } }
  }

  /** The other reading of the standard: the week-based year is the year its Thursday lies in. */
  lemma WeekYearIsThursdays(day: nat, year: nat)
    requires year > 0
    ensures IsWeekYear(day, year) <==>
      DaysBeforeYear(year) <= MondayOf(day) + 3 < DaysBeforeYear(year) + YearLength(year)
  {
    var jan1, next := DaysBeforeYear(year), DaysBeforeYear(year + 1);
    MondayIsSevenfold(day);
    ThursdayTest(day, jan1);
    ThursdayTest(day, next);
  }

  lemma ThursdayTest(day: nat, jan1: nat)
    ensures WeekOneFrom(jan1) <= day <==> jan1 <= MondayOf(day) + 3
  {
    MondayIsSevenfold(day);
    WeekOneIs(jan1);
  }

  // ---------------------------------------------------------------------------------------------
  // %G
  // ---------------------------------------------------------------------------------------------

  /** The fields of `tm` that the week rules read; `year` counts from 1900. */
  datatype Tm = Tm(year: nat, yday: nat, wday: nat)

  function TmDay(t: Tm): nat { DaysBeforeYear(t.year + 1900) + t.yday }

  /** A Gregorian date from 1900 on whose weekday is the right one. */
  predicate ValidTm(t: Tm) {
    t.yday < YearLength(t.year + 1900) && t.wday == Weekday(TmDay(t))
  }

  function GetDay(d: Date): nat
    requires ValidDate(d)
  {
    Weekday(DayNumber(d))
  }

  function GetFirstWeekStartDate(janFourth: Date): Date
    requires ValidDate(janFourth) && janFourth.year > 1
  {
    WeekStartGiven(janFourth, GetDay(janFourth))
  }

  function WeekStartGiven(janFourth: Date, weekday: nat): Date
    requires janFourth.year > 1
  {
    match weekday
    case 0 => Date(janFourth.year - 1, 11, 29)
    case 1 => janFourth
    case 2 => Date(janFourth.year, 0, 3)
    case 3 => Date(janFourth.year, 0, 2)
    case 4 => Date(janFourth.year, 0, 1)
    case 5 => Date(janFourth.year - 1, 11, 31)
    case _ => Date(janFourth.year - 1, 11, 30)
  }

  lemma DecemberBefore(year: nat, day: nat)
    requires year > 1 && 1 <= day <= 31
    ensures ValidDate(Date(year - 1, 11, day)) && DayNumber(Date(year - 1, 11, day)) + 32 == DaysBeforeYear(year) + day
  {
    MonthsFillYear(year - 1);
    assert DaysBeforeMonth(year - 1, 12) == DaysBeforeMonth(year - 1, 11) + 31;
  }

  lemma January(year: nat, day: nat)
    requires year > 0 && 1 <= day <= 31
    ensures ValidDate(Date(year, 0, day)) && DayNumber(Date(year, 0, day)) + 1 == DaysBeforeYear(year) + day
  {
  }

  lemma MondayByWeekday(day: nat)
    ensures MondayOf(day) == if Weekday(day) == 0 then day - 6 else day - Weekday(day) + 1
  {
  }

  lemma FirstWeekStartsOnFirstMonday(year: nat)
    requires year > 1
    ensures ValidDate(Date(year, 0, 4))
    ensures var start := GetFirstWeekStartDate(Date(year, 0, 4));
      ValidDate(start) && DayNumber(start) == FirstMonday(year)
  {
    January(year, 4);
    MondayByWeekday(DaysBeforeYear(year) + 3);
    WeekStartGivenIs(year, Weekday(DaysBeforeYear(year) + 3));
  }

  lemma WeekStartGivenIs(year: nat, weekday: nat)
    requires year > 1 && weekday < 7
    ensures var start := WeekStartGiven(Date(year, 0, 4), weekday);
      ValidDate(start) && DayNumber(start) == DaysBeforeYear(year) + 3 - (if weekday == 0 then 6 else weekday - 1)
  {
    var start := WeekStartGiven(Date(year, 0, 4), weekday);
    if start.year == year { January(year, start.day); } else { DecemberBefore(year, start.day); }
  }

  lemma YearOfDay(d: Date, year: nat)
    requires ValidDate(d) && year > 0
    requires DaysBeforeYear(year) <= DayNumber(d) < DaysBeforeYear(year) + YearLength(year)
    ensures d.year == year
  {
    WithinYear(d);
    if d.year < year { LaterYear(d.year, year); }
    if year < d.year { LaterYear(year, d.year); }
  }

  lemma YearsAround(year: nat)
    requires year > 1
    ensures FirstMonday(year - 1) < DaysBeforeYear(year)
    ensures DaysBeforeYear(year + 1) <= FirstMonday(year + 2)
  {
    WeekOneIs(DaysBeforeYear(year - 1));
    WeekOneIs(DaysBeforeYear(year + 2));
  }

  // ---------------------------------------------------------------------------------------------
  // %V
  // ---------------------------------------------------------------------------------------------

  /** Mondays so far this year, one more when the week before the first of them belongs to this year. */
  function RawWeek(t: Tm): int
    requires t.wday < 7 && t.yday < 366
  {
    var mondays := (t.yday + 7 - (t.wday + 6) % 7) / 7;
    if JsMod(t.wday + 371 - t.yday - 2, 7) <= 2 then mondays + 1 else mondays
  }

  /** When the date lies in the last week of the year before, which ended on weekday `dec31`. */
  function WeekOfYearBefore(dec31: int, leapBefore: bool): int {
    if dec31 == 4 || (dec31 == 5 && leapBefore) then 53 else 52
  }

  /** When the date would lie in week 53 of its own year, which began on weekday `jan1`. */
  function WeekAfter52(jan1: int, leap: bool): int {
    if jan1 != 4 && (jan1 != 3 || !leap) then 1 else 53
  }

  /** `%V`. The leap-year tests are made on years counted from 1900. */
  function WeekNumber(t: Tm): int
    requires t.wday < 7 && t.yday < 366
  {
    CorrectedWeek(t, IsLeapYear(JsMod(t.year, 400) - 1), IsLeapYear(t.year))
  }

  function CorrectedWeek(t: Tm, leapBefore: bool, leap: bool): int
    requires t.wday < 7 && t.yday < 366
  {
    var val := RawWeek(t);
    if val == 0 then WeekOfYearBefore(JsMod(t.wday + 7 - t.yday - 1, 7), leapBefore)
    else if val == 53 then WeekAfter52(JsMod(t.wday + 371 - t.yday, 7), leap)
    else val
  }

  /** The weekday of 1 January, with Monday as 0. */
  function FirstDay(year: nat): nat { DaysBeforeYear(year) % 7 }

  /** Leap years up to `n`. */
  function LeapsTo(n: nat): int { n / 4 - n / 100 + n / 400 }

  lemma LeapRule(year: nat)
    ensures IsLeapYear(year) <==> year % 4 == 0 && (year % 100 != 0 || year % 400 == 0)
  {
  }

  lemma MultiplePassed(n: nat, d: nat)
    requires d in {4, 100, 400}
    ensures (n + 1) / d == n / d + (if (n + 1) % d == 0 then 1 else 0)
  {
  }

  lemma LeapsPassed(n: nat)
    ensures LeapsTo(n + 1) == LeapsTo(n) + (if IsLeapYear(n + 1) then 1 else 0)
  {
    MultiplePassed(n, 4);
    MultiplePassed(n, 100);
    MultiplePassed(n, 400);
    NestedMultiples(n + 1);
    LeapRule(n + 1);
  }

  lemma NestedMultiples(n: nat)
    ensures n % 400 == 0 ==> n % 100 == 0
    ensures n % 100 == 0 ==> n % 4 == 0
  {
    if n % 400 == 0 { Hundreds(n, n / 400); }
    if n % 100 == 0 { Fours(n, n / 100); }
  }

  lemma Hundreds(n: nat, q: nat)
    requires n == 400 * q
    ensures n % 100 == 0
  {
    assert n == 100 * (4 * q);
  }

  lemma Fours(n: nat, q: nat)
    requires n == 100 * q
    ensures n % 4 == 0
  {
    assert n == 4 * (25 * q);
  }

  lemma {:induction false} DaysBeforeYearClosed(year: nat)
    requires year > 0
    ensures DaysBeforeYear(year) == 365 * (year - 1) + LeapsTo(year - 1)
  {
    if year > 1 {
      DaysBeforeYearClosed(year - 1);
      LeapsPassed(year - 2);
    }
  }

  /** Where the numbers stand: 1 January 1970 was a Thursday, and 1 January 1900 a Monday. */
  lemma KnownDays()
    ensures DayNumber(Date(1970, 0, 1)) == 719162 && Weekday(719162) == 4
    ensures DayNumber(Date(1900, 0, 1)) == 693595 && Weekday(693595) == 1
  {
    hide DaysBeforeYear;
    DaysBeforeYearClosed(1970);
    DaysBeforeYearClosed(1900);
    assert LeapsTo(1969) == 477 && LeapsTo(1899) == 460;
  }

  /** 400 years are a whole number of weeks, so centuries start on one of four weekdays. */
  lemma CenturyWeekday(year: nat)
    requires year > 0 && year % 100 == 0
    ensures FirstDay(year) == if year % 400 == 0 then 5 else if year % 400 == 100 then 4 else if year % 400 == 200 then 2 else 0
  {
    var q, c := year / 400, year % 400;
    DaysBeforeYearClosed(year);
    CenturyQuotients(year);
    var day := DaysBeforeYear(year);
    if c == 0 { Mod7(day, 20871 * q - 53, 5); }
    else if c == 100 { Mod7(day, 20871 * q + 5165, 4); }
    else if c == 200 { Mod7(day, 20871 * q + 10383, 2); }
    else { Mod7(day, 20871 * q + 15601, 0); }
  }

  lemma CenturyQuotients(year: nat)
    requires year > 0 && year % 100 == 0
    ensures var q, c := year / 400, year % 400;
      && year == 400 * q + c && c in {0, 100, 200, 300}
      && LeapsTo(year - 1) == 97 * q + c / 4 - c / 100 - (if c == 0 then 1 else 0)
  {
  }

  lemma Mod4(a: nat, k: int, r: nat)
    requires a == 4 * k + r && r < 4
    ensures a % 4 == r
  {
  }

  lemma Mod100(a: nat, k: int, r: nat)
    requires a == 100 * k + r && r < 100
    ensures a % 100 == r
  {
  }

  lemma Mod400(a: nat, k: int, r: nat)
    requires a == 400 * k + r && r < 400
    ensures a % 400 == r
  {
  }

  /** How a year and its count from 1900 lie in the 400-year cycle. */
  lemma CountedFrom1900(y: nat)
    ensures (y + 1900) % 4 == y % 4
    ensures (y + 1900) % 100 == y % 100
    ensures (y + 1900) % 400 == if y % 400 < 100 then y % 400 + 300 else y % 400 - 100
  {
    Mod4(y + 1900, y / 4 + 475, y % 4);
    Mod100(y + 1900, y / 100 + 19, y % 100);
    if y % 400 < 100 { Mod400(y + 1900, y / 400 + 4, y % 400 + 300); }
    else { Mod400(y + 1900, y / 400 + 5, y % 400 - 100); }
  }

  /** Counting from 1900 misjudges only centuries, and no century it misjudges starts on a Wednesday. */
  lemma LeapTestHarmlessForJan1(y: nat)
    requires FirstDay(y + 1900) == 2
    ensures IsLeapYear(y) == IsLeapYear(y + 1900)
  {
    CountedFrom1900(y);
    LeapRule(y);
    LeapRule(y + 1900);
    if y % 100 == 0 { CenturyWeekday(y + 1900); }
  }

  /** And none ends on a Friday. */
  lemma LeapTestHarmlessForDec31(y: nat)
    requires FirstDay(y + 1900) == 5
    ensures IsLeapYear(JsMod(y, 400) - 1) == IsLeapYear(y + 1899)
  {
    var before := y + 1899;
    if before % 100 == 0 {
      CenturyWeekday(before);
      LeapRule(before);
      var q := DaysBeforeYear(before) / 7;
      if before % 400 == 0 { Mod7(DaysBeforeYear(before + 1), q + 53, 0); }
      else { Mod7(DaysBeforeYear(before + 1), q + 52, FirstDay(before) + 1); }
    }
    LeapTestBefore(y);
  }

  lemma LeapTestBefore(y: nat)
    requires (y + 1899) % 100 == 0 ==> (y + 1899) % 400 == 100
    ensures IsLeapYear(JsMod(y, 400) - 1) == IsLeapYear(y + 1899)
  {
    LeapRule(y + 1899);
    if y % 400 == 0 {
      Mod4(y + 1899, 100 * (y / 400) + 474, 3);
      assert !IsLeapYear(-1);
    } else {
      LeapRule(y % 400 - 1);
      CycleBefore(y);
    }
  }

  lemma CycleBefore(y: nat)
    requires y % 400 != 0
    ensures (y + 1899) % 4 == (y % 400 - 1) % 4
    ensures (y + 1899) % 100 == (y % 400 - 1) % 100
    ensures (y + 1899) % 400 == if y % 400 <= 100 then y % 400 + 299 else y % 400 - 101
  {
    var q, r: nat := y / 400, y % 400 - 1;
    Mod4(y + 1899, 100 * q + r / 4 + 475, r % 4);
    Mod100(y + 1899, 4 * q + r / 100 + 19, r % 100);
    if r < 100 { Mod400(y + 1899, q + 4, r + 300); } else { Mod400(y + 1899, q + 5, r - 100); }
  }

  /** In terms of 1 January: how the number before correction counts. */
  lemma RawWeekCounts(t: Tm, jan1: nat)
    requires t.yday < 366 && t.wday == Weekday(jan1 + t.yday)
    ensures WeekOneFrom(jan1) - 7 <= jan1 + t.yday
    ensures RawWeek(t) == (jan1 + t.yday + 7 - WeekOneFrom(jan1)) / 7 >= 0
    ensures RawWeek(t) == 0 ==> t.yday <= 6
  {
    var f, k := jan1 % 7, (t.wday + 6) % 7;
    var p := (f + t.yday) / 7;
    WeekOneIs(jan1);
    Remainders(t, jan1);
    MondaysPassed(t.yday, p, k, f);
    Mod7(jan1 + t.yday + 7 - WeekOneFrom(jan1), if f <= 3 then p + 1 else p, k);
  }

  lemma MondaysPassed(yday: nat, p: nat, k: nat, f: nat)
    requires f + yday == 7 * p + k && k < 7 && f < 7
    ensures (yday + 7 - k) / 7 == if f == 0 then p + 1 else p
    ensures (f + 6) % 7 <= 2 <==> 1 <= f <= 3
  {
    Mod7(yday + 7 - k, if f == 0 then p + 1 else p, if f == 0 then 0 else 7 - f);
  }

  lemma Remainders(t: Tm, jan1: nat)
    requires t.yday < 366 && t.wday == Weekday(jan1 + t.yday)
    ensures jan1 % 7 + t.yday == 7 * ((jan1 % 7 + t.yday) / 7) + (t.wday + 6) % 7
    ensures JsMod(t.wday + 371 - t.yday, 7) == (jan1 % 7 + 1) % 7
    ensures JsMod(t.wday + 371 - t.yday - 2, 7) == (jan1 % 7 + 6) % 7
    ensures t.yday <= 6 ==> JsMod(t.wday + 7 - t.yday - 1, 7) == jan1 % 7
  {
    var q, f := jan1 / 7, jan1 % 7;
    var p, r := (f + t.yday) / 7, (f + t.yday) % 7;
    var late := if r == 6 then 1 else 0;
    Mod7(jan1 + t.yday + 1, q + p + late, if r == 6 then 0 else r + 1);
    Mod7(t.wday + 371 - t.yday, 53 - late - p + (if f == 6 then 1 else 0), if f == 6 then 0 else f + 1);
    Mod7(t.wday + 369 - t.yday, 53 - late - p - (if f == 0 then 1 else 0), if f == 0 then 6 else f - 1);
    if t.yday <= 6 { Mod7(t.wday + 6 - t.yday, 1 - late - p, f); }
  }

  /** Whether a year has a week 53. */
  predicate LongYear(year: nat) { FirstDay(year) == 3 || (FirstDay(year) == 2 && IsLeapYear(year)) }

  lemma LongYearSpan(year: nat)
    requires year > 0
    ensures FirstMonday(year + 1) == FirstMonday(year) + if LongYear(year) then 371 else 364
  {
    WeeksOfYear(DaysBeforeYear(year), YearLength(year));
  }

  /** A year that ends on a Thursday, or on a Friday and is a leap year, is long. */
  lemma LongYearByLastDay(year: nat)
    requires year > 0
    ensures LongYear(year) <==> FirstDay(year + 1) == 4 || (FirstDay(year + 1) == 5 && IsLeapYear(year))
  {
    var f, q := FirstDay(year), DaysBeforeYear(year) / 7;
    var g := f + (if IsLeapYear(year) then 2 else 1);
    if g >= 7 { Mod7(DaysBeforeYear(year + 1), q + 53, g - 7); } else { Mod7(DaysBeforeYear(year + 1), q + 52, g); }
  }

  lemma BeforeIsLong(y: nat)
    ensures WeekOfYearBefore(FirstDay(y + 1900), IsLeapYear(JsMod(y, 400) - 1)) == if LongYear(y + 1899) then 53 else 52
  {
    LongYearByLastDay(y + 1899);
    if FirstDay(y + 1900) == 5 { LeapTestHarmlessForDec31(y); }
  }

  lemma AfterIsLong(y: nat)
    ensures WeekAfter52((FirstDay(y + 1900) + 1) % 7, IsLeapYear(y)) == if LongYear(y + 1900) then 53 else 1
  {
    if FirstDay(y + 1900) == 2 { LeapTestHarmlessForJan1(y); }
  }

  lemma CorrectionLooksAt(t: Tm, jan1: nat, leapBefore: bool, leap: bool)
    requires t.yday < 366 && t.wday == Weekday(jan1 + t.yday)
    ensures CorrectedWeek(t, leapBefore, leap) ==
      if RawWeek(t) == 0 then WeekOfYearBefore(jan1 % 7, leapBefore)
      else if RawWeek(t) == 53 then WeekAfter52((jan1 % 7 + 1) % 7, leap)
      else RawWeek(t)
  {
    RawWeekCounts(t, jan1);
    Remainders(t, jan1);
  }

  /** What the corrections come to. */
  lemma WeekNumberCorrects(t: Tm)
    requires ValidTm(t)
    ensures var y, raw := t.year + 1900, RawWeek(t);
      WeekNumber(t) == if raw == 0 then (if LongYear(y - 1) then 53 else 52) else if raw == 53 && !LongYear(y) then 1 else raw
  {
    CorrectionLooksAt(t, DaysBeforeYear(t.year + 1900), IsLeapYear(JsMod(t.year, 400) - 1), IsLeapYear(t.year));
    BeforeIsLong(t.year);
    AfterIsLong(t.year);
  }

  /** The corrections against the starts of four consecutive week-based years. */
  lemma WeekIsCorrected(day: int, raw: int, before: int, start: int, next: int, later: int)
    requires start - before in {364, 371} && next - start in {364, 371} && later - next >= 364
    requires start - 7 <= day < start + 371 && raw == (day + 7 - start) / 7
    ensures raw == 0 ==> before <= day < start && (day - before) / 7 + 1 == (start - before) / 7
    ensures raw > 0 ==> start <= day && (day - start) / 7 + 1 == raw
    ensures raw > 0 ==> (day < next <==> raw <= (next - start) / 7)
    ensures raw > 0 && day >= next ==> raw == 53 && day < later && (day - next) / 7 + 1 == 1
  {
  }

  /** `%V` is the week number, for every date from 1900 on. */
  lemma WeekNumberIsIso(t: Tm)
    requires ValidTm(t)
    ensures exists year: nat :: IsWeek(TmDay(t), year, WeekNumber(t))
  {
    var y, n := t.year + 1900, TmDay(t);
    RawWeekCounts(t, DaysBeforeYear(y));
    WeekNumberCorrects(t);
    LongYearSpan(y - 1);
    LongYearSpan(y);
    LongYearSpan(y + 1);
    WeekOneIs(DaysBeforeYear(y));
    WeekIsCorrected(n, RawWeek(t), FirstMonday(y - 1), FirstMonday(y), FirstMonday(y + 1), FirstMonday(y + 2));
    if RawWeek(t) == 0 {
      assert IsWeek(n, y - 1, WeekNumber(t));
    } else if n < FirstMonday(y + 1) {
      assert IsWeek(n, y, WeekNumber(t));
    } else {
      assert IsWeek(n, y + 1, WeekNumber(t));
    }
  }

  /** The week-based year, by comparing dates field by field. */
  method WeekBasedYear(t: Tm) returns (year: nat)
    requires ValidTm(t)
    ensures IsWeekYear(TmDay(t), year)
  {
    var thisDate := AddDays(Date(t.year + 1900, 0, 1), t.yday);
    YearOfDay(thisDate, t.year + 1900);
    var janFourthThisYear := Date(thisDate.year, 0, 4);
    var janFourthNextYear := Date(thisDate.year + 1, 0, 4);
    var firstWeekStartThisYear := GetFirstWeekStartDate(janFourthThisYear);
    var firstWeekStartNextYear := GetFirstWeekStartDate(janFourthNextYear);
    FirstWeekStartsOnFirstMonday(thisDate.year);
    FirstWeekStartsOnFirstMonday(thisDate.year + 1);
    CompareIsByDayNumber(firstWeekStartThisYear, thisDate);
    CompareIsByDayNumber(firstWeekStartNextYear, thisDate);
    YearsAround(thisDate.year);
    if CompareByDay(firstWeekStartThisYear, thisDate) <= 0 {
      if CompareByDay(firstWeekStartNextYear, thisDate) <= 0 {
        return thisDate.year + 1;
      }
      return thisDate.year;
    }
    return thisDate.year - 1;
  }

  /** A week number that is right for some year is right for the week-based year. */
  lemma WeekGoesWithYear(t: Tm, year: nat)
    requires ValidTm(t) && IsWeekYear(TmDay(t), year)
    ensures IsWeek(TmDay(t), year, WeekNumber(t))
  {
    WeekNumberIsIso(t);
    var y: nat :| IsWeek(TmDay(t), y, WeekNumber(t));
    WeekIsUnique(TmDay(t), y, WeekNumber(t), year, (TmDay(t) - FirstMonday(year)) / 7 + 1);
  }

  /** `%G` is the week-based year, and `%V` the number of the week in it. */
  method GetWeekBasedYear(t: Tm) returns (year: nat)
    requires ValidTm(t)
    ensures IsWeek(TmDay(t), year, WeekNumber(t))
  {
    year := WeekBasedYear(t);
    WeekGoesWithYear(t, year);
  }
}
