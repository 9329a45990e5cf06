/**
 * Date ranges of the report feature: the day, ISO week (Monday to Sunday),
 * month, half-year and year around an anchor time, the clamping of a raw
 * range, week titles, and the split of a range into period buckets.
 * Time values are integer milliseconds; the local zone is UTC.
 */
module DateRange {
  import opened Wrappers
  import opened Text
  import opened Calendar
  import opened ReportTypes

  /** An inclusive range of time values. */
  datatype Range = Range(start: int, end: int)

  /** `startOfDay`: the same calendar date at 00:00:00.000. */
  function StartOfDay(t: int): (r: int)
    ensures Day(r) == Day(t)
    ensures TimeWithinDay(r) == 0
    ensures r <= t < r + MsPerDay
  {
    DayOfMakeDate(Day(t), 0);
    MakeDateOfDay(t);
    SetHours(t, 0, 0, 0, 0)
  }

  /** `endOfDay`: the same calendar date at 23:59:59.999. */
  function EndOfDay(t: int): (r: int)
    ensures Day(r) == Day(t)
    ensures TimeWithinDay(r) == MsPerDay - 1
    ensures r - MsPerDay < t <= r
  {
    DayOfMakeDate(Day(t), MsPerDay - 1);
    MakeDateOfDay(t);
    SetHours(t, 23, 59, 59, 999)
  }

  /** A time lies between a midnight and an end of day when its day does. */
  lemma BetweenDays(s: int, t: int, e: int)
    requires TimeWithinDay(s) == 0 && TimeWithinDay(e) == MsPerDay - 1
    requires Day(s) <= Day(t) <= Day(e)
    ensures s <= t <= e
  {
    MakeDateOfDay(s);
    MakeDateOfDay(t);
    MakeDateOfDay(e);
  }

  /**
   * w is the week of t: it runs from a Monday at 00:00:00.000 to the Sunday six
   * days later at 23:59:59.999, and the day of t lies between the two.
   */
  predicate WeekOf(t: int, w: Range) {
    WeekDay(w.start) == 1 && WeekDay(w.end) == 0 &&
    TimeWithinDay(w.start) == 0 && TimeWithinDay(w.end) == MsPerDay - 1 &&
    Day(w.end) == Day(w.start) + 6 &&
    Day(w.start) <= Day(t) <= Day(w.end)
  }

  /**
   * `isoWeekRange`: the Monday on or before t (Sunday counts as day 7 of its
   * week) at 00:00:00.000, and the Sunday six days later at 23:59:59.999.
   */
  function IsoWeekRange(t: int): (w: Range)
    ensures WeekOf(t, w)
    ensures w.start <= t <= w.end
  {
    var day := if WeekDay(t) == 0 then 7 else WeekDay(t);
    var start := SetDate(t, DateFromTime(t) - (day - 1));
    SetDateShift(t, -(day - 1));
    var end := SetDate(start, DateFromTime(start) + 6);
    SetDateShift(start, 6);
    WeekBounds(t, day, start, end);
    Range(StartOfDay(start), EndOfDay(end))
  }

  /** A time has exactly one week: the one starting on the Monday m of its seven days. */
  lemma WeekOfMonday(t: int, w: Range, m: int)
    requires WeekOf(t, w)
    requires m <= Day(t) < m + 7 && (m + 4) % 7 == 1
    ensures w == Range(m * MsPerDay, (m + 6) * MsPerDay + MsPerDay - 1)
  {
    MondayUnique(Day(w.start), Day(t), m);
  }

  /** The week range of every time in the seven days from Monday m. */
  lemma WeekRangeOfMonday(t: int, m: int)
    requires m <= Day(t) < m + 7 && (m + 4) % 7 == 1
    ensures IsoWeekRange(t) == Range(m * MsPerDay, (m + 6) * MsPerDay + MsPerDay - 1)
  {
    var w := IsoWeekRange(t);
    assert WeekOf(t, w);
    WeekOfMonday(t, w, m);
  }

  lemma MondayUnique(a: int, d: int, m: int)
    requires (a + 4) % 7 == 1 && (m + 4) % 7 == 1
    requires m <= d < m + 7 && d - 6 <= a <= d
    ensures a == m
  {
  }

  /** Two week ranges of the same time coincide. */
  lemma WeekOfUnique(t: int, w1: Range, w2: Range)
    requires WeekOf(t, w1) && WeekOf(t, w2)
    ensures w1 == w2
  {
    WeekOfMonday(t, w2, Day(w1.start));
  }

  lemma WeekBounds(t: int, day: int, start: int, end: int)
    requires day == if WeekDay(t) == 0 then 7 else WeekDay(t)
    requires start == t + -(day - 1) * MsPerDay
    requires end == start + 6 * MsPerDay
    ensures var w := Range(StartOfDay(start), EndOfDay(end));
      WeekOf(t, w) && w.start <= t <= w.end
  {
    var n := Day(t);
    DayShift(t, -(day - 1));
    assert Day(start) == n - (day - 1);
    DayShift(start, 6);
    assert Day(end) == n - (day - 1) + 6;
    var ws := StartOfDay(start);
    var we := EndOfDay(end);
    assert Day(ws) == n - (day - 1);
    assert Day(we) == n - (day - 1) + 6;
    MondayOfWeek(n, day, Day(ws), Day(we));
    BetweenDays(ws, t, we);
  }

  /**
   * Stepping back `getDay() || 7` minus one days from day n lands on the
   * Monday d, and six days later on the Sunday e.
   */
  lemma MondayOfWeek(n: int, day: int, d: int, e: int)
    requires day == if (n + 4) % 7 == 0 then 7 else (n + 4) % 7
    requires d == n - (day - 1) && e == d + 6
    ensures (d + 4) % 7 == 1 && (e + 4) % 7 == 0
  {
    var q := (n + 4) / 7;
    assert n + 4 == 7 * q + (n + 4) % 7;
    if (n + 4) % 7 == 0 {
      assert d + 4 == 7 * (q - 1) + 1;
      assert e + 4 == 7 * q;
    } else {
      assert d + 4 == 7 * q + 1;
      assert e + 4 == 7 * (q + 1);
    }
  }

  /** `lastDayOfMonth`: the date of day 0 of the following month. */
  function LastDayOfMonth(year: int, month: int): int {
    DateFromTime(NewDate(year, month + 1, 0))
  }

  /**
   * Day 0 of the following month is the month's last date, in the year
   * `new Date` reads: a year 0..99 stands for 1900 + year.
   */
  lemma LastDayOfMonthIsLength(year: int, month: int)
    requires 0 <= month < 12
    ensures LastDayOfMonth(year, month) == DaysInMonth(FullYear(year), month)
    ensures month == 1 ==> (LastDayOfMonth(year, month) == 29 <==> IsLeapYear(FullYear(year)))
  {
    MakeDayZero(FullYear(year), month);
    NewDateFields(year, month, DaysInMonth(FullYear(year), month));
  }

  /** `pad`: a leading zero below 10, the plain decimal otherwise. */
  function Pad(n: int): string {
    if n < 10 then "0" + IntToString(n) else IntToString(n)
  }

  /** Numbers 0..99 pad to exactly two digits that read back as the number. */
  lemma PadTwoDigits(n: int)
    requires 0 <= n < 100
    ensures |Pad(n)| == 2 && AllDigits(Pad(n)) && DigitsValue(Pad(n)) == n
  {
    DigitsValueOfNatToString(n);
    if n < 10 {
      assert Pad(n) == ['0', DigitChar(n)];
      assert Pad(n)[..1] == "0";
    } else {
      assert NatToString(n) == NatToString(n / 10) + [DigitChar(n % 10)];
    }
  }

  /** `formatDate`: YYYY-MM-DD of the calendar date of t. */
  function FormatDate(t: int): string {
    DateString(CivilFromTime(t))
  }

  /** The `y-MM-DD` text of a calendar date. */
  function DateString(c: Civil): string {
    IntToString(c.year) + "-" + Pad(c.month + 1) + "-" + Pad(c.date)
  }

  /** key reads as the year, a dash, the month in two digits, a dash and the day in two digits. */
  predicate DateTextOf(key: string, year: int, month: int, date: int) {
    var n := |IntToString(year)|;
    |key| == n + 6 && key[..n] == IntToString(year) && key[n] == '-' && key[n + 3] == '-' &&
    AllDigits(key[n + 1..n + 3]) && DigitsValue(key[n + 1..n + 3]) == month &&
    AllDigits(key[n + 4..]) && DigitsValue(key[n + 4..]) == date
  }

  /** The `y-MM-DD` text of a year, a month and a day below 100 has that shape. */
  lemma DateStringShape(y: int, m: int, d: int, key: string)
    requires 0 <= m < 100 && 0 <= d < 100
    requires key == IntToString(y) + "-" + Pad(m) + "-" + Pad(d)
    ensures DateTextOf(key, y, m, d)
  {
    PadTwoDigits(m);
    PadTwoDigits(d);
    DashedShape(IntToString(y), Pad(m), Pad(d));
  }

  /** The parts of `y-mm-dd` with two-character mm and dd. */
  lemma DashedShape(y: string, mm: string, dd: string)
    requires |mm| == 2 && |dd| == 2
    ensures var key := y + "-" + mm + "-" + dd;
      |key| == |y| + 6 && key[..|y|] == y && key[|y|] == '-' && key[|y| + 3] == '-' &&
      key[|y| + 1..|y| + 3] == mm && key[|y| + 4..] == dd
  {
    var key := y + "-" + mm + "-" + dd;
    assert key[|y| + 1..|y| + 3] == mm;
    assert key[|y| + 4..] == dd;
  }

  /** `y-MM-DD` texts of valid dates of non-negative years determine the dates. */
  lemma DateStringInjective(a: Civil, b: Civil)
    requires ValidCivil(a) && ValidCivil(b) && a.year >= 0 && b.year >= 0
    requires DateString(a) == DateString(b)
    ensures a == b
  {
    PadTwoDigits(a.month + 1);
    PadTwoDigits(a.date);
    PadTwoDigits(b.month + 1);
    PadTwoDigits(b.date);
    DashedParts(IntToString(a.year), Pad(a.month + 1), Pad(a.date), IntToString(b.year), Pad(b.month + 1), Pad(b.date));
    IntToStringInjective(a.year, b.year);
  }

  /** "a-b-c" determines a, b and c when b and c have two characters. */
  lemma DashedParts(a: string, b: string, c: string, a2: string, b2: string, c2: string)
    requires |b| == 2 && |c| == 2 && |b2| == 2 && |c2| == 2
    requires a + "-" + b + "-" + c == a2 + "-" + b2 + "-" + c2
    ensures a == a2 && b == b2 && c == c2
  {
    var s := a + "-" + b + "-" + c;
    assert |a| == |a2|;
    assert s[..|a|] == a && s[..|a|] == a2;
    assert s[|a| + 1..|a| + 3] == b && s[|a| + 1..|a| + 3] == b2;
    assert s[|a| + 4..] == c && s[|a| + 4..] == c2;
  }

  /** Two times of non-negative years format alike exactly when they fall on the same day. */
  lemma FormatDateInjective(t: int, u: int)
    requires YearFromTime(t) >= 0 && YearFromTime(u) >= 0
    ensures FormatDate(t) == FormatDate(u) <==> Day(t) == Day(u)
  {
    if FormatDate(t) == FormatDate(u) {
      SameDate(t, u, CivilFromTime(t), CivilFromTime(u));
    }
  }

  /** Times whose valid dates of non-negative years print alike fall on the same day. */
  lemma SameDate(t: int, u: int, ct: Civil, cu: Civil)
    requires ct == CivilFromTime(t) && cu == CivilFromTime(u) && ct.year >= 0 && cu.year >= 0
    requires DateString(ct) == DateString(cu)
    ensures Day(t) == Day(u)
  {
    DateStringInjective(ct, cu);
    MakeDayOfCivil(Day(t));
    MakeDayOfCivil(Day(u));
  }

  /** `new Date(y, m, 1)` .. `endOfDay(new Date(y, m + 1, 0))` for the month of t. */
  function MonthBounds(t: int): Range {
    var y := YearFromTime(t);
    var m := MonthFromTime(t);
    Range(NewDate(y, m, 1), EndOfDay(NewDate(y, m + 1, 0)))
  }

  /** From the first millisecond of day `first` to the last millisecond of day `last`. */
  function DaySpan(first: int, last: int): Range {
    Range(MakeDate(first, 0), MakeDate(last, MsPerDay - 1))
  }

  /** r runs from midnight of the valid date a to the last millisecond of the valid date b. */
  predicate Spans(r: Range, a: Civil, b: Civil) {
    ValidCivil(a) && ValidCivil(b) &&
    r == DaySpan(MakeDay(a.year, a.month, a.date), MakeDay(b.year, b.month, b.date))
  }

  /** r spans the dates a to b, and t lies inside it. */
  predicate Encloses(t: int, r: Range, a: Civil, b: Civil) {
    Spans(r, a, b) && r.start <= t <= r.end
  }

  /** The ends of an enclosing range fall on the dates a and b. */
  lemma EnclosesDates(t: int, r: Range, a: Civil, b: Civil)
    requires Encloses(t, r, a, b)
    ensures CivilFromTime(r.start) == a && TimeWithinDay(r.start) == 0
    ensures CivilFromTime(r.end) == b && TimeWithinDay(r.end) == MsPerDay - 1
  {
    DayOfMakeDate(MakeDay(a.year, a.month, a.date), 0);
    DayOfMakeDate(MakeDay(b.year, b.month, b.date), MsPerDay - 1);
    CivilOfMakeDay(a.year, a.month, a.date);
    CivilOfMakeDay(b.year, b.month, b.date);
  }

  /** The end of the day that starts at midnight of day n. */
  lemma EndOfMidnight(n: int)
    ensures EndOfDay(MakeDate(n, 0)) == MakeDate(n, MsPerDay - 1)
  {
    DayOfMakeDate(n, 0);
    MakeDateOfDay(EndOfDay(MakeDate(n, 0)));
  }

  /**
   * The month bounds are midnight of the 1st and the end of the last day of
   * t's month in the year `new Date` reads; they contain t exactly when that
   * is t's own year, i.e. when t's year is not in 0..99.
   */
  lemma MonthBoundsSpec(t: int)
    ensures var y := FullYear(YearFromTime(t)); var m := MonthFromTime(t);
      Spans(MonthBounds(t), Civil(y, m, 1), Civil(y, m, DaysInMonth(y, m)))
    ensures MonthBounds(t).start <= t <= MonthBounds(t).end <==> !(0 <= YearFromTime(t) <= 99)
  {
    var y := YearFromTime(t);
    var m := MonthFromTime(t);
    var last := DaysInMonth(FullYear(y), m);
    MonthEnd(y, m);
    MonthsSpan(t, y, m, m, last, MonthBounds(t));
  }

  /** `new Date(y, m + 1, 0)` is the last day of month m. */
  lemma MonthEnd(y: int, m: int)
    requires 0 <= m < 12
    ensures NewDate(y, m + 1, 0) == NewDate(y, m, DaysInMonth(FullYear(y), m))
  {
    MakeDayZero(FullYear(y), m);
  }

  /**
   * Midnight of the 1st of month `first` and the end of the last day of month
   * `last` of year FullYear(y) span those months; for a time t of year y
   * whose month lies between them, they contain t exactly when FullYear(y)
   * is y, and otherwise start after t.
   */
  lemma MonthsSpan(t: int, y: int, first: int, last: int, lastDate: int, r: Range)
    requires 0 <= first <= last < 12 && lastDate == DaysInMonth(FullYear(y), last)
    requires YearFromTime(t) == y && first <= MonthFromTime(t) <= last
    requires r == Range(NewDate(y, first, 1), EndOfDay(NewDate(y, last, lastDate)))
    ensures Spans(r, Civil(FullYear(y), first, 1), Civil(FullYear(y), last, lastDate))
    ensures r.start <= t <= r.end <==> !(0 <= y <= 99)
  {
    var fy := FullYear(y);
    var a, b := Civil(fy, first, 1), Civil(fy, last, lastDate);
    var s, e := MakeDay(fy, first, 1), MakeDay(fy, last, lastDate);
    EndOfMidnight(e);
    if 0 <= y <= 99 {
      BeforeEarlyNewDate(t, y, first, 1);
    } else {
      DayWithin(t, CivilFromTime(t), a, b);
      SpanEncloses(t, a, b, s, e);
    }
  }

  /** The day of t, whose date is c, lies between the first of a's month and b, the last day of a later month. */
  lemma DayWithin(t: int, c: Civil, a: Civil, b: Civil)
    requires c == CivilFromTime(t) && ValidCivil(a) && ValidCivil(b) && a.year == c.year == b.year
    requires a.date == 1 && b.date == DaysInMonth(b.year, b.month) && a.month <= c.month <= b.month
    ensures MakeDay(a.year, a.month, a.date) <= Day(t) <= MakeDay(b.year, b.month, b.date)
  {
    HalfOrder(c, a, b);
    MakeDayOfCivil(Day(t));
    assert Day(t) == MakeDay(c.year, c.month, c.date);
    PeriodContains(Day(t), a, c, b);
  }

  /** The span of the days s..e of the valid dates a..b encloses t when t's day lies between. */
  lemma SpanEncloses(t: int, a: Civil, b: Civil, s: int, e: int)
    requires ValidCivil(a) && ValidCivil(b)
    requires s == MakeDay(a.year, a.month, a.date) && e == MakeDay(b.year, b.month, b.date)
    requires s <= Day(t) <= e
    ensures Encloses(t, DaySpan(s, e), a, b)
  {
    DayOfMakeDate(s, 0);
    DayOfMakeDate(e, MsPerDay - 1);
    BetweenDays(MakeDate(s, 0), t, MakeDate(e, MsPerDay - 1));
  }

  /** Day n of date c lies between the days of dates a and b of the same year. */
  lemma PeriodContains(n: int, a: Civil, c: Civil, b: Civil)
    requires ValidCivil(a) && ValidCivil(b) && ValidCivil(c)
    requires n == MakeDay(c.year, c.month, c.date)
    requires a.year == c.year == b.year
    requires a.month < c.month || (a.month == c.month && a.date <= c.date)
    requires c.month < b.month || (c.month == b.month && c.date <= b.date)
    ensures MakeDay(a.year, a.month, a.date) <= n <= MakeDay(b.year, b.month, b.date)
  {
    MakeDayOrder(c.year, a.month, a.date, c.month, c.date);
    MakeDayOrder(c.year, c.month, c.date, b.month, b.date);
  }

  /** `new Date(y, 0 | 6, 1)` .. `endOfDay(new Date(y, 5 | 11, lastDayOfMonth(y, 5 | 11)))`. */
  function HalfYearBounds(t: int): Range {
    var y := YearFromTime(t);
    var isH1 := MonthFromTime(t) < 6;
    Range(NewDate(y, if isH1 then 0 else 6, 1),
          EndOfDay(NewDate(y, if isH1 then 5 else 11, LastDayOfMonth(y, if isH1 then 5 else 11))))
  }

  /**
   * For months 0..5 the half-year bounds are January 1 and June 30 of the
   * year `new Date` reads; they contain t exactly when t's year is not in 0..99.
   */
  lemma HalfYearBoundsFirst(t: int)
    requires MonthFromTime(t) < 6
    ensures var y := FullYear(YearFromTime(t));
      Spans(HalfYearBounds(t), Civil(y, 0, 1), Civil(y, 5, 30))
    ensures HalfYearBounds(t).start <= t <= HalfYearBounds(t).end <==> !(0 <= YearFromTime(t) <= 99)
  {
    var y := YearFromTime(t);
    JuneLength(y);
    MonthsSpan(t, y, 0, 5, 30, HalfYearBounds(t));
  }

  /**
   * For months 6..11 the half-year bounds are July 1 and December 31 of the
   * year `new Date` reads; they contain t exactly when t's year is not in 0..99.
   */
  lemma HalfYearBoundsSecond(t: int)
    requires MonthFromTime(t) >= 6
    ensures var y := FullYear(YearFromTime(t));
      Spans(HalfYearBounds(t), Civil(y, 6, 1), Civil(y, 11, 31))
    ensures HalfYearBounds(t).start <= t <= HalfYearBounds(t).end <==> !(0 <= YearFromTime(t) <= 99)
  {
    var y := YearFromTime(t);
    DecemberLength(y);
    MonthsSpan(t, y, 6, 11, 31, HalfYearBounds(t));
  }

  /** A valid date of year y in the months between a and b lies between the dates a and b. */
  lemma HalfOrder(c: Civil, a: Civil, b: Civil)
    requires ValidCivil(c) && ValidCivil(b) && a.year == c.year == b.year && b.date == DaysInMonth(b.year, b.month)
    requires a.date == 1 && a.month <= c.month <= b.month
    ensures a.month < c.month || (a.month == c.month && a.date <= c.date)
    ensures c.month < b.month || (c.month == b.month && c.date <= b.date)
  {
  }

  /** June has 30 days in every year. */
  lemma JuneLength(y: int)
    ensures DaysInMonth(FullYear(y), 5) == 30 && LastDayOfMonth(y, 5) == 30
  {
    assert DaysInMonth(FullYear(y), 5) == 30;
    LastDayOfMonthIsLength(y, 5);
  }

  /** December has 31 days in every year. */
  lemma DecemberLength(y: int)
    ensures DaysInMonth(FullYear(y), 11) == 31 && LastDayOfMonth(y, 11) == 31
  {
    assert DaysInMonth(FullYear(y), 11) == 31;
    LastDayOfMonthIsLength(y, 11);
  }

  /** `new Date(y, 0, 1)` .. `endOfDay(new Date(y, 11, 31))` for the year of t. */
  function YearBounds(t: int): Range {
    var y := YearFromTime(t);
    Range(NewDate(y, 0, 1), EndOfDay(NewDate(y, 11, 31)))
  }

  /**
   * The year bounds are January 1 and December 31 of the year `new Date`
   * reads for t's year; they contain t exactly when t's year is not in 0..99.
   */
  lemma YearBoundsSpec(t: int)
    ensures var y := FullYear(YearFromTime(t));
      Spans(YearBounds(t), Civil(y, 0, 1), Civil(y, 11, 31))
    ensures YearBounds(t).start <= t <= YearBounds(t).end <==> !(0 <= YearFromTime(t) <= 99)
  {
    var y := YearFromTime(t);
    DecemberLength(y);
    MonthsSpan(t, y, 0, 11, 31, YearBounds(t));
  }

  /** A JavaScript number: a finite value or one of NaN and the infinities. */
  datatype JsNumber = Finite(value: int) | NonFinite

  /** `clampRange`: the two ends in non-decreasing order; an error for a non-finite end. */
  function ClampRange(from: JsNumber, until: JsNumber): (r: Result<Range, string>)
    ensures r.Success? <==> from.Finite? && until.Finite?
    ensures r.Success? ==> r.value.start <= r.value.end
    ensures r.Success? ==> multiset{r.value.start, r.value.end} == multiset{from.value, until.value}
    ensures r.Success? && from.value <= until.value ==> r.value == Range(from.value, until.value)
  {
    if !from.Finite? || !until.Finite? then Failure("Invalid range")
    else if from.value <= until.value then Success(Range(from.value, until.value))
    else Success(Range(until.value, from.value))
  }

  /** The week title of the week range w (the part of `autoWeekTitle` after `isoWeekRange`). */
  function WeekTitle(w: Range): string {
    var firstThursday := SetDate(w.start, DateFromTime(w.start) + 3);
    var weekYear := YearFromTime(firstThursday);
    var oneJan := NewDate(weekYear, 0, 1);
    TitleText(weekYear, WeekNumber(w.start, oneJan), CivilFromTime(w.start), CivilFromTime(w.end))
  }

  /** `Math.ceil((Math.floor((start - oneJan) / 86400000) + 1) / 7)` on integers. */
  function WeekNumber(start: int, oneJan: int): int {
    var days := (start - oneJan) / MsPerDay + 1;
    -((-days) / 7)
  }

  /** "<week-year> 年 第 <n> 周（MM-DD ~ MM-DD）". */
  function TitleText(weekYear: int, weekNum: int, s: Civil, e: Civil): string {
    IntToString(weekYear) + " 年 第 " + IntToString(weekNum) + " 周（" +
    Pad(s.month + 1) + "-" + Pad(s.date) + " ~ " + Pad(e.month + 1) + "-" + Pad(e.date) + "）"
  }

  /** `autoWeekTitle`: the title of the week of t. */
  function AutoWeekTitle(t: int): string {
    WeekTitle(IsoWeekRange(t))
  }

  // Periods of a granularity.

  /** The period of granularity g around t, as both `computeDateRange` and `splitIntoBuckets` compute it. */
  function PeriodRange(g: Granularity, t: int): Range {
    match g
    case Daily => Range(StartOfDay(t), EndOfDay(t))
    case Weekly => IsoWeekRange(t)
    case Monthly => MonthBounds(t)
    case HalfYearly => HalfYearBounds(t)
    case Yearly => YearBounds(t)
  }

  /** The Monday on or before day n (day 0, 1970-01-01, is a Thursday). */
  function MondayOf(n: int): int {
    n - (n + 3) % 7
  }

  /**
   * The period of granularity g around t in calendar terms: t's own day; the
   * seven days from the Monday on or before it; its month; January 1 to
   * June 30 or July 1 to December 31 of its year; its year.  Months,
   * half-years and years are taken in the year `new Date` reads for t's
   * year, FullYear(y), which is y itself outside 0..99.
   */
  function ExpectedPeriod(g: Granularity, t: int): Range {
    var y := FullYear(YearFromTime(t));
    var m := MonthFromTime(t);
    match g
    case Daily => DaySpan(Day(t), Day(t))
    case Weekly => DaySpan(MondayOf(Day(t)), MondayOf(Day(t)) + 6)
    case Monthly => DaySpan(MakeDay(y, m, 1), MakeDay(y, m, DaysInMonth(y, m)))
    case HalfYearly =>
      if m < 6 then DaySpan(MakeDay(y, 0, 1), MakeDay(y, 5, 30))
      else DaySpan(MakeDay(y, 6, 1), MakeDay(y, 11, 31))
    case Yearly => DaySpan(MakeDay(y, 0, 1), MakeDay(y, 11, 31))
  }

  /** The day bounds are the first and the last millisecond of t's day. */
  lemma DayBoundsSpec(t: int)
    ensures Range(StartOfDay(t), EndOfDay(t)) == DaySpan(Day(t), Day(t))
  {
    MakeDateOfDay(StartOfDay(t));
    MakeDateOfDay(EndOfDay(t));
  }

  /** MondayOf(n) is a Monday among the seven days up to n. */
  lemma MondayOfSpec(n: int)
    ensures MondayOf(n) <= n < MondayOf(n) + 7 && (MondayOf(n) + 4) % 7 == 1
  {
    var q := (n + 3) / 7;
    assert n + 3 == 7 * q + (n + 3) % 7;
    assert MondayOf(n) + 4 == 7 * q + 1;
  }

  /** The ISO week range is the seven days from the Monday on or before t. */
  lemma WeekRangeSpec(t: int)
    ensures IsoWeekRange(t) == DaySpan(MondayOf(Day(t)), MondayOf(Day(t)) + 6)
  {
    MondayOfSpec(Day(t));
    WeekRangeOfMonday(t, MondayOf(Day(t)));
  }

  /**
   * Does the period of g around t lie in t's own year?  Days and weeks are
   * computed from t itself; months, half-years and years through
   * `new Date(y, m, d)`, which reads a year 0..99 as 1900 + year.
   */
  predicate KeepsYear(g: Granularity, t: int) {
    g == Daily || g == Weekly || !(0 <= YearFromTime(t) <= 99)
  }

  /**
   * The computed period is the one the calendar defines, and it contains t
   * exactly when it keeps t's year.
   */
  lemma PeriodRangeSpec(g: Granularity, t: int)
    ensures PeriodRange(g, t) == ExpectedPeriod(g, t)
    ensures PeriodRange(g, t).start <= t <= PeriodRange(g, t).end <==> KeepsYear(g, t)
  {
    match g
    case Daily => DayBoundsSpec(t);
    case Weekly => WeekRangeSpec(t);
    case Monthly => MonthPeriod(t);
    case HalfYearly => HalfYearPeriod(t); HalfYearContains(t);
    case Yearly => YearPeriod(t);
  }

  lemma MonthPeriod(t: int)
    ensures MonthBounds(t) == ExpectedPeriod(Monthly, t)
    ensures MonthBounds(t).start <= t <= MonthBounds(t).end <==> KeepsYear(Monthly, t)
  {
    MonthBoundsSpec(t);
  }

  lemma HalfYearPeriod(t: int)
    ensures HalfYearBounds(t) == ExpectedPeriod(HalfYearly, t)
  {
    if MonthFromTime(t) < 6 { HalfYearBoundsFirst(t); } else { HalfYearBoundsSecond(t); }
  }

  lemma HalfYearContains(t: int)
    ensures HalfYearBounds(t).start <= t <= HalfYearBounds(t).end <==> KeepsYear(HalfYearly, t)
  {
    if MonthFromTime(t) < 6 { HalfYearBoundsFirst(t); } else { HalfYearBoundsSecond(t); }
  }

  lemma YearPeriod(t: int)
    ensures YearBounds(t) == ExpectedPeriod(Yearly, t)
    ensures YearBounds(t).start <= t <= YearBounds(t).end <==> KeepsYear(Yearly, t)
  {
    YearBoundsSpec(t);
  }

  /** Day numbers do not decrease with time. */
  lemma DayMonotonic(a: int, b: int)
    requires a <= b
    ensures Day(a) <= Day(b)
  {
  }

  /** Every time of a week has that week as its week range. */
  lemma SameWeek(t: int, u: int)
    requires IsoWeekRange(t).start <= u <= IsoWeekRange(t).end
    ensures IsoWeekRange(u) == IsoWeekRange(t)
  {
    var w := IsoWeekRange(t);
    assert WeekOf(t, w);
    DayMonotonic(w.start, u);
    DayMonotonic(u, w.end);
    assert WeekOf(u, w);
    var v := IsoWeekRange(u);
    assert WeekOf(u, v);
    WeekOfUnique(u, v, w);
  }

  // computeDateRange.

  /** The arguments of `computeDateRange`; `from` and `until` are the optional explicit range. */
  datatype DateRangeInput = DateRangeInput(granularity: Granularity, anchor: int, from: Option<int>, until: Option<int>)

  datatype DateRangeResult = DateRangeResult(from: int, until: int, labelText: string)

  /** The label `computeDateRange` gives the period r of g around t. */
  function RangeLabel(g: Granularity, t: int, r: Range): string {
    var y := YearFromTime(t);
    var m := MonthFromTime(t);
    match g
    case Daily => FormatDate(t)
    case Weekly => AutoWeekTitle(r.start)
    case Monthly => IntToString(y) + "年" + Pad(m + 1) + "月"
    case HalfYearly => IntToString(y) + "年" + (if m < 6 then "上半年" else "下半年")
    case Yearly => IntToString(y)
  }

  /**
   * `computeDateRange`.  With both explicit ends given the code calls
   * `makeLabel`, which is defined nowhere, so that path ends in an error.
   */
  function ComputeDateRange(input: DateRangeInput): (r: Result<DateRangeResult, string>)
    ensures r.Failure? <==> input.from.Some? && input.until.Some?
  {
    if input.from.Some? && input.until.Some? then Failure("makeLabel is not defined")
    else
      var p := PeriodRange(input.granularity, input.anchor);
      Success(DateRangeResult(p.start, p.end, RangeLabel(input.granularity, input.anchor, p)))
  }

  /**
   * Without an explicit range the result is the calendar period of the
   * granularity around the anchor, and it contains the anchor exactly when
   * it keeps the anchor's year.
   */
  lemma ComputeDateRangeSpec(input: DateRangeInput)
    requires !(input.from.Some? && input.until.Some?)
    ensures var r := ComputeDateRange(input).value;
      Range(r.from, r.until) == ExpectedPeriod(input.granularity, input.anchor)
    ensures var r := ComputeDateRange(input).value;
      r.from <= input.anchor <= r.until <==> KeepsYear(input.granularity, input.anchor)
  {
    PeriodRangeSpec(input.granularity, input.anchor);
  }

  /** A week result runs from a Monday to a Sunday and is titled by that week. */
  lemma ComputeWeekSpec(input: DateRangeInput)
    requires !(input.from.Some? && input.until.Some?) && input.granularity == Weekly
    ensures var r := ComputeDateRange(input).value;
      WeekDay(r.from) == 1 && WeekDay(r.until) == 0 &&
      r.labelText == WeekTitle(IsoWeekRange(input.anchor))
  {
    var w := IsoWeekRange(input.anchor);
    assert WeekOf(input.anchor, w);
    SameWeek(input.anchor, w.start);
  }

  // splitIntoBuckets.

  /** A bucket of `splitIntoBuckets`. */
  datatype Bucket = Bucket(start: int, end: int, labelText: string)

  /** The bucket pushed for the cursor c. */
  function BucketAt(g: Granularity, c: int): (b: Bucket)
    ensures b.start <= c <= b.end <==> KeepsYear(g, c)
  {
    PeriodRangeSpec(g, c);
    var p := PeriodRange(g, c);
    Bucket(p.start, p.end, BucketLabel(g, c, p.start))
  }

  /** The label of the bucket starting at `start` pushed for the cursor c. */
  function BucketLabel(g: Granularity, c: int, start: int): string {
    match g
    case Daily => FormatDate(start)
    case Weekly => AutoWeekTitle(start)
    case Monthly => IntToString(YearFromTime(start)) + "-" + Pad(MonthFromTime(start) + 1)
    case HalfYearly => IntToString(YearFromTime(c)) + (if MonthFromTime(c) < 6 then " H1" else " H2")
    case Yearly => IntToString(YearFromTime(start))
  }

  /** The cursor after c: one day, seven days, one month, six months or one year later. */
  function Advance(g: Granularity, c: int): int {
    match g
    case Daily => SetDate(c, DateFromTime(c) + 1)
    case Weekly => SetDate(c, DateFromTime(c) + 7)
    case Monthly => SetMonth(c, MonthFromTime(c) + 1)
    case HalfYearly => SetMonth(c, MonthFromTime(c) + 6)
    case Yearly => SetFullYear(c, YearFromTime(c) + 1)
  }

  /** The cursor moves forward by at least a day; by exactly one or seven days for days and weeks. */
  lemma AdvanceMoves(g: Granularity, c: int, next: int)
    requires next == Advance(g, c)
    ensures next >= c + MsPerDay
    ensures g == Daily ==> next == c + MsPerDay
    ensures g == Weekly ==> next == c + 7 * MsPerDay
  {
    match g
    case Daily => AdvanceDaily(c, next);
    case Weekly => AdvanceWeekly(c, next);
    case Monthly => AdvanceMonthly(c, next);
    case HalfYearly => AdvanceHalfYearly(c, next);
    case Yearly => AdvanceYearly(c, next);
  }

  lemma AdvanceDaily(c: int, next: int)
    requires next == Advance(Daily, c)
    ensures next == c + MsPerDay
  {
    AdvanceDays(c, 1);
  }

  lemma AdvanceWeekly(c: int, next: int)
    requires next == Advance(Weekly, c)
    ensures next == c + 7 * MsPerDay
  {
    AdvanceDays(c, 7);
  }

  lemma AdvanceMonthly(c: int, next: int)
    requires next == Advance(Monthly, c)
    ensures next >= c + 28 * MsPerDay
  {
    AdvanceMonths(c, CivilFromTime(c), 1, MonthFromTime(c) + 1);
  }

  lemma AdvanceHalfYearly(c: int, next: int)
    requires next == Advance(HalfYearly, c)
    ensures next >= c + 28 * MsPerDay
  {
    AdvanceMonths(c, CivilFromTime(c), 6, MonthFromTime(c) + 6);
  }

  lemma AdvanceYearly(c: int, next: int)
    requires next == Advance(Yearly, c)
    ensures next >= c + 364 * MsPerDay
  {
    AdvanceYear(c, CivilFromTime(c), YearFromTime(c) + 1);
  }

  /** Moving the date of c forward by k days moves it by exactly k days. */
  lemma AdvanceDays(c: int, k: int)
    ensures SetDate(c, DateFromTime(c) + k) == c + k * MsPerDay
  {
    SetDateShift(c, k);
  }

  /** Moving the month of c (whose date is cc) forward by k >= 1 moves it forward by at least 28 days. */
  lemma AdvanceMonths(c: int, cc: Civil, k: int, month: int)
    requires cc == CivilFromTime(c) && k >= 1 && month == cc.month + k
    ensures SetMonth(c, month) >= c + 28 * MsPerDay
  {
    MonthSteps(cc, k, month);
    MakeDayOfCivil(Day(c));
    MakeDateOfDay(c);
  }

  lemma MonthSteps(cc: Civil, k: int, month: int)
    requires k >= 1 && month == cc.month + k
    ensures MakeDay(cc.year, month, cc.date) >= MakeDay(cc.year, cc.month, cc.date) + 28
  {
    MonthStepsFrom(cc.year, cc.month, cc.date, k);
  }

  lemma {:induction false} MonthStepsFrom(y: int, m: int, d: int, k: int)
    requires k >= 1
    ensures MakeDay(y, m + k, d) >= MakeDay(y, m, d) + 28
    decreases k
  {
    MakeDayMonthStep(y, m + k - 1, d);
    if k > 1 {
      MonthStepsFrom(y, m, d, k - 1);
    }
  }

  /** Moving the year of c (whose date is cc) forward by one moves it forward by at least 364 days. */
  lemma AdvanceYear(c: int, cc: Civil, year: int)
    requires cc == CivilFromTime(c) && year == cc.year + 1
    ensures SetFullYear(c, year) >= c + 364 * MsPerDay
  {
    YearStep(cc);
    MakeDayOfCivil(Day(c));
    MakeDateOfDay(c);
  }

  lemma YearStep(cc: Civil)
    requires ValidCivil(cc)
    ensures MakeDay(cc.year + 1, cc.month, cc.date) >= MakeDay(cc.year, cc.month, cc.date) + 364
  {
    MakeDayYearStep(cc.year, cc.month, cc.date);
  }

  /** The function that advances a cursor of granularity g. */
  function Stepper(g: Granularity): int -> int {
    c => Advance(g, c)
  }

  lemma StepperMoves(g: Granularity)
    ensures forall c :: Stepper(g)(c) > c
  {
    forall c
      ensures Stepper(g)(c) > c
    {
      AdvanceMoves(g, c, Advance(g, c));
    }
  }

  /** The values c, next(c), next(next(c)), ... up to the first one past `until`, which is left out. */
  function Iterates(next: int -> int, c: int, until: int): (cs: seq<int>)
    requires forall x :: next(x) > x
    ensures |cs| == 0 <==> c > until
    ensures |cs| > 0 ==> cs[0] == c && next(cs[|cs| - 1]) > until
    ensures forall i :: 0 <= i < |cs| ==> c <= cs[i] <= until
    ensures forall i :: 0 <= i < |cs| - 1 ==> (cs[i + 1] == next(cs[i]))
    decreases if c <= until then until - c + 1 else 0
  {
    if c > until then []
    else
      var rest := Iterates(next, next(c), until);
      assert forall i :: 0 < i < |rest| ==> rest[i] == next(rest[i - 1]);
      [c] + rest
  }

  /** The cursors the loop of `splitIntoBuckets` visits. */
  function Cursors(g: Granularity, from: int, until: int): seq<int> {
    StepperMoves(g);
    Iterates(Stepper(g), from, until)
  }

  /** The bucket of granularity g around a cursor, as a function value. */
  function Maker(g: Granularity): int -> Bucket {
    c => BucketAt(g, c)
  }

  /** `at` applied to each of the cursors. */
  function Collect(at: int -> Bucket, cs: seq<int>): (bs: seq<Bucket>)
    ensures |bs| == |cs| && forall i {:trigger bs[i]} :: 0 <= i < |cs| ==> bs[i] == at(cs[i])
  {
    seq(|cs|, i requires 0 <= i < |cs| => at(cs[i]))
  }

  /** The buckets pushed for the cursors. */
  function Buckets(g: Granularity, from: int, until: int): (bs: seq<Bucket>)
    ensures |bs| == |Cursors(g, from, until)|
  {
    Collect(Maker(g), Cursors(g, from, until))
  }

  /** `buckets.filter((b) => b.start <= to)`, with `until` for `to`. */
  function KeepStartingBy(bs: seq<Bucket>, until: int): (r: seq<Bucket>)
    ensures forall b :: b in r <==> b in bs && b.start <= until
    ensures |r| <= |bs|
  {
    if bs == [] then []
    else if bs[0].start <= until then [bs[0]] + KeepStartingBy(bs[1..], until)
    else KeepStartingBy(bs[1..], until)
  }

  /** What `splitIntoBuckets` returns: the pushed buckets that start by `until`. */
  function RangeBuckets(g: Granularity, from: int, until: int): seq<Bucket> {
    KeepStartingBy(Buckets(g, from, until), until)
  }

  /**
   * Every cursor between `from` and `until` keeps its year: the granularity
   * is days or weeks, or the whole range lies after year 99 or before year 0.
   */
  predicate KeepsYears(g: Granularity, from: int, until: int) {
    g == Daily || g == Weekly || YearFromTime(from) >= 100 || YearFromTime(until) < 0
  }

  /** Under KeepsYears every time of the range keeps its year. */
  lemma KeepsYearsAt(g: Granularity, from: int, until: int, c: int)
    requires KeepsYears(g, from, until) && from <= c <= until
    ensures KeepsYear(g, c)
  {
    YearFromTimeMonotonic(from, c);
    YearFromTimeMonotonic(c, until);
  }

  /**
   * For months, half-years and years, a range that lies in years 0..99 gives
   * no bucket: every pushed bucket lies in year 1900 + year, after `until`,
   * so the final filter drops it.
   */
  lemma EarlyYearsDropped(g: Granularity, from: int, until: int)
    requires g == Monthly || g == HalfYearly || g == Yearly
    requires 0 <= YearFromTime(from) && YearFromTime(until) <= 99
    ensures RangeBuckets(g, from, until) == []
  {
    var bs := Buckets(g, from, until);
    var cs := Cursors(g, from, until);
    forall i | 0 <= i < |bs|
      ensures bs[i].start > until
    {
      assert bs[i] == BucketAt(g, cs[i]);
      YearFromTimeMonotonic(from, cs[i]);
      YearFromTimeMonotonic(cs[i], until);
      StartsAfter(g, cs[i], until);
    }
    KeepNone(bs, until);
  }

  /** The period around a cursor of a year 0..99 starts after every time up to year 99. */
  lemma StartsAfter(g: Granularity, c: int, t: int)
    requires g == Monthly || g == HalfYearly || g == Yearly
    requires 0 <= YearFromTime(c) <= 99 && YearFromTime(t) <= 99
    ensures t < PeriodRange(g, c).start
  {
    var y := YearFromTime(c);
    var m := MonthFromTime(c);
    var first := if g == Monthly then m else if g == HalfYearly && m >= 6 then 6 else 0;
    assert PeriodRange(g, c).start == NewDate(y, first, 1);
    BeforeEarlyNewDate(t, y, first, 1);
  }

  /** The final filter of `splitIntoBuckets` drops buckets that all start after `until`. */
  lemma {:induction false} KeepNone(bs: seq<Bucket>, until: int)
    requires forall i :: 0 <= i < |bs| ==> bs[i].start > until
    ensures KeepStartingBy(bs, until) == []
  {
    if bs != [] {
      KeepNone(bs[1..], until);
    }
  }

  /**
   * The loop of `splitIntoBuckets`: from `from`, push the bucket `at` makes for the cursor and
   * move the cursor on with `next`, while the cursor is at most `until`.
   */
  method PushBuckets(next: int -> int, at: int -> Bucket, from: int, until: int) returns (all: seq<Bucket>)
    requires forall x :: next(x) > x
    ensures all == Collect(at, Iterates(next, from, until))
  {
    ghost var cs := Iterates(next, from, until);
    all := [];
    var cursor := from;
    ghost var k := 0;
    while cursor <= until
      invariant 0 <= k <= |cs|
      invariant all == Collect(at, cs)[..k]
      invariant k < |cs| ==> cursor == cs[k]
      invariant k == |cs| ==> cursor > until
      decreases |cs| - k
    {
      all := all + [at(cursor)];
      cursor := next(cursor);
      k := k + 1;
    }
  }

  /** `splitIntoBuckets`: the buckets of the periods around the cursors from `from` up to `until`. */
  method SplitIntoBuckets(g: Granularity, from: int, until: int) returns (buckets: seq<Bucket>)
    ensures buckets == RangeBuckets(g, from, until)
    ensures KeepsYears(g, from, until) ==> buckets == Buckets(g, from, until)
  {
    StepperMoves(g);
    var all := PushBuckets(Stepper(g), Maker(g), from, until);
    assert all == Buckets(g, from, until);
    if KeepsYears(g, from, until) {
      RangeBucketsAll(g, from, until);
    }
    buckets := KeepStartingBy(all, until);
  }

  /** When every cursor keeps its year the final filter drops nothing. */
  lemma RangeBucketsAll(g: Granularity, from: int, until: int)
    requires KeepsYears(g, from, until)
    ensures RangeBuckets(g, from, until) == Buckets(g, from, until)
  {
    var bs := Buckets(g, from, until);
    var cs := Cursors(g, from, until);
    BucketsWithin(g, from, until);
    forall i | 0 <= i < |bs|
      ensures bs[i].start <= until
    {
      KeepsYearsAt(g, from, until, cs[i]);
    }
    KeepAll(bs, until);
  }

  /** The bucket pushed for cursor c covers the calendar period around c. */
  lemma BucketAtSpec(g: Granularity, c: int, b: Bucket)
    requires b == BucketAt(g, c)
    ensures Range(b.start, b.end) == ExpectedPeriod(g, c)
    ensures b.start <= c <= b.end <==> KeepsYear(g, c)
  {
    PeriodRangeSpec(g, c);
  }

  /**
   * Bucket i contains cursor i exactly when it keeps the cursor's year; then
   * it starts by `until`.
   */
  lemma BucketsWithin(g: Granularity, from: int, until: int)
    ensures var bs := Buckets(g, from, until); var cs := Cursors(g, from, until);
      forall i :: 0 <= i < |bs| ==>
        (bs[i].start <= cs[i] <= bs[i].end <==> KeepsYear(g, cs[i])) &&
        (KeepsYear(g, cs[i]) ==> bs[i].start <= until)
  {
    var bs := Buckets(g, from, until);
    var cs := Cursors(g, from, until);
    forall i | 0 <= i < |bs|
      ensures bs[i].start <= cs[i] <= bs[i].end <==> KeepsYear(g, cs[i])
      ensures KeepsYear(g, cs[i]) ==> bs[i].start <= until
    {
      BucketWithin(g, cs[i], bs[i], until);
    }
  }

  /** A bucket contains its cursor exactly when it keeps the cursor's year; then it starts by `until`. */
  lemma BucketWithin(g: Granularity, c: int, b: Bucket, until: int)
    requires b == BucketAt(g, c) && c <= until
    ensures b.start <= c <= b.end <==> KeepsYear(g, c)
    ensures KeepsYear(g, c) ==> b.start <= until
  {
  }

  /**
   * Bucket i covers the calendar period around cursor i; it contains the
   * cursor exactly when it keeps the cursor's year, and then starts by `until`.
   */
  lemma BucketsSpec(g: Granularity, from: int, until: int)
    ensures var bs := Buckets(g, from, until); var cs := Cursors(g, from, until);
      forall i :: 0 <= i < |bs| ==>
        Range(bs[i].start, bs[i].end) == ExpectedPeriod(g, cs[i]) &&
        (bs[i].start <= cs[i] <= bs[i].end <==> KeepsYear(g, cs[i])) &&
        (KeepsYear(g, cs[i]) ==> bs[i].start <= until)
  {
    var bs := Buckets(g, from, until);
    var cs := Cursors(g, from, until);
    forall i | 0 <= i < |bs|
      ensures Range(bs[i].start, bs[i].end) == ExpectedPeriod(g, cs[i])
      ensures bs[i].start <= cs[i] <= bs[i].end <==> KeepsYear(g, cs[i])
      ensures KeepsYear(g, cs[i]) ==> bs[i].start <= until
    {
      BucketAtSpec(g, cs[i], bs[i]);
    }
  }

  /** The final filter of `splitIntoBuckets` keeps every bucket. */
  lemma {:induction false} KeepAll(bs: seq<Bucket>, until: int)
    requires forall i :: 0 <= i < |bs| ==> bs[i].start <= until
    ensures KeepStartingBy(bs, until) == bs
  {
    if bs != [] {
      KeepAll(bs[1..], until);
    }
  }

  /** Each bucket starts right after the previous one ends. */
  predicate Adjacent(bs: seq<Bucket>) {
    forall i :: 0 <= i < |bs| - 1 ==> bs[i + 1].start == bs[i].end + 1
  }

  /** Buckets are contiguous when the bucket of each next cursor starts right after the bucket of the cursor. */
  lemma {:induction false} Contiguous(next: int -> int, at: int -> Bucket, c: int, until: int)
    requires forall x :: next(x) > x
    requires forall x :: at(next(x)).start == at(x).end + 1
    ensures Adjacent(Collect(at, Iterates(next, c, until)))
  {
    var cs := Iterates(next, c, until);
    var bs := Collect(at, cs);
    forall i | 0 <= i < |bs| - 1
      ensures bs[i + 1].start == bs[i].end + 1
    {
      assert bs[i + 1] == at(next(cs[i]));
    }
  }

  /** Daily buckets: one per day from `from`, each ending just before the next begins. */
  lemma DailyBuckets(from: int, until: int)
    requires from <= until
    ensures |Buckets(Daily, from, until)| == (until - from) / MsPerDay + 1
    ensures Adjacent(Buckets(Daily, from, until))
  {
    DailyCount(from, until);
    StepperMoves(Daily);
    DailySteps();
    Contiguous(Stepper(Daily), Maker(Daily), from, until);
  }

  /** Every bucket after a daily cursor's starts right after the cursor's. */
  lemma DailySteps()
    ensures forall x :: Maker(Daily)(Stepper(Daily)(x)).start == Maker(Daily)(x).end + 1
  {
    forall x
      ensures Maker(Daily)(Stepper(Daily)(x)).start == Maker(Daily)(x).end + 1
    {
      DailyStep(x);
    }
  }

  /** The bucket after a daily cursor's starts right after the cursor's. */
  lemma DailyStep(x: int)
    ensures BucketAt(Daily, Advance(Daily, x)).start == BucketAt(Daily, x).end + 1
  {
    AdvanceDays(x, 1);
    DayAfter(x, Advance(Daily, x));
  }

  /** The day after x starts just after x's day ends. */
  lemma DayAfter(x: int, y: int)
    requires y == x + MsPerDay
    ensures BucketAt(Daily, y).start == BucketAt(Daily, x).end + 1
  {
    DayBucket(x);
    DayBucket(y);
    DayShift(x, 1);
  }

  /** The daily bucket around x runs from its midnight to its last millisecond. */
  lemma DayBucket(x: int)
    ensures BucketAt(Daily, x).start == Day(x) * MsPerDay
    ensures BucketAt(Daily, x).end == Day(x) * MsPerDay + MsPerDay - 1
  {
    BucketAtSpec(Daily, x, BucketAt(Daily, x));
  }

  /** Daily cursors are whole days apart, one for every day up to `until`. */
  lemma {:induction false} DailyCount(c: int, until: int)
    requires c <= until
    ensures |Cursors(Daily, c, until)| == (until - c) / MsPerDay + 1
    decreases until - c
  {
    StepperMoves(Daily);
    var next := Stepper(Daily)(c);
    AdvanceDaily(c, next);
    assert Cursors(Daily, c, until) == [c] + Cursors(Daily, next, until);
    if c + MsPerDay <= until {
      DailyCount(c + MsPerDay, until);
    }
  }

  /** Weekly buckets: each week ends just before the next begins. */
  lemma WeeklyBuckets(from: int, until: int)
    ensures Adjacent(Buckets(Weekly, from, until))
  {
    StepperMoves(Weekly);
    WeeklySteps();
    Contiguous(Stepper(Weekly), Maker(Weekly), from, until);
  }

  /** Every bucket after a weekly cursor's starts right after the cursor's. */
  lemma WeeklySteps()
    ensures forall x :: Maker(Weekly)(Stepper(Weekly)(x)).start == Maker(Weekly)(x).end + 1
  {
    forall x
      ensures Maker(Weekly)(Stepper(Weekly)(x)).start == Maker(Weekly)(x).end + 1
    {
      WeeklyStep(x);
    }
  }

  /** The bucket after a weekly cursor's starts right after the cursor's. */
  lemma WeeklyStep(x: int)
    ensures BucketAt(Weekly, Advance(Weekly, x)).start == BucketAt(Weekly, x).end + 1
  {
    AdvanceDays(x, 7);
    WeekAfter(x, Advance(Weekly, x));
  }

  /** The week seven days after x starts just after x's week ends. */
  lemma WeekAfter(x: int, y: int)
    requires y == x + 7 * MsPerDay
    ensures BucketAt(Weekly, y).start == BucketAt(Weekly, x).end + 1
  {
    WeekBucket(x);
    WeekBucket(y);
    DayShift(x, 7);
    NextMonday(Day(x));
  }

  /** The weekly bucket around x runs from its Monday's midnight to the next Sunday's last millisecond. */
  lemma WeekBucket(x: int)
    ensures BucketAt(Weekly, x).start == MondayOf(Day(x)) * MsPerDay
    ensures BucketAt(Weekly, x).end == MondayOf(Day(x)) * MsPerDay + 7 * MsPerDay - 1
  {
    BucketAtSpec(Weekly, x, BucketAt(Weekly, x));
  }

  /** Seven days later the Monday is seven days later. */
  lemma NextMonday(n: int)
    ensures MondayOf(n + 7) == MondayOf(n) + 7
  {
    assert (n + 7 + 3) % 7 == (n + 3) % 7;
  }
}
