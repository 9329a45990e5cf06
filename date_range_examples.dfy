/**
 * Worked examples of the date-range utilities: the week of Monday
 * 2024-08-05 and the ISO week title the report shows for it.
 */
module DateRangeExamples {
  import opened Text
  import opened Calendar
  import opened ReportTypes
  import opened DateRange

  // The documented example: the week of Monday 2024-08-05 (day 19940).

  /** Day numbers of times between two midnights. */
  lemma DayBetween(t: int, a: int, b: int)
    requires a * MsPerDay <= t < b * MsPerDay
    ensures a <= Day(t) < b
  {
  }

  lemma ExampleBounds()
    ensures NewDate(2024, 7, 5) == 19940 * MsPerDay && NewDate(2024, 7, 12) == 19947 * MsPerDay
  {
    MakeDayInRange(2024, 7, 5);
    MakeDayInRange(2024, 7, 12);
  }

  /** The calendar date of the start and the end of day n, for a valid date of day n. */
  lemma ExampleCivil(n: int, y: int, m: int, d: int)
    requires ValidCivil(Civil(y, m, d)) && MakeDay(y, m, d) == n
    ensures CivilFromTime(n * MsPerDay) == Civil(y, m, d)
    ensures CivilFromTime(n * MsPerDay + MsPerDay - 1) == Civil(y, m, d)
  {
    DayOfMakeDate(n, 0);
    DayOfMakeDate(n, MsPerDay - 1);
    CivilOfMakeDay(y, m, d);
  }

  lemma ExampleDigits()
    ensures IntToString(2024) == "2024" && IntToString(32) == "32"
  {
    assert NatToString(2) == "2" && NatToString(3) == "3";
    assert NatToString(20) == "20" && NatToString(32) == "32";
    assert NatToString(202) == "202";
  }

  lemma ExampleText()
    ensures TitleText(2024, 32, Civil(2024, 7, 5), Civil(2024, 7, 11)) == "2024 年 第 32 周（08-05 ~ 08-11）"
  {
    ExampleDigits();
    ExamplePads();
  }

  lemma ExamplePads()
    ensures Pad(8) == "08" && Pad(5) == "05" && Pad(11) == "11" && Pad(1) == "01"
  {
    assert NatToString(1) == "1";
  }

  /** Day 19935 + d is 2024-08-d, at its first and at its last millisecond. */
  lemma AugustDate(n: int, y: int, m: int, d: int)
    requires y == 2024 && m == 7 && 1 <= d <= 31 && n == 19935 + d
    ensures CivilFromTime(n * MsPerDay) == Civil(y, m, d)
    ensures CivilFromTime(n * MsPerDay + MsPerDay - 1) == Civil(y, m, d)
  {
    assert m / 12 == 0 && m % 12 == 7;
    assert MakeDay(y, m, d) == n;
    ExampleCivil(n, y, m, d);
  }

  /** Day 19723 is 2024-01-01. */
  lemma NewYear2024(y: int)
    requires y == 2024
    ensures NewDate(y, 0, 1) == 19723 * MsPerDay
  {
    assert MakeDay(y, 0, 1) == 19723;
  }

  /** The title of the week of Monday 2024-08-05. */
  lemma ExampleWeekTitle(start: int, end: int)
    requires start == 19940 * MsPerDay && end == 19946 * MsPerDay + MsPerDay - 1
    ensures WeekTitle(Range(start, end)) == "2024 年 第 32 周（08-05 ~ 08-11）"
  {
    AugustDate(19940, 2024, 7, 5);
    AugustDate(19946, 2024, 7, 11);
    ExampleWeekYear(start);
    ExampleWeekNumber(start);
    ExampleText();
  }

  /** The Thursday of that week falls in 2024, the week-year. */
  lemma ExampleWeekYear(start: int)
    requires start == 19940 * MsPerDay
    ensures YearFromTime(SetDate(start, DateFromTime(start) + 3)) == 2024
  {
    AugustDate(19940, 2024, 7, 5);
    SetDateShift(start, 3);
    AugustDate(19943, 2024, 7, 8);
  }

  /** Its week number, counted from 2024-01-01, is 32. */
  lemma ExampleWeekNumber(start: int)
    requires start == 19940 * MsPerDay
    ensures WeekNumber(start, NewDate(2024, 0, 1)) == 32
  {
    NewYear2024(2024);
  }

  /** `autoWeekTitle` for any time in the week of 2024-08-05. */
  lemma AutoWeekTitleExample(t: int)
    requires NewDate(2024, 7, 5) <= t < NewDate(2024, 7, 12)
    ensures AutoWeekTitle(t) == "2024 年 第 32 周（08-05 ~ 08-11）"
  {
    ExampleBounds();
    DayBetween(t, 19940, 19947);
    WeekRangeOfMonday(t, 19940);
    ExampleWeekTitle(19940 * MsPerDay, 19946 * MsPerDay + MsPerDay - 1);
  }

  // Monthly buckets over the first quarter of 2024 (days 19723 .. 19813).

  /** A monthly cursor at the midnight starting the first of a month moves to the next month's first. */
  lemma MonthStep(y: int, m: int, n: int, n2: int)
    requires CivilFromTime(n * MsPerDay) == Civil(y, m, 1) && n2 == MakeDay(y, m + 1, 1)
    ensures Advance(Monthly, n * MsPerDay) == n2 * MsPerDay
  {
    DayOfMakeDate(n, 0);
    assert TimeWithinDay(n * MsPerDay) == 0;
  }

  /** The midnight of day n is on the first of month m of year y. */
  lemma FirstOfMonth(y: int, m: int, n: int)
    requires 0 <= m < 12 && n == MakeDay(y, m, 1)
    ensures CivilFromTime(n * MsPerDay) == Civil(y, m, 1)
  {
    ExampleCivil(n, y, m, 1);
  }

  /** The monthly cursor on the first of month m of year y moves to the first of month m + 1. */
  lemma NextFirst(y: int, m: int, n: int, n2: int)
    requires 0 <= m < 11 && n == MakeDay(y, m, 1) && n2 == MakeDay(y, m + 1, 1)
    ensures Advance(Monthly, n * MsPerDay) == n2 * MsPerDay
  {
    FirstOfMonth(y, m, n);
    MonthStep(y, m, n, n2);
  }

  /** The day numbers of the firsts of January to April 2024 and of 2024-03-31. */
  lemma QuarterDays(y: int)
    requires y == 2024
    ensures MakeDay(y, 0, 1) == 19723 && MakeDay(y, 1, 1) == 19754
    ensures MakeDay(y, 2, 1) == 19783 && MakeDay(y, 3, 1) == 19814
    ensures MakeDay(y, 2, 31) == 19813
  {
    NewYear2024(y);
  }

  /** The cursors from 2024-01-01 to 2024-03-31 are the firsts of January, February and March. */
  lemma QuarterCursors(y: int, na: int, nb: int, nc: int, nd: int, until: int)
    requires y == 2024 && na == MakeDay(y, 0, 1) && nb == MakeDay(y, 1, 1)
    requires nc == MakeDay(y, 2, 1) && nd == MakeDay(y, 3, 1)
    requires until == MakeDay(y, 2, 31) * MsPerDay
    ensures Cursors(Monthly, na * MsPerDay, until) == [na * MsPerDay, nb * MsPerDay, nc * MsPerDay]
  {
    StepperMoves(Monthly);
    QuarterDays(y);
    NextFirst(y, 0, na, nb);
    NextFirst(y, 1, nb, nc);
    NextFirst(y, 2, nc, nd);
    var a, b, c, d := na * MsPerDay, nb * MsPerDay, nc * MsPerDay, nd * MsPerDay;
    assert Stepper(Monthly)(a) == b && Stepper(Monthly)(b) == c && Stepper(Monthly)(c) == d;
    ThreeIterates(Stepper(Monthly), a, b, c, d, until);
  }

  /** Three steps of `next`, the third past `until`, give three iterates. */
  lemma ThreeIterates(next: int -> int, a: int, b: int, c: int, d: int, until: int)
    requires forall x :: next(x) > x
    requires next(a) == b && next(b) == c && next(c) == d && c <= until < d
    ensures Iterates(next, a, until) == [a, b, c]
  {
    var fromC := [c];
    var fromB := [b] + fromC;
    assert Iterates(next, d, until) == [];
    IterateStep(next, c, until, []);
    IterateStep(next, b, until, fromC);
    IterateStep(next, a, until, fromB);
    ThreeCursors(a, b, c);
  }

  /** The iterates from a cursor within bounds: the cursor, then the iterates from its successor. */
  lemma IterateStep(next: int -> int, c: int, until: int, rest: seq<int>)
    requires forall x :: next(x) > x
    requires c <= until && rest == Iterates(next, next(c), until)
    ensures Iterates(next, c, until) == [c] + rest
  {
  }

  lemma ThreeCursors(a: int, b: int, c: int)
    ensures [a] + ([b] + [c]) == [a, b, c]
  {
  }

  /** The monthly bucket of the first of month m of a year y from 100 on is labelled "y-MM". */
  lemma MonthLabel(y: int, m: int, n: int, t: int)
    requires y >= 100 && 0 <= m < 12 && n == MakeDay(y, m, 1) && t == n * MsPerDay
    ensures BucketAt(Monthly, t).labelText == IntToString(y) + "-" + Pad(m + 1)
  {
    FirstOfMonth(y, m, n);
    assert YearFromTime(t) == y && MonthFromTime(t) == m;
    assert FullYear(y) == y;
    var start := PeriodRange(Monthly, t).start;
    assert start == NewDate(y, m, 1) == t;
  }

  /** The monthly bucket of 2024-01-01 is labelled 2024-01. */
  lemma JanuaryBucket(y: int, m: int, n: int, t: int)
    requires y == 2024 && m == 0 && n == MakeDay(y, m, 1) && t == n * MsPerDay
    ensures BucketAt(Monthly, t).labelText == "2024-01"
  {
    MonthLabel(y, m, n, t);
    JanuaryLabel(y, m, BucketAt(Monthly, t).labelText);
  }

  lemma JanuaryLabel(y: int, m: int, text: string)
    requires y == 2024
    requires m == 0
    requires text == IntToString(y) + "-" + Pad(m + 1)
    ensures text == "2024-01"
  {
    ExampleDigits();
    ExamplePads();
  }

  /** Splitting 2024-01-01 .. 2024-03-31 by month gives three buckets, the first labelled 2024-01. */
  lemma QuarterBuckets(y: int, from: int, until: int)
    requires y == 2024 && from == NewDate(y, 0, 1) && until == NewDate(y, 2, 31)
    ensures |Buckets(Monthly, from, until)| == 3
    ensures Buckets(Monthly, from, until)[0].labelText == "2024-01"
    ensures RangeBuckets(Monthly, from, until) == Buckets(Monthly, from, until)
  {
    var na, nb, nc, nd := MakeDay(y, 0, 1), MakeDay(y, 1, 1), MakeDay(y, 2, 1), MakeDay(y, 3, 1);
    assert from == na * MsPerDay;
    QuarterCursors(y, na, nb, nc, nd, until);
    var bs := Buckets(Monthly, from, until);
    assert bs[0] == BucketAt(Monthly, from);
    JanuaryBucket(y, 0, na, from);
    FirstOfMonth(y, 0, na);
    RangeBucketsAll(Monthly, from, until);
  }

  /**
   * `lastDayOfMonth(0, 1)` is 28: `new Date` reads year 0 as 1900, which is
   * not a leap year, although year 0 is.
   */
  lemma FebruaryOfYearZero(y: int)
    requires y == 0
    ensures IsLeapYear(y) && LastDayOfMonth(y, 1) == 28
  {
    assert FullYear(y) == 1900;
    FebruaryNotLeap(y);
  }

  /** February has 28 days in a year `new Date` reads as a common year. */
  lemma FebruaryNotLeap(y: int)
    requires !IsLeapYear(FullYear(y))
    ensures LastDayOfMonth(y, 1) == 28
  {
    LastDayOfMonthIsLength(y, 1);
    assert DaysInMonth(FullYear(y), 1) == 28;
  }
}
