/**
 * JavaScript `Date` arithmetic on integer time values (milliseconds since
 * 1970-01-01T00:00:00Z), following the abstract operations of the
 * ECMAScript specification (Day, TimeWithinDay, DayFromYear, YearFromTime,
 * MonthFromTime, DateFromTime, WeekDay, MakeTime, MakeDay, MakeDate).
 * The local time zone is taken to be UTC, so local and universal time
 * values coincide.  Months are zero-based, as in JavaScript.
 */
module Calendar {

  const MsPerSecond: int := 1000
  const MsPerMinute: int := 60000
  const MsPerHour: int := 3600000
  const MsPerDay: int := 86400000

  /** Day(t): the day number of a time value (floor division). */
  function Day(t: int): int { t / MsPerDay }

  /** TimeWithinDay(t): milliseconds since midnight. */
  function TimeWithinDay(t: int): (r: int)
    ensures 0 <= r < MsPerDay
  {
    t % MsPerDay
  }

  predicate IsLeapYear(y: int) { y % 4 == 0 && (y % 100 != 0 || y % 400 == 0) }

  function DaysInYear(y: int): int { if IsLeapYear(y) then 366 else 365 }

  /** DayFromYear(y): the day number of January 1 of year y. */
  function DayFromYear(y: int): int {
    365 * (y - 1970) + (y - 1969) / 4 - (y - 1901) / 100 + (y - 1601) / 400
  }

  lemma DayFromYearStep(y: int)
    ensures DayFromYear(y + 1) == DayFromYear(y) + DaysInYear(y)
  {
    var z := y + 1;
    assert DayFromYear(z) == 365 * (y - 1970) + 365 + (y - 1968) / 4 - (y - 1900) / 100 + (y - 1600) / 400;
    FloorStep4(y - 1969, y - 1968);
    FloorStep100(y - 1901, y - 1900);
    FloorStep400(y - 1601, y - 1600);
    assert (y - 1968) % 4 == y % 4;
    assert (y - 1900) % 100 == y % 100;
    assert (y - 1600) % 400 == y % 400;
    LeapParts(y);
  }

  /** The length of a year by the three leap-year rules, counted separately. */
  lemma LeapParts(y: int)
    ensures DaysInYear(y) ==
      365 + (if y % 4 == 0 then 1 else 0) - (if y % 100 == 0 then 1 else 0) + (if y % 400 == 0 then 1 else 0)
  {
    if y % 400 == 0 {
      assert y == 100 * (4 * (y / 400));
      assert y == 4 * (100 * (y / 400));
    } else if y % 100 == 0 {
      assert y == 4 * (25 * (y / 100));
    }
  }

  // A floor quotient steps up by one exactly where the next value is a multiple of the divisor.

  lemma FloorStep4(a: int, b: int)
    requires b == a + 1
    ensures b / 4 == a / 4 + (if b % 4 == 0 then 1 else 0)
  {
  }

  lemma FloorStep100(a: int, b: int)
    requires b == a + 1
    ensures b / 100 == a / 100 + (if b % 100 == 0 then 1 else 0)
  {
  }

  lemma FloorStep400(a: int, b: int)
    requires b == a + 1
    ensures b / 400 == a / 400 + (if b % 400 == 0 then 1 else 0)
  {
  }

  /** Later years start on later days. */
  lemma {:induction false} DayFromYearMonotonic(y1: int, y2: int)
    requires y1 < y2
    ensures DayFromYear(y1 + 1) <= DayFromYear(y2)
    decreases y2 - y1
  {
    DayFromYearStep(y1);
    if y1 + 1 < y2 {
      DayFromYearMonotonic(y1 + 1, y2);
      DayFromYearStep(y1 + 1);
    }
  }

  /** Every 400 years take exactly 146097 days. */
  lemma DayFromYearEra(q: int)
    ensures DayFromYear(2000 + 400 * q) == 10957 + 146097 * q
  {
    assert (31 + 400 * q) / 4 == 7 + 100 * q;
    assert (99 + 400 * q) / 100 == 4 * q;
    assert (399 + 400 * q) / 400 == q;
  }

  /** The year containing day n, found by counting years upward from y. */
  function YearSearch(n: int, y: int): (r: int)
    requires DayFromYear(y) <= n
    ensures y <= r
    ensures DayFromYear(r) <= n < DayFromYear(r + 1)
    decreases n - DayFromYear(y)
  {
    DayFromYearStep(y);
    if n < DayFromYear(y + 1) then y else YearSearch(n, y + 1)
  }

  /** The year that contains day number n. */
  function YearFromDay(n: int): (y: int)
    ensures DayFromYear(y) <= n < DayFromYear(y + 1)
  {
    var q := (n - 10957) / 146097;
    DayFromYearEra(q);
    YearSearch(n, 2000 + 400 * q)
  }

  /** Exactly one year contains a given day. */
  lemma YearsUnique(n: int, y1: int, y2: int)
    requires DayFromYear(y1) <= n < DayFromYear(y1 + 1)
    requires DayFromYear(y2) <= n < DayFromYear(y2 + 1)
    ensures y1 == y2
  {
    if y1 < y2 {
      DayFromYearMonotonic(y1, y2);
    } else if y2 < y1 {
      DayFromYearMonotonic(y2, y1);
    }
  }

  /** Days of year y before the first day of month m (m = 12: the whole year). */
  function DaysBeforeMonth(y: int, m: int): (r: int)
    requires 0 <= m <= 12
    ensures m == 0 ==> r == 0
    ensures m == 12 ==> r == DaysInYear(y)
  {
    (367 * m + 5) / 12 - (if m < 2 then 0 else if IsLeapYear(y) then 1 else 2)
  }

  /** The number of days of month m of year y. */
  function DaysInMonth(y: int, m: int): (r: int)
    requires 0 <= m < 12
    ensures 28 <= r <= 31
    ensures m == 1 ==> (r == 29 <==> IsLeapYear(y))
  {
    DaysBeforeMonth(y, m + 1) - DaysBeforeMonth(y, m)
  }

  lemma {:induction false} DaysBeforeMonthMonotonic(y: int, a: int, b: int)
    requires 0 <= a < b <= 12
    ensures DaysBeforeMonth(y, a + 1) <= DaysBeforeMonth(y, b)
    decreases b - a
  {
    if a + 1 < b {
      DaysBeforeMonthMonotonic(y, a + 1, b);
    }
  }

  /** The month of year y holding day d of the year, searching down from m. */
  function MonthSearch(y: int, d: int, m: int): (r: int)
    requires 0 <= m < 12
    requires 0 <= d < DaysBeforeMonth(y, m + 1)
    ensures 0 <= r <= m
    ensures DaysBeforeMonth(y, r) <= d < DaysBeforeMonth(y, r + 1)
    decreases m
  {
    if DaysBeforeMonth(y, m) <= d then m else MonthSearch(y, d, m - 1)
  }

  /** Exactly one month holds a given day of the year. */
  lemma MonthUnique(y: int, d: int, m1: int, m2: int)
    requires 0 <= m1 < 12 && 0 <= m2 < 12
    requires DaysBeforeMonth(y, m1) <= d < DaysBeforeMonth(y, m1 + 1)
    requires DaysBeforeMonth(y, m2) <= d < DaysBeforeMonth(y, m2 + 1)
    ensures m1 == m2
  {
    if m1 < m2 {
      DaysBeforeMonthMonotonic(y, m1, m2);
    } else if m2 < m1 {
      DaysBeforeMonthMonotonic(y, m2, m1);
    }
  }

  /** A calendar date: year, zero-based month, day of the month. */
  datatype Civil = Civil(year: int, month: int, date: int)

  predicate ValidCivil(c: Civil) {
    0 <= c.month < 12 && 1 <= c.date <= DaysInMonth(c.year, c.month)
  }

  /** The calendar date of day number n. */
  function CivilFromDay(n: int): (c: Civil)
    ensures ValidCivil(c)
    ensures DayFromYear(c.year) + DaysBeforeMonth(c.year, c.month) + c.date - 1 == n
  {
    var y := YearFromDay(n);
    DayFromYearStep(y);
    CivilInYear(y, n - DayFromYear(y))
  }

  /** The calendar date of day d (counted from 0) of year y. */
  function CivilInYear(y: int, d: int): (c: Civil)
    requires 0 <= d < DaysInYear(y)
    ensures ValidCivil(c) && c.year == y
    ensures DaysBeforeMonth(y, c.month) + c.date - 1 == d
  {
    var m := MonthSearch(y, d, 11);
    Civil(y, m, d - DaysBeforeMonth(y, m) + 1)
  }

  /** MakeDay(year, month, date): months outside 0..11 roll into the year, and
      dates outside the month roll into the neighbouring months. */
  function MakeDay(year: int, month: int, date: int): int {
    var ym := year + month / 12;
    var mn := month % 12;
    DayFromYear(ym) + DaysBeforeMonth(ym, mn) + date - 1
  }

  /** MakeDay inverts CivilFromDay. */
  lemma MakeDayOfCivil(n: int)
    ensures var c := CivilFromDay(n); MakeDay(c.year, c.month, c.date) == n
  {
    var c := CivilFromDay(n);
    MakeDayInRange(c.year, c.month, c.date);
  }

  /** On an in-range month MakeDay needs no normalisation. */
  lemma MakeDayInRange(y: int, m: int, d: int)
    requires 0 <= m < 12
    ensures MakeDay(y, m, d) == DayFromYear(y) + DaysBeforeMonth(y, m) + d - 1
  {
    assert m / 12 == 0 && m % 12 == m;
  }

  /** A valid date lies inside its year. */
  lemma DateInYear(y: int, m: int, d: int)
    requires ValidCivil(Civil(y, m, d))
    ensures 0 <= DaysBeforeMonth(y, m) <= DaysBeforeMonth(y, m) + d - 1 < DaysInYear(y)
  {
    DaysBeforeMonthMonotonic(y, m, 12);
    if m > 0 {
      DaysBeforeMonthMonotonic(y, 0, m);
    }
  }

  /** The calendar date of a day given by year, month and date. */
  lemma CivilFromDayParts(n: int, y: int, m: int, d: int)
    requires ValidCivil(Civil(y, m, d))
    requires n == DayFromYear(y) + DaysBeforeMonth(y, m) + d - 1
    ensures CivilFromDay(n) == Civil(y, m, d)
  {
    var c := CivilFromDay(n);
    YearOfDay(n, y, m, d);
    var dd := n - DayFromYear(y);
    assert DaysBeforeMonth(y, c.month) <= dd < DaysBeforeMonth(y, c.month + 1);
    assert DaysBeforeMonth(y, m) <= dd < DaysBeforeMonth(y, m + 1);
    MonthUnique(y, dd, c.month, m);
  }

  /** The year part of CivilFromDayParts. */
  lemma YearOfDay(n: int, y: int, m: int, d: int)
    requires ValidCivil(Civil(y, m, d))
    requires n == DayFromYear(y) + DaysBeforeMonth(y, m) + d - 1
    ensures CivilFromDay(n).year == y
  {
    var c := CivilFromDay(n);
    DateInYear(y, m, d);
    DateInYear(c.year, c.month, c.date);
    DayFromYearStep(y);
    DayFromYearStep(c.year);
    YearsUnique(n, c.year, y);
  }

  /** CivilFromDay inverts MakeDay on valid dates. */
  lemma CivilOfMakeDay(y: int, m: int, d: int)
    requires ValidCivil(Civil(y, m, d))
    ensures CivilFromDay(MakeDay(y, m, d)) == Civil(y, m, d)
  {
    MakeDayInRange(y, m, d);
    CivilFromDayParts(MakeDay(y, m, d), y, m, d);
  }

  /** Month and date arguments of MakeDay are normalised the way Date does it. */
  lemma MakeDayShift(y: int, m: int, d: int, k: int)
    ensures MakeDay(y, m, d + k) == MakeDay(y, m, d) + k
  {
  }

  /** Date 0 of a month is the last day of the month before. */
  lemma MakeDayZero(y: int, m: int)
    requires 0 <= m < 12
    ensures MakeDay(y, m + 1, 0) == MakeDay(y, m, DaysInMonth(y, m))
  {
    if m == 11 {
      MakeDayZeroDecember(y);
    } else {
      MakeDayInRange(y, m, DaysInMonth(y, m));
      MakeDayInRange(y, m + 1, 0);
    }
  }

  lemma MakeDayZeroDecember(y: int)
    ensures MakeDay(y, 12, 0) == MakeDay(y, 11, 31)
  {
    DayFromYearStep(y);
    MakeDayInRange(y, 11, 31);
    assert MakeDay(y, 12, 0) == DayFromYear(y + 1) + DaysBeforeMonth(y + 1, 0) - 1;
  }

  /** Advancing the month argument by one moves the day forward by at least 28. */
  lemma MakeDayMonthStep(y: int, m: int, d: int)
    ensures MakeDay(y, m + 1, d) >= MakeDay(y, m, d) + 28
  {
    var ym := y + m / 12;
    var mn := m % 12;
    if mn < 11 {
      assert (m + 1) / 12 == m / 12 && (m + 1) % 12 == mn + 1;
      assert DaysInMonth(ym, mn) >= 28;
    } else {
      assert (m + 1) / 12 == m / 12 + 1 && (m + 1) % 12 == 0;
      DayFromYearStep(ym);
    }
  }

  /** Advancing the year argument by one moves the day forward by at least 364. */
  lemma MakeDayYearStep(y: int, m: int, d: int)
    requires 0 <= m < 12
    ensures MakeDay(y + 1, m, d) >= MakeDay(y, m, d) + 364
  {
    MakeDayInRange(y, m, d);
    MakeDayInRange(y + 1, m, d);
    DayFromYearStep(y);
  }

  /** Within one year, later (month, date) pairs are later days. */
  lemma MakeDayOrder(y: int, m1: int, d1: int, m2: int, d2: int)
    requires ValidCivil(Civil(y, m1, d1)) && ValidCivil(Civil(y, m2, d2))
    requires m1 < m2 || (m1 == m2 && d1 <= d2)
    ensures MakeDay(y, m1, d1) <= MakeDay(y, m2, d2)
  {
    MakeDayInRange(y, m1, d1);
    MakeDayInRange(y, m2, d2);
    if m1 < m2 {
      DaysBeforeMonthMonotonic(y, m1, m2);
    }
  }

  /** MakeTime(hour, min, sec, ms). */
  function MakeTime(h: int, min: int, s: int, ms: int): int {
    h * MsPerHour + min * MsPerMinute + s * MsPerSecond + ms
  }

  /** MakeDate(day, time). */
  function MakeDate(day: int, time: int): int { day * MsPerDay + time }

  lemma DayOfMakeDate(day: int, time: int)
    requires 0 <= time < MsPerDay
    ensures Day(MakeDate(day, time)) == day
    ensures TimeWithinDay(MakeDate(day, time)) == time
  {
    var t := MakeDate(day, time);
    assert t == day * MsPerDay + time;
  }

  /** Adding k whole days keeps the time of day. */
  lemma DayShift(t: int, k: int)
    ensures Day(t + k * MsPerDay) == Day(t) + k
    ensures TimeWithinDay(t + k * MsPerDay) == TimeWithinDay(t)
  {
    DayOfMakeDate(Day(t) + k, TimeWithinDay(t));
    assert t + k * MsPerDay == MakeDate(Day(t) + k, TimeWithinDay(t));
  }

  lemma MakeDateOfDay(t: int)
    ensures MakeDate(Day(t), TimeWithinDay(t)) == t
  {
  }

  // Field getters of a time value (getFullYear, getMonth, getDate, getDay,
  // getHours, getMinutes).

  function CivilFromTime(t: int): Civil { CivilFromDay(Day(t)) }
  function YearFromTime(t: int): int { CivilFromTime(t).year }
  function MonthFromTime(t: int): int { CivilFromTime(t).month }
  function DateFromTime(t: int): int { CivilFromTime(t).date }

  /** WeekDay(t): 0 is Sunday, 1 is Monday, ..., 6 is Saturday. */
  function WeekDay(t: int): (r: int)
    ensures 0 <= r < 7
  {
    (Day(t) + 4) % 7
  }

  function HourFromTime(t: int): int { (t / MsPerHour) % 24 }
  function MinFromTime(t: int): int { (t / MsPerMinute) % 60 }

  // The Date constructor and setters used by the source, on time values.

  /** MakeFullYear: the Date constructor reads a year 0..99 as 1900 + year. */
  function FullYear(y: int): (r: int)
    ensures 0 <= y <= 99 ==> r == 1900 + y
    ensures !(0 <= y <= 99) ==> r == y
  {
    if 0 <= y <= 99 then 1900 + y else y
  }

  /** `new Date(y, m, d)`: midnight of the (normalised) date, in year FullYear(y). */
  function NewDate(y: int, m: int, d: int): int { MakeDate(MakeDay(FullYear(y), m, d), 0) }

  /** `x.setHours(h, min, s, ms)`: the same day at another time. */
  function SetHours(t: int, h: int, min: int, s: int, ms: int): int {
    MakeDate(Day(t), MakeTime(h, min, s, ms))
  }

  /** `x.setDate(d)`: another date of the same month, rolling over. */
  function SetDate(t: int, d: int): int {
    MakeDate(MakeDay(YearFromTime(t), MonthFromTime(t), d), TimeWithinDay(t))
  }

  /** `x.setMonth(m)`: the same date of another month, rolling over. */
  function SetMonth(t: int, m: int): int {
    MakeDate(MakeDay(YearFromTime(t), m, DateFromTime(t)), TimeWithinDay(t))
  }

  /** `x.setFullYear(y)`: the same month and date of another year, rolling over. */
  function SetFullYear(t: int, y: int): int {
    MakeDate(MakeDay(y, MonthFromTime(t), DateFromTime(t)), TimeWithinDay(t))
  }

  /** Moving the date by k days moves the time value by k whole days. */
  lemma SetDateShift(t: int, k: int)
    ensures SetDate(t, DateFromTime(t) + k) == t + k * MsPerDay
  {
    MakeDayOfCivil(Day(t));
    MakeDayShift(YearFromTime(t), MonthFromTime(t), DateFromTime(t), k);
  }

  /** The fields of `new Date(y, m, d)` for a valid date. */
  lemma NewDateFields(y: int, m: int, d: int)
    requires ValidCivil(Civil(FullYear(y), m, d))
    ensures CivilFromTime(NewDate(y, m, d)) == Civil(FullYear(y), m, d)
    ensures TimeWithinDay(NewDate(y, m, d)) == 0
  {
    DayOfMakeDate(MakeDay(FullYear(y), m, d), 0);
    CivilOfMakeDay(FullYear(y), m, d);
  }

  /** Later time values never fall in earlier years. */
  lemma YearFromTimeMonotonic(a: int, b: int)
    requires a <= b
    ensures YearFromTime(a) <= YearFromTime(b)
  {
    var ca, cb := CivilFromTime(a), CivilFromTime(b);
    DateInYear(ca.year, ca.month, ca.date);
    DateInYear(cb.year, cb.month, cb.date);
    DayFromYearStep(ca.year);
    DayFromYearStep(cb.year);
    assert Day(a) <= Day(b);
    if cb.year < ca.year {
      DayFromYearMonotonic(cb.year, ca.year);
    }
  }

  /** A time of an earlier year comes before every day of year y. */
  lemma BeforeYear(t: int, y: int, m: int, d: int)
    requires YearFromTime(t) < y && 0 <= m < 12 && 1 <= d
    ensures t < MakeDate(MakeDay(y, m, d), 0)
  {
    DayBeforeYear(Day(t), y, m, d);
    MakeDateOfDay(t);
  }

  /** A day of an earlier year comes before every day of year y. */
  lemma DayBeforeYear(n: int, y: int, m: int, d: int)
    requires CivilFromDay(n).year < y && 0 <= m < 12 && 1 <= d
    ensures n < MakeDay(y, m, d)
  {
    var c := CivilFromDay(n);
    DateInYear(c.year, c.month, c.date);
    DayFromYearStep(c.year);
    DayFromYearMonotonic(c.year, y);
    MakeDayInRange(y, m, d);
    if m > 0 {
      DaysBeforeMonthMonotonic(y, 0, m);
    }
  }

  /** A time up to year 99 comes before every date that `new Date` builds
      from a year 0..99, since those lie in year 1900 + year. */
  lemma BeforeEarlyNewDate(t: int, y: int, m: int, d: int)
    requires YearFromTime(t) <= 99 && 0 <= y <= 99
    requires 0 <= m < 12 && 1 <= d
    ensures t < NewDate(y, m, d)
  {
    BeforeYear(t, 1900 + y, m, d);
  }
}
