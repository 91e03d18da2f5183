/** The backup's time stamp: seconds since 1970 to a proleptic Gregorian date and time of day, for
    every integer second, before the epoch and before year zero alike. */
module CivilDate {
  import opened Power

  datatype Date = Date(year: int, month: int, day: int)

  datatype Stamp = Stamp(weekday: int, date: Date, hour: int, minute: int, second: int)

  // ------------------------------------------------------------------ the calendar

  predicate Leap(y: int) {
    y % 4 == 0 && (y % 100 != 0 || y % 400 == 0)
  }

  function DaysInMonth(y: int, m: int): int {
    if m == 2 then (if Leap(y) then 29 else 28)
    else if m == 4 || m == 6 || m == 9 || m == 11 then 30
    else 31
  }

  predicate ValidDate(d: Date) {
    1 <= d.month <= 12 && 1 <= d.day <= DaysInMonth(d.year, d.month)
  }

  function Tomorrow(d: Date): Date {
    if d.day < DaysInMonth(d.year, d.month) then d.(day := d.day + 1)
    else if d.month < 12 then Date(d.year, d.month + 1, 1)
    else Date(d.year + 1, 1, 1)
  }

  /** Days from 1 January of year 1 to 1 January of a year. */
  function DaysBeforeYear(y: int): int {
    var p := y - 1;
    365 * p + p / 4 - p / 100 + p / 400
  }

  /** Days from 1 January to the first of a month. */
  function DaysBeforeMonth(y: int, m: int): int
    decreases m
  {
    if m <= 1 then 0 else DaysBeforeMonth(y, m - 1) + DaysInMonth(y, m - 1)
  }

  /** Days since 1 January 1970. */
  function DaysOf(d: Date): int {
    DaysBeforeYear(d.year) + DaysBeforeMonth(d.year, d.month) + d.day - 1 - 719_162
  }

  // ------------------------------------------------------------------ the algorithm

  /** Civil-from-days: years counted from March, in 400-year eras. */
  function CivilOf(days: int): Date {
    var z := days + 719_468;
    var era, doe := z / 146_097, z % 146_097;
    var yoe := YearOfEra(doe);
    var y := yoe + era * 400;
    var doy := doe - (365 * yoe + yoe / 4 - yoe / 100);
    var mp := (5 * doy + 2) / 153;
    var d := doy - (153 * mp + 2) / 5 + 1;
    var m := if mp < 10 then mp + 3 else mp - 9;
    Date(if m <= 2 then y + 1 else y, m, d)
  }

  function YearOfEra(doe: int): int {
    (doe - doe / 1460 + doe / 36_524 - doe / 146_096) / 365
  }

  /** `backup_date`, before its digits are printed. */
  function BackupDate(now: int): Stamp {
    var days, rem := now / 86_400, now % 86_400;
    Stamp((days + 4) % 7, CivilOf(days), rem / 3600, rem % 3600 / 60, rem % 60)
  }

  // ------------------------------------------------------------------ years of an era

  /** Days before a year of an era, years counted from March. */
  function EraDays(y: int): int {
    365 * y + y / 4 - y / 100
  }

  /** The estimate is exact: a day of an era falls in its year, and only the last day of the era is
      past the ordinary end of its. */
  lemma YearOfEraExact(doe: int)
    requires 0 <= doe < 146_097
    ensures var y := YearOfEra(doe);
            0 <= y < 400 && EraDays(y) <= doe && (doe < EraDays(y + 1) || (y == 399 && doe == 146_096))
  {
    if doe == 146_096 {
      assert YearOfEra(doe) == 399;
    } else {
      var c, e := doe / 36_524, doe % 36_524;
      var q, f := e / 1461, e % 1461;
      var t := if q + f + 24 * c >= 1460 then 1 else 0;
      DivModUnique(doe, 1460, 25 * c + q + t, 24 * c + q + f - 1460 * t);
      var r := if f >= 1095 then 3 else f / 365;
      DivModUnique(f - t, 365, r, f - t - 365 * r);
      DivModUnique(doe - doe / 1460 + c, 365, 100 * c + 4 * q + r, f - t - 365 * r);
      DivModUnique(doe, 146_096, 0, doe);
      var w := 4 * q + r;
      var y := 100 * c + w;
      assert YearOfEra(doe) == y;
      CenturyYears(c, q, r);
    }
  }

  lemma CenturyYears(c: int, q: int, r: int)
    requires 0 <= c <= 3 && 0 <= q <= 24 && 0 <= r <= 3
    ensures EraDays(100 * c + 4 * q + r) == 36_524 * c + 1461 * q + 365 * r
    ensures r < 3 ==> EraDays(100 * c + 4 * q + r + 1) == 36_524 * c + 1461 * q + 365 * r + 365
    ensures r == 3 ==> EraDays(100 * c + 4 * q + r + 1) == 36_524 * c + 1461 * q + 1461 - if q == 24 then 1 else 0
  {
    var w := 4 * q + r;
    var y := 100 * c + w;
    DivModUnique(y, 100, c, w);
    DivModUnique(y, 4, 25 * c + q, r);
    if w == 99 {
      DivModUnique(y + 1, 100, c + 1, 0);
      DivModUnique(y + 1, 4, 25 * c + 25, 0);
    } else {
      DivModUnique(y + 1, 100, c, w + 1);
      if r == 3 {
        DivModUnique(y + 1, 4, 25 * c + q + 1, 0);
      } else {
        DivModUnique(y + 1, 4, 25 * c + q, r + 1);
      }
    }
  }

  /** A year of an era against the civil calendar: its March begins where February of that civil year
      ends, and its length is a leap year's exactly when the next civil year is one. */
  lemma EraAndCivil(era: int, y: int)
    requires 0 <= y < 400
    ensures var c := 400 * era + y;
            && DaysBeforeYear(c + 1) == 146_097 * era + EraDays(y) + 306 - 719_468 + 719_162
            && (EraDays(y + 1) - EraDays(y) == 366 || y == 399 <==> Leap(c + 1))
            && (EraDays(y + 1) - EraDays(y) == 365 || EraDays(y + 1) - EraDays(y) == 366)
  {
    EraStarts(era, y);
    LeapWithin(y);
    SameLeap(era, y + 1);
  }

  lemma EraStarts(era: int, y: int)
    requires 0 <= y < 400
    ensures DaysBeforeYear(400 * era + y + 1) == 146_097 * era + EraDays(y) + 306 - 719_468 + 719_162
  {
    var c := 400 * era + y;
    DivModUnique(c, 400, era, y);
    DivModUnique(c, 100, 4 * era + y / 100, y % 100);
    DivModUnique(c, 4, 100 * era + y / 4, y % 4);
  }

  /** The calendar repeats after 400 years. */
  lemma SameLeap(era: int, y: int)
    ensures Leap(400 * era + y) <==> Leap(y)
  {
    var c := 400 * era + y;
    DivModUnique(c, 400, era + y / 400, y % 400);
    DivModUnique(c, 100, 4 * era + y / 100, y % 100);
    DivModUnique(c, 4, 100 * era + y / 4, y % 4);
  }

  lemma LeapWithin(y: int)
    requires 0 <= y < 400
    ensures EraDays(y + 1) - EraDays(y) == 366 || y == 399 <==> Leap(y + 1)
    ensures EraDays(y + 1) - EraDays(y) == 365 || EraDays(y + 1) - EraDays(y) == 366
  {
    if y % 4 == 3 {
      DivModUnique(y + 1, 4, y / 4 + 1, 0);
    } else {
      DivModUnique(y + 1, 4, y / 4, y % 4 + 1);
    }
    if y % 100 == 99 {
      DivModUnique(y + 1, 100, y / 100 + 1, 0);
    } else {
      DivModUnique(y + 1, 100, y / 100, y % 100 + 1);
    }
  }

  // ------------------------------------------------------------------ months of a year

  /** Days before a month, months counted from March. */
  function MarchDays(mp: int): int {
    (153 * mp + 2) / 5
  }

  lemma MonthOfYear(doy: int)
    requires 0 <= doy <= 365
    ensures var mp := (5 * doy + 2) / 153;
            0 <= mp <= 11 && MarchDays(mp) <= doy && (mp < 11 ==> doy < MarchDays(mp + 1))
  {
  }

  /** The March-based month lengths are the calendar's. */
  lemma MarchMonths(y: int, mp: int)
    requires 0 <= mp <= 11
    ensures mp < 10 ==> DaysBeforeMonth(y, mp + 3) == DaysBeforeMonth(y, 3) + MarchDays(mp)
                        && DaysInMonth(y, mp + 3) == MarchDays(mp + 1) - MarchDays(mp)
    ensures mp == 10 ==> MarchDays(10) == 306 && DaysInMonth(y, 1) == MarchDays(11) - MarchDays(10)
    ensures mp == 11 ==> MarchDays(11) == 337
    ensures DaysBeforeMonth(y, 3) == 59 + if Leap(y) then 1 else 0
    ensures DaysBeforeMonth(y, 1) == 0 && DaysBeforeMonth(y, 2) == 31
  {
    MarchMonthsTo(y, mp);
  }

  lemma {:induction false} MarchMonthsTo(y: int, mp: int)
    requires 0 <= mp
    ensures mp <= 9 ==> DaysBeforeMonth(y, mp + 3) == DaysBeforeMonth(y, 3) + MarchDays(mp)
  {
    if 0 < mp <= 9 {
      MarchMonthsTo(y, mp - 1);
      assert DaysBeforeMonth(y, mp + 3) == DaysBeforeMonth(y, mp + 2) + DaysInMonth(y, mp + 2);
    }
  }

  // ------------------------------------------------------------------ the theorem

  /** Every integer day becomes a valid date, and counting days to that date gives the day back. */
  lemma CivilIsExact(days: int)
    ensures ValidDate(CivilOf(days)) && DaysOf(CivilOf(days)) == days
  {
    hide EraDays, YearOfEra, DaysBeforeYear, DaysBeforeMonth, DaysInMonth, MarchDays, Leap;
    var z := days + 719_468;
    var era, doe := z / 146_097, z % 146_097;
    var y := YearOfEra(doe);
    YearOfEraExact(doe);
    EraAndCivil(era, y);
    var doy := doe - EraDays(y);
    assert doy == doe - (365 * y + y / 4 - y / 100) by {
      EraDaysIs(y);
    }
    var mp := (5 * doy + 2) / 153;
    MonthOfYear(doy);
    var c := 400 * era + y;
    MarchMonths(c, mp);
    MarchMonths(c + 1, mp);
    MarchIs(mp);
    YearLength(c);
    FebruaryIs(c + 1);
  }

  lemma EraDaysIs(y: int)
    ensures EraDays(y) == 365 * y + y / 4 - y / 100
  {
  }

  lemma MarchIs(mp: int)
    ensures MarchDays(mp) == (153 * mp + 2) / 5
  {
  }

  lemma FebruaryIs(y: int)
    ensures DaysInMonth(y, 2) == if Leap(y) then 29 else 28
    ensures DaysInMonth(y, 1) == 31
  {
  }

  lemma YearLength(y: int)
    ensures DaysBeforeYear(y + 1) == DaysBeforeYear(y) + if Leap(y) then 366 else 365
  {
    var a, b, c := y / 4, y / 100, y / 400;
    DivPrevious(y, 4);
    DivPrevious(y, 100);
    DivPrevious(y, 400);
  }

  lemma DivPrevious(y: int, d: int)
    requires d > 0
    ensures (y - 1) / d == if y % d == 0 then y / d - 1 else y / d
  {
    var q, r := y / d, y % d;
    assert y == q * d + r;
    if r == 0 {
      assert (q - 1) * d == q * d - d;
      DivModUnique(y - 1, d, q - 1, d - 1);
    } else {
      DivModUnique(y - 1, d, q, r - 1);
    }
  }

  /** A day of a year is within it, and the next day of the calendar is the next day counted. */
  lemma TomorrowCounts(d: Date)
    requires ValidDate(d)
    ensures ValidDate(Tomorrow(d)) && DaysOf(Tomorrow(d)) == DaysOf(d) + 1
  {
    hide DaysBeforeYear;
    YearLength(d.year);
    MarchMonths(d.year, 9);
    if d.day == DaysInMonth(d.year, d.month) {
      if d.month == 12 {
        assert DaysBeforeMonth(d.year, 12) == 306 - 31 + 59 + if Leap(d.year) then 1 else 0;
      } else {
        assert DaysBeforeMonth(d.year, d.month + 1) == DaysBeforeMonth(d.year, d.month) + DaysInMonth(d.year, d.month);
      }
    }
  }

  /** Days before a month, as far as comparing months of a year needs. */
  lemma {:induction false} MonthsInOrder(y: int, m: int, n: int)
    requires 1 <= m < n <= 12
    ensures DaysBeforeMonth(y, m) + DaysInMonth(y, m) <= DaysBeforeMonth(y, n)
    decreases n
  {
    assert DaysBeforeMonth(y, n) == DaysBeforeMonth(y, n - 1) + DaysInMonth(y, n - 1);
    if m < n - 1 {
      MonthsInOrder(y, m, n - 1);
    }
  }

  lemma InsideYear(d: Date)
    requires ValidDate(d)
    ensures DaysBeforeYear(d.year) <= DaysOf(d) + 719_162 < DaysBeforeYear(d.year + 1)
  {
    hide DaysBeforeYear, Leap;
    YearLength(d.year);
    MarchMonths(d.year, 9);
    if 1 < d.month {
      MonthsInOrder(d.year, 1, d.month);
    }
    if d.month < 12 {
      MonthsInOrder(d.year, d.month, 12);
    }
  }

  lemma {:induction false} YearsInOrder(x: int, y: int)
    requires x <= y
    ensures DaysBeforeYear(x) <= DaysBeforeYear(y)
    decreases y - x
  {
    if x < y {
      YearsInOrder(x, y - 1);
      YearLength(y - 1);
    }
  }

  /** Different dates are different days. */
  lemma DaysAreDistinct(a: Date, b: Date)
    requires ValidDate(a) && ValidDate(b) && DaysOf(a) == DaysOf(b)
    ensures a == b
  {
    hide DaysBeforeYear, DaysInMonth, DaysBeforeMonth;
    InsideYear(a);
    InsideYear(b);
    if a.year < b.year {
      YearsInOrder(a.year + 1, b.year);
    } else if b.year < a.year {
      YearsInOrder(b.year + 1, a.year);
    } else if a.month < b.month {
      MonthsInOrder(a.year, a.month, b.month);
    } else if b.month < a.month {
      MonthsInOrder(a.year, b.month, a.month);
    }
  }

  /** The algorithm inverts the count of days on every valid date. */
  lemma CivilInvertsDays(d: Date)
    requires ValidDate(d)
    ensures CivilOf(DaysOf(d)) == d
  {
    hide CivilOf, DaysOf;
    CivilIsExact(DaysOf(d));
    DaysAreDistinct(CivilOf(DaysOf(d)), d);
  }

  /** Day after day the algorithm walks the calendar, and day 0 is 1 January 1970. */
  lemma CivilWalksTheCalendar(days: int)
    ensures CivilOf(days + 1) == Tomorrow(CivilOf(days)) && CivilOf(0) == Date(1970, 1, 1)
  {
    hide CivilOf, DaysOf, Tomorrow;
    CivilIsExact(days);
    TomorrowCounts(CivilOf(days));
    CivilInvertsDays(Tomorrow(CivilOf(days)));
    assert DaysOf(Date(1970, 1, 1)) == 0 by {
      FirstDay();
    }
    CivilInvertsDays(Date(1970, 1, 1));
  }

  lemma FirstDay()
    ensures DaysOf(Date(1970, 1, 1)) == 0
  {
  }

  /** A stamp names its second: a valid date, a time of day, and the weekday counted from Thursday
      1 January 1970; no two seconds share one. */
  lemma BackupDateIsExact(now: int)
    ensures var s := BackupDate(now);
            && ValidDate(s.date) && 0 <= s.hour < 24 && 0 <= s.minute < 60 && 0 <= s.second < 60 && 0 <= s.weekday < 7
            && now == 86_400 * DaysOf(s.date) + 3600 * s.hour + 60 * s.minute + s.second
            && (s.weekday - 4 - DaysOf(s.date)) % 7 == 0
  {
    hide CivilOf, DaysOf;
    var days, rem := now / 86_400, now % 86_400;
    CivilIsExact(days);
    var w := (days + 4) % 7;
    assert days + 4 == (days + 4) / 7 * 7 + w;
    DivModUnique(w - 4 - days, 7, -((days + 4) / 7), 0);
  }
}
