/**
 The proleptic Gregorian calendar, defined without reference to the program:
 the date of a day is found by walking one year at a time from 1970, and then
 one month at a time from January.
 */
module Calendar {

  predicate IsLeapYear(y: int) {
    y % 4 == 0 && (y % 100 != 0 || y % 400 == 0)
  }

  function YearLength(y: int): int {
    if IsLeapYear(y) then 366 else 365
  }

  function MonthLength(leap: bool, mon: int): int {
    if mon == 1 then (if leap then 29 else 28)
    else if mon == 3 || mon == 5 || mon == 8 || mon == 10 then 30
    else 31
  }

  /** Days before the first of month `mon` (0 = January). */
  function DaysBeforeMonth(leap: bool, mon: nat): int {
    if mon == 0 then 0 else DaysBeforeMonth(leap, mon - 1) + MonthLength(leap, mon - 1)
  }

  /** Days from 1 January 1970 to 1 January of year `y`, one year at a time. */
  function DaysToYear(y: int): int
    decreases if y < 1970 then 1970 - y else y - 1970
  {
    if y == 1970 then 0
    else if y > 1970 then DaysToYear(y - 1) + YearLength(y - 1)
    else DaysToYear(y + 1) - YearLength(y)
  }

  /** Moves from day `d` of year `y` to the year that really holds that day. */
  function WalkYears(y: int, d: int): (int, int)
    decreases if d < 0 then 400 - d else d
  {
    if d < 0 then WalkYears(y - 1, d + YearLength(y - 1))
    else if d >= YearLength(y) then WalkYears(y + 1, d - YearLength(y))
    else (y, d)
  }

  /** Moves from day `d` counted from month `mon` to the month that holds that day. */
  function WalkMonths(leap: bool, mon: nat, d: nat): (nat, nat)
    decreases 12 - mon
  {
    if mon >= 11 || d < MonthLength(leap, mon) then (mon, d)
    else WalkMonths(leap, mon + 1, d - MonthLength(leap, mon))
  }

  /** A broken-down time, laid out as C's `struct tm`: `year` counts from 1900. */
  datatype Date = Date(sec: int, min: int, hour: int, mday: int, mon: int, year: int, wday: int, yday: int)

  /** The date and time in UTC, `t` seconds after 1970 began. */
  function Civil(t: int): Date {
    var day, second := t / 86400, t % 86400;
    var (y, yday) := WalkYears(1970, day);
    var (mon, d) := WalkMonths(IsLeapYear(y), 0, YearDay(day));
    Date(second % 60, second / 60 % 60, second / 3600, d + 1, mon, y - 1900, (day + 4) % 7, yday)
  }

  function YearDay(day: int): (d: nat) {
    WalkYearsLands(1970, day);
    WalkYears(1970, day).1
  }

  /** The seconds from the start of 1970 to a date, from its year, month, day and time. */
  function Seconds(d: Date): int
    requires 0 <= d.mon <= 11
  {
    86400 * (DaysToYear(d.year + 1900) + DaysBeforeMonth(IsLeapYear(d.year + 1900), d.mon) + d.mday - 1)
    + 3600 * d.hour + 60 * d.min + d.sec
  }

  /** A real day of the calendar with a time of day; weekday and day of year are free. */
  predicate ValidDate(d: Date) {
    && 0 <= d.mon <= 11
    && 1 <= d.mday <= MonthLength(IsLeapYear(d.year + 1900), d.mon)
    && 0 <= d.hour <= 23 && 0 <= d.min <= 59 && 0 <= d.sec <= 59
  }

  // ----- the closed form of the year walk

  /** Leap years in 1..y, extended to all integers by rounding down. */
  function LeapYearsThrough(y: int): int {
    y / 4 - y / 100 + y / 400
  }

  lemma LeapStep(y: int)
    ensures LeapYearsThrough(y) == LeapYearsThrough(y - 1) + if IsLeapYear(y) then 1 else 0
  {
    QuotientStep(y, 4);
    QuotientStep(y, 100);
    QuotientStep(y, 400);
    CenturyYears(y);
  }

  lemma CenturyYears(y: int)
    ensures y % 400 == 0 ==> y % 100 == 0
    ensures y % 100 == 0 ==> y % 4 == 0
  {
    if y % 400 == 0 {
      DivisionShift(0, 100, 4 * (y / 400));
    }
    if y % 100 == 0 {
      DivisionShift(0, 4, 25 * (y / 100));
    }
  }

  lemma DivisionShift(a: int, k: int, m: int)
    requires k == 4 || k == 100 || k == 400
    ensures (a + k * m) / k == a / k + m
    ensures (a + k * m) % k == a % k
  {
    if k == 4 {
      assert (a + 4 * m) / 4 == a / 4 + m;
    } else if k == 100 {
      assert (a + 100 * m) / 100 == a / 100 + m;
    } else {
      assert (a + 400 * m) / 400 == a / 400 + m;
    }
  }

  lemma QuotientStep(y: int, k: int)
    requires k == 4 || k == 100 || k == 400
    ensures y / k == (y - 1) / k + if y % k == 0 then 1 else 0
  {
  }

  lemma NextJanFirst(y: int)
    ensures DaysToYear(y + 1) == DaysToYear(y) + YearLength(y)
  {
  }

  lemma {:induction false} DaysToYearClosedForm(y: int)
    ensures DaysToYear(y) == 365 * (y - 1970) + LeapYearsThrough(y - 1) - 477
    decreases if y < 1970 then 1970 - y else y - 1970
  {
    if y > 1970 {
      DaysToYearClosedForm(y - 1);
      LeapStep(y - 1);
    } else if y < 1970 {
      DaysToYearClosedForm(y + 1);
      LeapStep(y);
    }
  }

  lemma GregorianCycle(y: int, n: int)
    ensures DaysToYear(y + 400 * n) == DaysToYear(y) + 146097 * n
    ensures IsLeapYear(y + 400 * n) == IsLeapYear(y)
  {
    DivisionShift(y - 1, 4, 100 * n);
    DivisionShift(y - 1, 100, 4 * n);
    DivisionShift(y - 1, 400, n);
    DivisionShift(y, 4, 100 * n);
    DivisionShift(y, 100, 4 * n);
    DivisionShift(y, 400, n);
    DaysToYearClosedForm(y);
    DaysToYearClosedForm(y + 400 * n);
  }

  lemma {:induction false} DaysToYearIncreases(a: int, b: int)
    requires a <= b
    ensures DaysToYear(a) + 365 * (b - a) <= DaysToYear(b) <= DaysToYear(a) + 366 * (b - a)
    decreases b - a
  {
    if a < b {
      DaysToYearIncreases(a, b - 1);
      NextJanFirst(b - 1);
    }
  }

  // ----- the walks land where they should

  lemma {:induction false} WalkYearsLands(y: int, d: int)
    ensures var (y', d') := WalkYears(y, d);
      DaysToYear(y') + d' == DaysToYear(y) + d && 0 <= d' < YearLength(y')
    decreases if d < 0 then 400 - d else d
  {
    if d < 0 {
      NextJanFirst(y - 1);
      WalkYearsLands(y - 1, d + YearLength(y - 1));
    } else if d >= YearLength(y) {
      NextJanFirst(y);
      WalkYearsLands(y + 1, d - YearLength(y));
    }
  }

  /** A day lies in exactly one year. */
  lemma YearIsUnique(y1: int, d1: int, y2: int, d2: int)
    requires DaysToYear(y1) + d1 == DaysToYear(y2) + d2
    requires 0 <= d1 < YearLength(y1) && 0 <= d2 < YearLength(y2)
    ensures y1 == y2 && d1 == d2
  {
    if y1 < y2 {
      YearEndsBefore(y1, y2);
    } else if y2 < y1 {
      YearEndsBefore(y2, y1);
    }
  }

  lemma YearEndsBefore(a: int, b: int)
    requires a < b
    ensures DaysToYear(a) + YearLength(a) <= DaysToYear(b)
  {
    NextJanFirst(a);
    DaysToYearIncreases(a + 1, b);
  }

  lemma DecemberIsLast(leap: bool)
    ensures DaysBeforeMonth(leap, 11) + 31 == if leap then 366 else 365
  {
    MonthTable(leap);
  }

  lemma {:induction false} WalkMonthsLands(leap: bool, mon: nat, d: nat)
    requires mon <= 11
    requires DaysBeforeMonth(leap, mon) + d < if leap then 366 else 365
    ensures var (mon', d') := WalkMonths(leap, mon, d);
      mon' <= 11 && d' < MonthLength(leap, mon')
      && DaysBeforeMonth(leap, mon') + d' == DaysBeforeMonth(leap, mon) + d
    decreases 12 - mon
  {
    if mon == 11 {
      DecemberIsLast(leap);
    } else if d >= MonthLength(leap, mon) {
      MonthAfter(leap, mon);
      WalkMonthsLands(leap, mon + 1, d - MonthLength(leap, mon));
    }
  }

  lemma MonthAfter(leap: bool, mon: nat)
    ensures DaysBeforeMonth(leap, mon + 1) == DaysBeforeMonth(leap, mon) + MonthLength(leap, mon)
  {
  }

  /** The cumulative table of the month lengths, which ends with the length of the year. */
  lemma MonthTable(leap: bool)
    ensures forall m :: 0 <= m < 12 ==> DaysBeforeMonth(leap, m) == MonthTableEntry(leap, m)
    ensures DaysBeforeMonth(leap, 12) == if leap then 366 else 365
  {
    assert DaysBeforeMonth(leap, 0) == 0;
    assert DaysBeforeMonth(leap, 1) == 31;
    assert DaysBeforeMonth(leap, 2) == MonthTableEntry(leap, 2);
    assert DaysBeforeMonth(leap, 3) == MonthTableEntry(leap, 3);
    assert DaysBeforeMonth(leap, 4) == MonthTableEntry(leap, 4);
    assert DaysBeforeMonth(leap, 5) == MonthTableEntry(leap, 5);
    assert DaysBeforeMonth(leap, 6) == MonthTableEntry(leap, 6);
    assert DaysBeforeMonth(leap, 7) == MonthTableEntry(leap, 7);
    assert DaysBeforeMonth(leap, 8) == MonthTableEntry(leap, 8);
    assert DaysBeforeMonth(leap, 9) == MonthTableEntry(leap, 9);
    assert DaysBeforeMonth(leap, 10) == MonthTableEntry(leap, 10);
    assert DaysBeforeMonth(leap, 11) == MonthTableEntry(leap, 11);
  }

  function MonthTableEntry(leap: bool, m: int): int
    requires 0 <= m < 12
  {
    if leap then [0, 31, 60, 91, 121, 152, 182, 213, 244, 274, 305, 335][m]
    else [0, 31, 59, 90, 120, 151, 181, 212, 243, 273, 304, 334][m]
  }

  /** A day of the year lies in exactly one month. */
  lemma {:induction false} MonthIsUnique(leap: bool, m1: nat, d1: int, m2: nat, d2: int)
    requires DaysBeforeMonth(leap, m1) + d1 == DaysBeforeMonth(leap, m2) + d2
    requires 0 <= d1 < MonthLength(leap, m1) && 0 <= d2 < MonthLength(leap, m2)
    ensures m1 == m2 && d1 == d2
  {
    if m1 < m2 {
      MonthsIncrease(leap, m1 + 1, m2);
    } else if m2 < m1 {
      MonthsIncrease(leap, m2 + 1, m1);
    }
  }

  lemma {:induction false} MonthsIncrease(leap: bool, a: nat, b: nat)
    requires a <= b
    ensures DaysBeforeMonth(leap, a) <= DaysBeforeMonth(leap, b)
  {
    if a < b {
      MonthsIncrease(leap, a, b - 1);
    }
  }

  // ----- what pins a civil date down

  /** `d` is second `sod` of day `yd` (from 0) of year `y`, with the right weekday. */
  predicate OnDay(d: Date, y: int, yd: int, sod: int) {
    && ValidDate(d) && d.year + 1900 == y && d.yday == yd
    && 3600 * d.hour + 60 * d.min + d.sec == sod
    && yd == DaysBeforeMonth(IsLeapYear(y), d.mon) + d.mday - 1
    && d.wday == (DaysToYear(y) + yd + 4) % 7
  }

  /** `d` is a valid date whose parts all agree and add up to `t` seconds. */
  predicate Names(d: Date, t: int) {
    var sod := 3600 * d.hour + 60 * d.min + d.sec;
    && OnDay(d, d.year + 1900, d.yday, sod)
    && t == 86400 * (DaysToYear(d.year + 1900) + d.yday) + sod
  }

  /** The civil date of `t` is the one date that names it. */
  lemma CivilIsUnique(t: int, d: Date)
    requires Names(d, t)
    ensures d == Civil(t)
  {
    var day := t / 86400;
    var leap := IsLeapYear(d.year + 1900);
    TimeOfDayIsUnique(t, DaysToYear(d.year + 1900) + d.yday, d.hour, d.min, d.sec);
    YearDayInYear(leap, d.mon, d.mday - 1);
    WalkYearsLands(1970, day);
    var (y, yday) := WalkYears(1970, day);
    YearIsUnique(d.year + 1900, d.yday, y, yday);
    WalkMonthsLands(leap, 0, yday);
    var (m, md) := WalkMonths(leap, 0, yday);
    MonthIsUnique(leap, d.mon, d.mday - 1, m, md);
  }

  lemma CivilNames(t: int)
    ensures Names(Civil(t), t)
  {
    CivilDayParts(t / 86400);
    TimeOfDayParts(t % 86400);
    CivilFields(t);
  }

  /** A date that names second `sod` of a day is on that day. */
  lemma NamesDay(d: Date, t: int, y: int, yd: int, sod: int)
    requires Names(d, t)
    requires 0 <= yd < YearLength(y) && 0 <= sod < 86400
    requires t == 86400 * (DaysToYear(y) + yd) + sod
    ensures OnDay(d, y, yd, sod)
  {
    YearDayInYear(IsLeapYear(d.year + 1900), d.mon, d.mday - 1);
    SameSecond(DaysToYear(y) + yd, sod, DaysToYear(d.year + 1900) + d.yday, 3600 * d.hour + 60 * d.min + d.sec);
    YearIsUnique(y, yd, d.year + 1900, d.yday);
  }

  lemma SameSecond(d1: int, s1: int, d2: int, s2: int)
    requires 86400 * d1 + s1 == 86400 * d2 + s2
    requires 0 <= s1 < 86400 && 0 <= s2 < 86400
    ensures d1 == d2 && s1 == s2
  {
  }

  lemma OnDayIsUnique(d1: Date, d2: Date, y: int, yd: int, sod: int)
    requires OnDay(d1, y, yd, sod) && OnDay(d2, y, yd, sod)
    ensures d1 == d2
  {
    MonthIsUnique(IsLeapYear(y), d1.mon, d1.mday - 1, d2.mon, d2.mday - 1);
    TimeOfDayIsUnique(sod, 0, d1.hour, d1.min, d1.sec);
    TimeOfDayIsUnique(sod, 0, d2.hour, d2.min, d2.sec);
  }

  lemma TimeOfDayIsUnique(t: int, day: int, hour: int, min: int, sec: int)
    requires 0 <= hour <= 23 && 0 <= min <= 59 && 0 <= sec <= 59
    requires 86400 * day + 3600 * hour + 60 * min + sec == t
    ensures t / 86400 == day
    ensures var s := t % 86400; s % 60 == sec && s / 60 % 60 == min && s / 3600 == hour
  {
    var s := 3600 * hour + 60 * min + sec;
    assert t == 86400 * day + s && 0 <= s < 86400;
    assert t / 86400 == day;
    assert t % 86400 == s;
    assert s / 60 == 60 * hour + min;
  }

  lemma YearDayInYear(leap: bool, mon: nat, d: int)
    requires mon <= 11 && 0 <= d < MonthLength(leap, mon)
    ensures 0 <= DaysBeforeMonth(leap, mon) + d < if leap then 366 else 365
  {
    MonthTable(leap);
    MonthsIncrease(leap, mon + 1, 12);
    MonthsIncrease(leap, 0, mon);
  }

  lemma CivilFields(t: int)
    ensures var d, day, s := Civil(t), t / 86400, t % 86400;
      && d.year + 1900 == WalkYears(1970, day).0 && d.yday == WalkYears(1970, day).1 == YearDay(day)
      && (d.mon, d.mday - 1) == WalkMonths(IsLeapYear(d.year + 1900), 0, YearDay(day))
      && (d.hour, d.min, d.sec) == (s / 3600, s / 60 % 60, s % 60)
      && d.wday == (day + 4) % 7
      && 86400 * day + s == t
  {
  }

  lemma CivilDayParts(day: int)
    ensures var (y, yday) := WalkYears(1970, day);
      var (mon, d) := WalkMonths(IsLeapYear(y), 0, YearDay(day));
      && DaysToYear(y) + yday == day && 0 <= yday < YearLength(y)
      && mon <= 11 && d < MonthLength(IsLeapYear(y), mon)
      && DaysBeforeMonth(IsLeapYear(y), mon) + d == yday
  {
    WalkYearsLands(1970, day);
    WalkMonthsLands(IsLeapYear(WalkYears(1970, day).0), 0, YearDay(day));
  }

  lemma TimeOfDayParts(s: int)
    requires 0 <= s < 86400
    ensures 3600 * (s / 3600) + 60 * (s / 60 % 60) + s % 60 == s
    ensures 0 <= s / 3600 <= 23
  {
    assert s / 3600 == s / 60 / 60;
  }

  /** `Seconds` undoes `Civil` ... */
  lemma SecondsOfCivil(t: int)
    ensures Seconds(Civil(t)) == t
  {
    CivilNames(t);
  }

  /** ... and `Civil` undoes `Seconds`, working out weekday and day of the year afresh. */
  lemma CivilOfSeconds(d: Date)
    requires ValidDate(d)
    ensures var r := Civil(Seconds(d));
      && r == d.(wday := r.wday, yday := r.yday)
      && r.yday == DaysBeforeMonth(IsLeapYear(d.year + 1900), d.mon) + d.mday - 1
      && r.wday == (DaysToYear(d.year + 1900) + r.yday + 4) % 7
  {
    var yday := DaysBeforeMonth(IsLeapYear(d.year + 1900), d.mon) + d.mday - 1;
    CivilIsUnique(Seconds(d), d.(yday := yday, wday := (DaysToYear(d.year + 1900) + yday + 4) % 7));
  }

  // ----- held against what is known of the calendar

  /** From March on the months follow the rule of thirty days and three fifths. */
  lemma MonthsByFormula(leap: bool, mon: nat)
    requires 2 <= mon <= 12
    ensures DaysBeforeMonth(leap, mon) == (if leap then 60 else 59) + (153 * (mon - 2) + 2) / 5
    ensures DaysBeforeMonth(leap, 1) == 31
  {
    MonthTable(leap);
    DecemberIsLast(leap);
  }

  /** A midnight, from the first day of its year and the days before its month. */
  lemma MidnightOf(t: int, day: int, y: int, mon: int, mday: int, start: int, before: int, wday: int)
    requires 0 <= mon <= 11 && 1 <= mday <= MonthLength(IsLeapYear(y), mon)
    requires start == DaysToYear(y) && before == DaysBeforeMonth(IsLeapYear(y), mon) && day == start + before + mday - 1
    requires t == 86400 * day && wday == (day + 4) % 7
    ensures Civil(t) == Date(0, 0, 0, mday, mon, y - 1900, wday, before + mday - 1)
  {
    CivilIsUnique(t, Date(0, 0, 0, mday, mon, y - 1900, wday, before + mday - 1));
  }

  lemma YearStart(y: int)
    ensures y == 1582 ==> !IsLeapYear(y) && DaysToYear(y) == -141714
    ensures y == 2000 ==> IsLeapYear(y) && DaysToYear(y) == 10957
  {
    DaysToYearClosedForm(y);
  }

  lemma OctoberStarts(leap: bool, mon: nat)
    requires mon == 9
    ensures DaysBeforeMonth(leap, mon) == (if leap then 274 else 273) && MonthLength(leap, mon) == 31
  {
    MonthTable(leap);
  }

  /** The first day of the Gregorian calendar, 15 October 1582, was a Friday. */
  lemma FirstGregorianDay(t: int, y: int)
    requires t == -141427 * 86400 && y == 1582
    ensures Civil(t) == Date(0, 0, 0, 15, 9, -318, 5, 287)
  {
    YearStart(y);
    OctoberStarts(IsLeapYear(y), 9);
    MidnightOf(t, -141427, y, 9, 15, -141714, 273, 5);
  }

  /** The leap day of 2000 was a Tuesday. */
  lemma LeapDayOf2000(t: int, y: int)
    requires t == 11016 * 86400 && y == 2000
    ensures Civil(t) == Date(0, 0, 0, 29, 1, 100, 2, 59)
  {
    YearStart(y);
    MidnightOf(t, 11016, y, 1, 29, 10957, 31, 2);
  }
}
