/** `gmtime64_r`, `timegm64` and `check_tm`: seconds since 1970 to broken-down UTC and back. */
module Time64 {
  import opened CInt
  import opened Calendar

  const DAYS_IN_MONTH: seq<seq<int>> := [
    [31, 28, 31, 30, 31, 30, 31, 31, 30, 31, 30, 31],
    [31, 29, 31, 30, 31, 30, 31, 31, 30, 31, 30, 31]]

  const JULIAN_DAYS_BY_MONTH: seq<seq<int>> := [
    [0, 31, 59, 90, 120, 151, 181, 212, 243, 273, 304, 334],
    [0, 31, 60, 91, 121, 152, 182, 213, 244, 274, 305, 335]]

  const LENGTH_OF_YEAR: seq<int> := [365, 366]

  const DAYS_IN_GREGORIAN_CYCLE: int := 365 * 400 + 100 - 4 + 1
  const YEARS_IN_GREGORIAN_CYCLE: int := 400

  /** Days from the epoch to 1 January 2008, and that year counted from 1900. */
  const CHEAT_DAYS: int := 1199145600 / 24 / 60 / 60
  const CHEAT_YEARS: int := 108

  /** The leap-year macro on a year counted from 1900; its value indexes the tables. */
  function LeapIndex(n: int): (r: int)
    ensures r == if IsLeapYear(n + 1900) then 1 else 0
  {
    ZeroRemainder(n + 1900);
    if TruncMod(n + 1900, 400) == 0 || (TruncMod(n + 1900, 4) == 0 && TruncMod(n + 1900, 100) != 0) then 1 else 0
  }

  lemma ZeroRemainder(n: int)
    ensures TruncMod(n, 4) == 0 <==> n % 4 == 0
    ensures TruncMod(n, 100) == 0 <==> n % 100 == 0
    ensures TruncMod(n, 400) == 0 <==> n % 400 == 0
    ensures IsLeapYear(n) <==> n % 400 == 0 || (n % 4 == 0 && n % 100 != 0)
  {
    TruncModZero(n, 4);
    TruncModZero(n, 100);
    TruncModZero(n, 400);
    CenturyYears(n);
  }

  lemma Tables(leap: int, mon: int)
    requires 0 <= leap <= 1 && 0 <= mon <= 11
    ensures DAYS_IN_MONTH[leap][mon] == MonthLength(leap == 1, mon)
    ensures JULIAN_DAYS_BY_MONTH[leap][mon] == DaysBeforeMonth(leap == 1, mon)
  {
    MonthTable(leap == 1);
  }

  /** `struct TM`, which the conversions fill in place; `year` counts from 1900. */
  class TM {
    var sec: int
    var min: int
    var hour: int
    var mday: int
    var mon: int
    var year: int
    var wday: int
    var yday: int
    var isdst: int

    constructor ()
    {
    }

    function Value(): Date
      reads this
    {
      Date(sec, min, hour, mday, mon, year, wday, yday)
    }

    /** The tail of `gmtime64_r`: the year is stored first, and nothing else if it does not fit. */
    method Store(d: Date) returns (ok: bool)
      modifies this
      ensures ok == InInt32(d.year) && isdst == old(isdst)
      ensures Value() == if ok then d else old(Value()).(year := Int32Cast(d.year))
    {
      year := Int32Cast(d.year);
      if year != d.year {
        return false;
      }
      mday := d.mday;
      yday := d.yday;
      sec, min, hour := d.sec, d.min, d.hour;
      mon := d.mon;
      wday := d.wday;
      ok := true;
    }

    /** The range check that the conversions assert on their result. */
    predicate CheckTm()
      reads this
    {
      && 0 <= sec <= 60
      && 0 <= min <= 59
      && 0 <= hour <= 23
      && 0 <= mon <= 11
      && 1 <= mday <= DAYS_IN_MONTH[LeapIndex(year)][mon]
      && 0 <= wday <= 6
      && 0 <= yday <= LENGTH_OF_YEAR[LeapIndex(year)]
    }
  }

  /** Seconds, minutes, hours and days, wrapped so that only the days can be negative. */
  method SplitTime(inTime: int) returns (sec: int, min: int, hour: int, tday: int)
    ensures 0 <= sec <= 59 && 0 <= min <= 59 && 0 <= hour <= 23
    ensures 86400 * tday + 3600 * hour + 60 * min + sec == inTime
  {
    var time := inTime;
    sec := TruncMod(time, 60);
    time := TruncDiv(time, 60);
    min := TruncMod(time, 60);
    time := TruncDiv(time, 60);
    hour := TruncMod(time, 24);
    time := TruncDiv(time, 24);
    tday := time;
    if sec < 0 {
      min, sec := min - 1, sec + 60;
    }
    if min < 0 {
      hour, min := hour - 1, min + 60;
    }
    if hour < 0 {
      tday, hour := tday - 1, hour + 24;
    }
  }

  /** The year that the day `days` after the start of `startYear` is in, and the day of that year. */
  method YearForward(startYear: int, days: int) returns (year: int, m: int)
    requires days >= 0
    ensures 0 <= m < YearLength(year + 1900)
    ensures DaysToYear(year + 1900) + m == DaysToYear(startYear + 1900) + days
  {
    year, m := startYear, days;
    ghost var day := DaysToYear(startYear + 1900) + days;
    var cycles := TruncDiv(m, DAYS_IN_GREGORIAN_CYCLE);
    if cycles != 0 {
      GregorianCycle(year + 1900, cycles);
      m := m - cycles * DAYS_IN_GREGORIAN_CYCLE;
      year := year + cycles * YEARS_IN_GREGORIAN_CYCLE;
    }
    var leap := LeapIndex(year);
    while m >= LENGTH_OF_YEAR[leap]
      invariant m >= 0 && leap == LeapIndex(year)
      invariant DaysToYear(year + 1900) + m == day
      decreases m
    {
      m := m - LENGTH_OF_YEAR[leap];
      NextJanFirst(year + 1900);
      year := year + 1;
      leap := LeapIndex(year);
    }
  }

  /** The month that a day of the year is in, and the day of that month from 0. */
  method MonthForward(leap: int, days: int) returns (mon: int, m: int)
    requires 0 <= leap <= 1 && 0 <= days < LENGTH_OF_YEAR[leap]
    ensures 0 <= mon <= 11 && 0 <= m < MonthLength(leap == 1, mon)
    ensures DaysBeforeMonth(leap == 1, mon) + m == days
  {
    mon, m := 0, days;
    Tables(leap, mon);
    MonthTable(leap == 1);
    while m >= DAYS_IN_MONTH[leap][mon]
      invariant 0 <= mon <= 11 && m >= 0
      invariant DAYS_IN_MONTH[leap][mon] == MonthLength(leap == 1, mon)
      invariant DaysBeforeMonth(leap == 1, mon) + m == days
      decreases m
    {
      m := m - DAYS_IN_MONTH[leap][mon];
      mon := mon + 1;
      Tables(leap, mon);
    }
  }

  /** The year, month and day of the month (from 0) of the day `days` after the start of `startYear`. */
  method SearchForward(startYear: int, days: int) returns (year: int, leap: int, mon: int, m: int)
    requires days >= 0
    ensures leap == LeapIndex(year)
    ensures 0 <= mon <= 11 && 0 <= m < MonthLength(leap == 1, mon)
    ensures DaysToYear(year + 1900) + DaysBeforeMonth(leap == 1, mon) + m == DaysToYear(startYear + 1900) + days
  {
    year, m := YearForward(startYear, days);
    leap := LeapIndex(year);
    mon, m := MonthForward(leap, m);
  }

  /** One cycle more than there are is added to the days, which stay negative, and taken off the year. */
  method CyclesBackward(fromYear: int, days: int) returns (year: int, m: int)
    requires days < 0
    ensures m < 0 && DaysToYear(year + 1901) + m == DaysToYear(fromYear + 1901) + days
  {
    year, m := fromYear, days;
    var cycles := TruncDiv(m, DAYS_IN_GREGORIAN_CYCLE) + 1;
    if cycles != 0 {
      GregorianCycle(year + 1901, cycles);
      m := m - cycles * DAYS_IN_GREGORIAN_CYCLE;
      year := year + cycles * YEARS_IN_GREGORIAN_CYCLE;
    }
  }

  /** The year that a day before the start of `startYear` is in, and that day counted back from the year's end. */
  method YearBackward(startYear: int, days: int) returns (year: int, m: int)
    requires days < 0
    ensures -YearLength(year + 1900) <= m < 0
    ensures DaysToYear(year + 1901) + m == DaysToYear(startYear + 1900) + days
  {
    ghost var day := DaysToYear(startYear + 1900) + days;
    year, m := CyclesBackward(startYear - 1, days);
    var leap := LeapIndex(year);
    while m < -LENGTH_OF_YEAR[leap]
      invariant m < 0 && leap == LeapIndex(year)
      invariant DaysToYear(year + 1901) + m == day
      decreases -m
    {
      m := m + LENGTH_OF_YEAR[leap];
      NextJanFirst(year + 1900);
      year := year - 1;
      leap := LeapIndex(year);
    }
  }

  /** The month of a day counted back from the year's end, and the day of that month from 0. */
  method MonthBackward(leap: int, days: int) returns (mon: int, m: int)
    requires 0 <= leap <= 1 && -LENGTH_OF_YEAR[leap] <= days < 0
    ensures 0 <= mon <= 11 && 0 <= m < MonthLength(leap == 1, mon)
    ensures DaysBeforeMonth(leap == 1, mon) + m == LENGTH_OF_YEAR[leap] + days
  {
    mon, m := 11, days;
    Tables(leap, mon);
    MonthTable(leap == 1);
    while m < -DAYS_IN_MONTH[leap][mon]
      invariant 0 <= mon <= 11 && m < 0
      invariant DAYS_IN_MONTH[leap][mon] == MonthLength(leap == 1, mon)
      invariant DaysBeforeMonth(leap == 1, mon + 1) + m == LENGTH_OF_YEAR[leap] + days
      decreases -m
    {
      m := m + DAYS_IN_MONTH[leap][mon];
      mon := mon - 1;
      Tables(leap, mon);
    }
    m := m + DAYS_IN_MONTH[leap][mon];
  }

  /** The same for a day before the start of `startYear`, searching down from the year before. */
  method SearchBackward(startYear: int, days: int) returns (year: int, leap: int, mon: int, m: int)
    requires days < 0
    ensures leap == LeapIndex(year)
    ensures 0 <= mon <= 11 && 0 <= m < MonthLength(leap == 1, mon)
    ensures DaysToYear(year + 1900) + DaysBeforeMonth(leap == 1, mon) + m == DaysToYear(startYear + 1900) + days
  {
    year, m := YearBackward(startYear, days);
    leap := LeapIndex(year);
    NextJanFirst(year + 1900);
    mon, m := MonthBackward(leap, m);
  }

  /** The search of `gmtime64_r`: from 2008 for later days, else from 1970 in either direction. */
  method FindDay(tday: int) returns (year: int, leap: int, mon: int, m: int)
    ensures leap == LeapIndex(year)
    ensures 0 <= mon <= 11 && 0 <= m < MonthLength(leap == 1, mon)
    ensures DaysToYear(year + 1900) + DaysBeforeMonth(leap == 1, mon) + m == tday
  {
    CheatDay();
    m := tday;
    year := 70;
    if m >= CHEAT_DAYS {
      year := CHEAT_YEARS;
      m := m - CHEAT_DAYS;
    }
    if m >= 0 {
      year, leap, mon, m := SearchForward(year, m);
    } else {
      year, leap, mon, m := SearchBackward(year, m);
    }
  }

  lemma FoundDate(t: int, tday: int, leap: int, d: Date)
    requires leap == LeapIndex(d.year)
    requires 0 <= d.mon <= 11 && 0 <= d.mday - 1 < MonthLength(leap == 1, d.mon)
    requires DaysToYear(d.year + 1900) + DaysBeforeMonth(leap == 1, d.mon) + d.mday - 1 == tday
    requires 0 <= d.sec <= 59 && 0 <= d.min <= 59 && 0 <= d.hour <= 23
    requires 86400 * tday + 3600 * d.hour + 60 * d.min + d.sec == t
    requires d.wday == (tday + 4) % 7
    requires d.yday == DaysBeforeMonth(leap == 1, d.mon) + d.mday - 1
    ensures Names(d, t)
    ensures d == Civil(t)
  {
    CivilIsUnique(t, d);
  }

  /**
   Fills `p` with the UTC date of `inTime`. A year that does not fit a C `int` is refused
   after `p` has received its low 32 bits.
   */
  method Gmtime64R(inTime: int, p: TM) returns (ok: bool)
    requires InInt64(inTime)
    modifies p
    ensures ok == InInt32(Civil(inTime).year)
    ensures ok ==> p.Value() == Civil(inTime)
    ensures !ok ==> p.Value() == old(p.Value()).(year := Int32Cast(Civil(inTime).year))
    ensures p.isdst == 0
  {
    p.isdst := 0;
    var d := BreakDown(inTime);
    ok := p.Store(d);
    if ok {
      CivilNames(inTime);
      PassesCheck(p, inTime);
      assert p.CheckTm();
    }
  }

  /** The numbers that `gmtime64_r` works out before it touches the struct. */
  method BreakDown(inTime: int) returns (d: Date)
    ensures d == Civil(inTime)
  {
    var sec, min, hour, tday := SplitTime(inTime);
    var wday := Weekday(tday);
    var year, leap, mon, m := FindDay(tday);
    Tables(leap, mon);
    var yday := JULIAN_DAYS_BY_MONTH[leap][mon] + m;
    d := Date(sec, min, hour, m + 1, mon, year, wday, yday);
    FoundDate(inTime, tday, leap, d);
  }

  method Weekday(tday: int) returns (wday: int)
    ensures wday == (tday + 4) % 7
  {
    wday := TruncMod(tday + 4, 7);
    if wday < 0 {
      wday := wday + 7;
    }
  }

  lemma PassesCheck(p: TM, t: int)
    requires Names(p.Value(), t)
    ensures p.CheckTm()
  {
    Tables(LeapIndex(p.year), p.mon);
    YearDayInYear(IsLeapYear(p.year + 1900), p.mon, p.mday - 1);
  }

  lemma CheatDay()
    ensures DaysToYear(1970) == 0
    ensures DaysToYear(2008) == CHEAT_DAYS
  {
    DaysToYearClosedForm(1970);
    DaysToYearClosedForm(2008);
  }

  /** A year outside -300..100 is reduced by whole cycles, and their days are counted. */
  method ReduceYear(tmYear: int) returns (origYear: int, days: int)
    ensures DaysToYear(origYear + 1900) + days == DaysToYear(tmYear + 1900)
    ensures LeapIndex(origYear) == LeapIndex(tmYear)
  {
    origYear, days := tmYear, 0;
    if origYear > 100 || origYear < -300 {
      var cycles := TruncDiv(origYear - 100, 400);
      origYear := origYear - cycles * 400;
      days := days + cycles * DAYS_IN_GREGORIAN_CYCLE;
      GregorianCycle(origYear + 1900, cycles);
    }
  }

  /** The days from the epoch to a year, first reduced by whole cycles to -300..499. */
  method DaysToTmYear(tmYear: int) returns (days: int, origYear: int)
    ensures days == DaysToYear(tmYear + 1900)
    ensures LeapIndex(origYear) == LeapIndex(tmYear)
  {
    origYear, days := ReduceYear(tmYear);
    if origYear > 70 {
      var more := DaysUp(origYear);
      days := days + more;
    } else if origYear < 70 {
      var less := DaysDown(origYear);
      days := days - less;
    } else {
      CheatDay();
    }
  }

  /** The days from 1970 to a later year. */
  method DaysUp(origYear: int) returns (days: int)
    requires origYear > 70
    ensures days == DaysToYear(origYear + 1900)
  {
    CheatDay();
    days := 0;
    var year := 70;
    while year < origYear
      invariant 70 <= year <= origYear && days == DaysToYear(year + 1900)
    {
      days := days + LENGTH_OF_YEAR[LeapIndex(year)];
      NextJanFirst(year + 1900);
      year := year + 1;
    }
  }

  /** The days from an earlier year to 1970. */
  method DaysDown(origYear: int) returns (days: int)
    requires origYear < 70
    ensures -days == DaysToYear(origYear + 1900)
  {
    CheatDay();
    var year := 69;
    days := LENGTH_OF_YEAR[LeapIndex(year)];
    NextJanFirst(year + 1900);
    year := year - 1;
    while year >= origYear
      invariant origYear - 1 <= year && -days == DaysToYear(year + 1901)
    {
      days := days + LENGTH_OF_YEAR[LeapIndex(year)];
      NextJanFirst(year + 1900);
      year := year - 1;
    }
  }

  /** The seconds from the epoch to a date; only the month has to be in range. */
  method Timegm64(date: TM) returns (seconds: int)
    requires 0 <= date.mon <= 11
    ensures seconds == Seconds(date.Value())
  {
    var days, origYear := DaysToTmYear(date.year);
    Tables(LeapIndex(origYear), date.mon);
    days := days + JULIAN_DAYS_BY_MONTH[LeapIndex(origYear)][date.mon];
    days := days + date.mday - 1;
    seconds := days * 60 * 60 * 24;
    seconds := seconds + date.hour * 60 * 60;
    seconds := seconds + date.min * 60;
    seconds := seconds + date.sec;
  }

  /** Every time whose year fits comes back from its own date. */
  method GmtimeThenTimegm(t: int) returns (ok: bool, t': int)
    requires InInt64(t)
    ensures ok == InInt32(Civil(t).year)
    ensures ok ==> t' == t
  {
    var p := new TM();
    ok := Gmtime64R(t, p);
    t' := 0;
    if ok {
      CivilNames(t);
      t' := Timegm64(p);
      SecondsOfCivil(t);
    }
  }

  /** Every valid date comes back from its own time, with its weekday and day of the year filled in. */
  method TimegmThenGmtime(date: TM) returns (p: TM)
    requires ValidDate(date.Value()) && InInt32(date.year)
    ensures p.Value() == date.Value().(wday := p.wday, yday := p.yday)
    ensures p.yday == DaysBeforeMonth(IsLeapYear(date.year + 1900), date.mon) + date.mday - 1
    ensures p.wday == (DaysToYear(date.year + 1900) + p.yday + 4) % 7
  {
    var t := Timegm64(date);
    TimeFitsInt64(date.Value());
    p := new TM();
    CivilOfSeconds(date.Value());
    var ok := Gmtime64R(t, p);
  }

  lemma TimeFitsInt64(d: Date)
    requires ValidDate(d) && InInt32(d.year)
    ensures InInt64(Seconds(d))
  {
    YearDayInYear(IsLeapYear(d.year + 1900), d.mon, d.mday - 1);
    YearIsNear(d.year + 1900);
    DaysFitInt64(DaysToYear(d.year + 1900) + DaysBeforeMonth(IsLeapYear(d.year + 1900), d.mon) + d.mday - 1,
                 3600 * d.hour + 60 * d.min + d.sec);
  }

  lemma YearIsNear(y: int)
    requires InInt32(y - 1900)
    ensures -366 * 0x8000_1000 <= DaysToYear(y) <= 366 * 0x8000_1000
  {
    CheatDay();
    if y >= 1970 {
      DaysToYearIncreases(1970, y);
    } else {
      DaysToYearIncreases(y, 1970);
    }
  }

  lemma DaysFitInt64(days: int, sod: int)
    requires -367 * 0x8000_1000 <= days <= 367 * 0x8000_1000 && 0 <= sod < 86400
    ensures InInt64(86400 * days + sod)
  {
  }
}
