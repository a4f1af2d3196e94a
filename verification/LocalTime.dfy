/**
 `localtime64_r` and `mktime64`, which reach past the range of the system's clock by
 working in a safe year. The system's own conversions are taken to apply a fixed offset.
 */
module LocalTime {
  import opened CInt
  import opened Calendar
  import opened SolarCycle
  import opened Time64

  const SYSTEM_LOCALTIME_MAX: int := 2147483647
  const SYSTEM_LOCALTIME_MIN: int := -2147483647 - 1

  /** The last and first dates given to the system's `mktime`. */
  const SYSTEM_MKTIME_MAX: Date := Date(7, 14, 19, 18, 0, 138, 1, 17)
  const SYSTEM_MKTIME_MIN: Date := Date(52, 45, 12, 13, 11, 1, 5, 346)

  /** A zone at a fixed distance from UTC, at most a day either way. */
  predicate FixedOffset(offset: int) {
    -86400 <= offset <= 86400
  }

  method Convert(t: int) returns (d: Date)
    ensures Names(d, t)
  {
    d := Civil(t);
    CivilNames(t);
  }

  lemma SomeDateNames(t: int) returns (d: Date)
    ensures Names(d, t)
  {
    CivilNames(t);
    d := Civil(t);
  }

  /** The system's `localtime_r`. */
  method SystemLocaltime(time: int, offset: int, p: TM)
    modifies p
    ensures Names(p.Value(), time + offset)
  {
    var d := Convert(time + offset);
    p.sec, p.min, p.hour, p.mday, p.mon, p.year, p.wday, p.yday :=
      d.sec, d.min, d.hour, d.mday, d.mon, d.year, d.wday, d.yday;
    p.isdst := 0;
    assert p.Value() == d;
  }

  /** Months out of range, carried into the year. */
  function MonthsCarried(d: Date): (r: Date)
    ensures 0 <= r.mon <= 11 && 12 * r.year + r.mon == 12 * d.year + d.mon
  {
    d.(year := d.year + d.mon / 12, mon := d.mon % 12)
  }

  /** The time of a date any of whose fields may be out of range. */
  function TimeOf(d: Date): int {
    Seconds(MonthsCarried(d))
  }

  /** The system's `mktime`: any field may be out of range, and the date is put in order. */
  method SystemMktime(p: TM, offset: int) returns (time: int)
    modifies p
    ensures time == TimeOf(old(p.Value())) - offset
    ensures p.Value() == Civil(TimeOf(old(p.Value())))
  {
    time := TimeOf(p.Value()) - offset;
    var d := Civil(TimeOf(p.Value()));
    p.sec, p.min, p.hour, p.mday, p.mon, p.year, p.wday, p.yday :=
      d.sec, d.min, d.hour, d.mday, d.mon, d.year, d.wday, d.yday;
    assert p.Value() == d;
  }

  // ----- one time seen from two years with the same calendar

  lemma WeekdayPlus(a: int, b: int, n: int)
    requires (a + 4) % 7 == (b + 4) % 7
    ensures (a + n + 4) % 7 == (b + n + 4) % 7
  {
    var q := (a + 4) / 7 - (b + 4) / 7;
    assert a + n + 4 == b + n + 4 + 7 * q;
  }

  /** The same day and time of year in a year with the same length and the same first weekday. */
  lemma SameDayOfYear(d: Date, y: int, s: int, yd: int, sod: int)
    requires OnDay(d, y, yd, sod)
    requires IsLeapYear(s) == IsLeapYear(y) || yd == 0
    requires JanFirstWeekday(s) == JanFirstWeekday(y)
    ensures OnDay(d.(year := s - 1900), s, yd, sod)
  {
    WeekdayPlus(DaysToYear(y), DaysToYear(s), yd);
    if yd == 0 {
      FirstOfJanuary(IsLeapYear(y), d.mon, d.mday - 1);
    }
  }

  lemma FirstOfJanuary(leap: bool, mon: nat, d: int)
    requires DaysBeforeMonth(leap, mon) + d == 0 && 0 <= d
    ensures mon == 0 && d == 0
  {
    if mon > 0 {
      MonthsIncrease(leap, 1, mon);
    }
  }

  lemma LastOfDecember(leap: bool, mon: nat, d: int)
    requires mon <= 11 && 0 <= d < MonthLength(leap, mon)
    requires DaysBeforeMonth(leap, mon) + d == (if leap then 365 else 364)
    ensures mon == 11
  {
    MonthTable(leap);
    if mon < 11 {
      MonthsIncrease(leap, mon + 1, 11);
    }
  }

  /** Within a year, a day's step never crosses eleven months. */
  lemma NoElevenMonthStep(leap: bool, m1: nat, d1: int, m2: nat, d2: int)
    requires m1 <= 11 && m2 <= 11
    requires 0 <= d1 < MonthLength(leap, m1) && 0 <= d2 < MonthLength(leap, m2)
    requires -1 <= DaysBeforeMonth(leap, m2) + d2 - (DaysBeforeMonth(leap, m1) + d1) <= 1
    ensures -11 < m2 - m1 < 11
  {
    MonthTable(leap);
  }

  /** The program's repairs after the detour: year and day of the year from the months seen. */
  function Repair(origYear: int, gmMon: int, local: Date): Date {
    var year := if local.mon - gmMon == 11 then origYear - 1
                else if local.mon - gmMon == -11 then origYear + 1 else origYear;
    var d := local.(year := year);
    if LeapIndex(year) == 0 && d.yday == 365 then d.(yday := 364) else d
  }

  /** `ds` is the local date seen in year `s`, and `dy` the one it stands for; UTC is `gm`. */
  lemma DetourInYear(gm: Date, ds: Date, dy: Date, y: int, s: int, yd: int, sod: int)
    requires ValidDate(gm) && gm.year + 1900 == y
    requires IsLeapYear(s) == IsLeapYear(y) && JanFirstWeekday(s) == JanFirstWeekday(y)
    requires -1 <= yd - (DaysBeforeMonth(IsLeapYear(y), gm.mon) + gm.mday - 1) <= 1
    requires 0 <= yd < YearLength(y)
    requires OnDay(ds, s, yd, sod) && OnDay(dy, y, yd, sod)
    ensures Repair(gm.year, gm.mon, ds) == dy
  {
    SameDayOfYear(dy, y, s, yd, sod);
    OnDayIsUnique(ds, dy.(year := s - 1900), s, yd, sod);
    NoElevenMonthStep(IsLeapYear(y), gm.mon, gm.mday - 1, dy.mon, dy.mday - 1);
  }

  /** UTC is on 1 January and the local day is 31 December before it. */
  lemma DetourBack(gm: Date, ds: Date, dy: Date, y: int, s: int, sod: int)
    requires ValidDate(gm) && gm.year + 1900 == y
    requires IsLeapYear(s - 1) == IsLeapYear(y - 1) && JanFirstWeekday(s - 1) == JanFirstWeekday(y - 1)
    requires DaysBeforeMonth(IsLeapYear(y), gm.mon) + gm.mday - 1 == 0
    requires var last := YearLength(y - 1) - 1; OnDay(ds, s - 1, last, sod) && OnDay(dy, y - 1, last, sod)
    ensures Repair(gm.year, gm.mon, ds) == dy
  {
    var last := YearLength(y - 1) - 1;
    SameDayOfYear(dy, y - 1, s - 1, last, sod);
    OnDayIsUnique(ds, dy.(year := s - 1901), s - 1, last, sod);
    LastOfDecember(IsLeapYear(y - 1), dy.mon, dy.mday - 1);
    FirstOfJanuary(IsLeapYear(y), gm.mon, gm.mday - 1);
  }

  /** UTC is on 31 December and the local day is 1 January after it. */
  lemma DetourOn(gm: Date, ds: Date, dy: Date, y: int, s: int, sod: int)
    requires ValidDate(gm) && gm.year + 1900 == y
    requires JanFirstWeekday(s + 1) == JanFirstWeekday(y + 1)
    requires DaysBeforeMonth(IsLeapYear(y), gm.mon) + gm.mday == YearLength(y)
    requires OnDay(ds, s + 1, 0, sod) && OnDay(dy, y + 1, 0, sod)
    ensures Repair(gm.year, gm.mon, ds) == dy
  {
    SameDayOfYear(dy, y + 1, s + 1, 0, sod);
    OnDayIsUnique(ds, dy.(year := s - 1899), s + 1, 0, sod);
    FirstOfJanuary(IsLeapYear(y + 1), dy.mon, dy.mday - 1);
    LastOfDecember(IsLeapYear(y), gm.mon, gm.mday - 1);
  }

  lemma LocalDayBefore(gm: Date, y: int, s: int, sod: int, ds: Date, ts: int, dy: Date, ty: int)
    requires CalendarsMatch(y, s) && 0 <= sod < 86400
    requires ValidDate(gm) && gm.year + 1900 == y
    requires DaysBeforeMonth(IsLeapYear(y), gm.mon) + gm.mday - 1 == 0
    requires ty == 86400 * (DaysToYear(y) - 1) + sod && Names(dy, ty)
    requires ts == 86400 * (DaysToYear(s) - 1) + sod && Names(ds, ts)
    ensures Repair(gm.year, gm.mon, ds) == dy
  {
    NextJanFirst(y - 1);
    NextJanFirst(s - 1);
    NamesDay(dy, ty, y - 1, YearLength(y - 1) - 1, sod);
    NamesDay(ds, ts, s - 1, YearLength(s - 1) - 1, sod);
    DetourBack(gm, ds, dy, y, s, sod);
  }

  lemma LocalDayAfter(gm: Date, y: int, s: int, sod: int, ds: Date, ts: int, dy: Date, ty: int)
    requires CalendarsMatch(y, s) && 0 <= sod < 86400
    requires ValidDate(gm) && gm.year + 1900 == y
    requires DaysBeforeMonth(IsLeapYear(y), gm.mon) + gm.mday == YearLength(y)
    requires ty == 86400 * (DaysToYear(y) + YearLength(y)) + sod && Names(dy, ty)
    requires ts == 86400 * (DaysToYear(s) + YearLength(y)) + sod && Names(ds, ts)
    ensures Repair(gm.year, gm.mon, ds) == dy
  {
    NextJanFirst(y);
    NextJanFirst(s);
    NamesDay(dy, ty, y + 1, 0, sod);
    NamesDay(ds, ts, s + 1, 0, sod);
    DetourOn(gm, ds, dy, y, s, sod);
  }

  /**
   `ds` is the local date `delta` days and `sod` seconds on from the day of `gm`, counted in
   the year `s` in place of `y`; `dy` is that date in `y`.
   */
  lemma LocalDates(gm: Date, y: int, s: int, delta: int, sod: int, ds: Date, ts: int, dy: Date, ty: int)
    requires CalendarsMatch(y, s) && 0 <= sod < 86400 && -1 <= delta <= 1
    requires ValidDate(gm) && gm.year + 1900 == y
    requires gm.yday == DaysBeforeMonth(IsLeapYear(y), gm.mon) + gm.mday - 1
    requires ty == 86400 * (DaysToYear(y) + gm.yday + delta) + sod && Names(dy, ty)
    requires ts == 86400 * (DaysToYear(s) + gm.yday + delta) + sod && Names(ds, ts)
    ensures Repair(gm.year, gm.mon, ds) == dy
  {
    YearDayInYear(IsLeapYear(y), gm.mon, gm.mday - 1);
    var yd := gm.yday + delta;
    if yd < 0 {
      LocalDayBefore(gm, y, s, sod, ds, ts, dy, ty);
    } else if yd >= YearLength(y) {
      LocalDayAfter(gm, y, s, sod, ds, ts, dy, ty);
    } else {
      NamesDay(dy, ty, y, yd, sod);
      NamesDay(ds, ts, s, yd, sod);
      DetourInYear(gm, ds, dy, y, s, yd, sod);
    }
  }

  /** The detour through a year with a matching calendar is invisible. */
  lemma DetourInvisible(t: int, offset: int, s: int, gm: Date, ds: Date, dy: Date)
    requires FixedOffset(offset) && Names(gm, t)
    requires CalendarsMatch(gm.year + 1900, s)
    requires Names(ds, Seconds(gm.(year := s - 1900)) + offset)
    requires Names(dy, t + offset)
    ensures Repair(gm.year, gm.mon, ds) == dy
  {
    var sod0 := 3600 * gm.hour + 60 * gm.min + gm.sec;
    var delta, sod := OffsetInDays(sod0, offset);
    SecondsInYear(gm, s, sod0);
    LocalDates(gm, gm.year + 1900, s, delta, sod, ds, Seconds(gm.(year := s - 1900)) + offset, dy, t + offset);
  }

  lemma SecondsInYear(gm: Date, s: int, sod: int)
    requires ValidDate(gm) && IsLeapYear(s) == IsLeapYear(gm.year + 1900)
    requires gm.yday == DaysBeforeMonth(IsLeapYear(s), gm.mon) + gm.mday - 1
    requires sod == 3600 * gm.hour + 60 * gm.min + gm.sec
    ensures Seconds(gm.(year := s - 1900)) == 86400 * (DaysToYear(s) + gm.yday) + sod
  {
  }

  lemma OffsetInDays(sod0: int, offset: int) returns (delta: int, sod: int)
    requires FixedOffset(offset) && 0 <= sod0 < 86400
    ensures sod0 + offset == 86400 * delta + sod && 0 <= sod < 86400 && -1 <= delta <= 1
  {
    delta, sod := (sod0 + offset) / 86400, (sod0 + offset) % 86400;
  }

  /**
   The `int` arithmetic of `localtime64_r` is defined, or the year of the UTC date is refused
   before it: that year and the year of the local date fit, and so do both with 1900 added.
   */
  predicate YearArithmeticDefined(utcYear: int, localYear: int) {
    InInt32(utcYear) ==> InInt32(utcYear + 1900) && InInt32(localYear) && InInt32(localYear + 1900)
  }

  /** The local time of every `time`, inside the system's range or not. */
  method Localtime64R(time: int, offset: int, local: TM) returns (ok: bool)
    requires InInt64(time) && FixedOffset(offset)
    requires YearArithmeticDefined(Civil(time).year, Civil(time + offset).year)
    modifies local
    ensures ok == InInt32(Civil(time).year)
    ensures ok ==> local.Value() == Civil(time + offset)
    ensures !ok ==> local.Value() == old(local.Value())
  {
    if SYSTEM_LOCALTIME_MIN <= time <= SYSTEM_LOCALTIME_MAX {
      SystemRangeFits(time);
      SystemLocaltime(time, offset, local);
      CivilIsUnique(time + offset, local.Value());
      ok := true;
    } else {
      ok := LocaltimeBySafeYear(time, offset, local);
    }
  }

  method LocaltimeBySafeYear(time: int, offset: int, local: TM) returns (ok: bool)
    requires InInt64(time) && FixedOffset(offset)
    modifies local
    ensures ok == InInt32(Civil(time).year)
    ensures ok ==> local.Value() == Civil(time + offset)
    ensures !ok ==> local.Value() == old(local.Value())
  {
    var gm := new TM();
    ok := Gmtime64R(time, gm);
    if ok {
      CivilNames(time);
      SafeLocaltime(time, offset, gm, local);
      LocalDateChecked(local, time + offset);
      assert local.CheckTm();
    }
  }

  lemma LocalDateChecked(local: TM, t: int)
    requires Names(local.Value(), t)
    ensures local.Value() == Civil(t) && local.CheckTm()
  {
    CivilIsUnique(t, local.Value());
    PassesCheck(local, t);
  }

  /** The year given to the system, counted from 1900: its own between 1970 and 2037, else the safe one. */
  method StandInYear(tmYear: int) returns (year: int)
    ensures CalendarsMatch(tmYear + 1900, year + 1900)
  {
    year := tmYear;
    if tmYear > 2037 - 1900 || tmYear < 1970 - 1900 {
      SafeYearMatches(tmYear + 1900);
      year := SafeYear(tmYear + 1900) - 1900;
    }
  }

  /** The system converts the date `gm` as it stands in a year `s` with the same calendar. */
  method ConvertInStandIn(offset: int, gm: TM, local: TM) returns (ghost s: int)
    requires gm != local && ValidDate(gm.Value())
    modifies gm, local
    ensures CalendarsMatch(old(gm.year) + 1900, s)
    ensures gm.mon == old(gm.mon)
    ensures Names(local.Value(), Seconds(old(gm.Value()).(year := s - 1900)) + offset)
  {
    ghost var utc := gm.Value();
    gm.year := StandInYear(gm.year);
    s := gm.year + 1900;
    assert gm.Value() == utc.(year := s - 1900);
    var safeTime := Timegm64(gm);
    SystemLocaltime(safeTime, offset, local);
  }

  /** The date that the system finds is the local one but for the repairs. */
  method ConvertAway(ghost time: int, offset: int, gm: TM, local: TM, ghost dy: Date)
    requires FixedOffset(offset) && Names(dy, time + offset)
    requires gm != local && Names(gm.Value(), time)
    modifies gm, local
    ensures Repair(old(gm.year), gm.mon, local.Value()) == dy
  {
    ghost var utc := gm.Value();
    ghost var s := ConvertInStandIn(offset, gm, local);
    DetourInvisible(time, offset, s, utc, local.Value(), dy);
  }

  /** The detour: the system converts the date in a safe year, and the year is put back. */
  method SafeLocaltime(ghost time: int, offset: int, gm: TM, local: TM)
    requires FixedOffset(offset)
    requires gm != local && Names(gm.Value(), time)
    modifies gm, local
    ensures Names(local.Value(), time + offset)
  {
    var origYear := gm.year;
    ghost var dy := SomeDateNames(time + offset);
    ConvertAway(time, offset, gm, local, dy);
    RepairLocal(local, origYear, gm.mon);
    assert local.Value() == dy;
  }

  /** The tail of `localtime64_r`: the real year goes back in, and the repairs are made in place. */
  method RepairLocal(local: TM, origYear: int, gmMon: int)
    modifies local
    ensures local.Value() == Repair(origYear, gmMon, old(local.Value()))
  {
    local.year := origYear;
    var monthDiff := local.mon - gmMon;
    if monthDiff == 11 {
      local.year := local.year - 1;
    }
    if monthDiff == -11 {
      local.year := local.year + 1;
    }
    if LeapIndex(local.year) == 0 && local.yday == 365 {
      local.yday := local.yday - 1;
    }
  }

  lemma SystemRangeFits(time: int)
    requires SYSTEM_LOCALTIME_MIN <= time <= SYSTEM_LOCALTIME_MAX
    ensures InInt32(Civil(time).year)
  {
    var d := Civil(time);
    CivilNames(time);
    YearDayInYear(IsLeapYear(d.year + 1900), d.mon, d.mday - 1);
    DaysInRange(time, DaysToYear(d.year + 1900), d.yday, 3600 * d.hour + 60 * d.min + d.sec);
    SoonYear(d.year + 1900);
  }

  lemma DaysInRange(time: int, toYear: int, yday: int, sod: int)
    requires SYSTEM_LOCALTIME_MIN <= time <= SYSTEM_LOCALTIME_MAX
    requires time == 86400 * (toYear + yday) + sod && 0 <= yday <= 366 && 0 <= sod < 86400
    ensures -26000 <= toYear <= 26000
  {
  }

  lemma SoonYear(y: int)
    requires -26000 <= DaysToYear(y) <= 26000
    ensures 1800 <= y <= 2100
  {
    CheatDay();
    if y >= 1970 {
      DaysToYearIncreases(1970, y);
    } else {
      DaysToYearIncreases(y, 1970);
    }
  }

  // ----- mktime64

  /** The leap-year macro on an absolute year, which leaves out the years before 1 except multiples of 400. */
  function LeapIndexAbs(n: int): (r: int)
    ensures n > 0 ==> r == if IsLeapYear(n) then 1 else 0
    ensures 0 <= r <= 1
  {
    ZeroRemainder(n);
    if TruncMod(n, 400) == 0 || (TruncMod(n, 4) == 0 && TruncMod(n, 100) != 0 && n > 0) then 1 else 0
  }

  /** The days in the years `a + 1` to `b` as `seconds_between_years` counts them. */
  function DaysCounted(a: int, b: int): int
    decreases b - a
  {
    if a >= b then 0 else DaysCounted(a + 1, b) + LENGTH_OF_YEAR[LeapIndexAbs(a + 1)]
  }

  /** Whole 400-year cycles taken off a year before 1600; the program then moves the year further back. */
  function EarlyCycles(year: int): int {
    if year < 1600 then TruncDiv(year - 1600, 400) else 0
  }

  /** The seconds counted from `right` back to a year not after it: the cycles, and the years that remain. */
  function SecondsBack(left: int, right: int): int {
    var c := EarlyCycles(left);
    86400 * 146097 * c - 86400 * DaysCounted(left + 400 * c, right)
  }

  /** Takes whole cycles off a year after 2400; before 1600 the year moves the wrong way. */
  method ReduceCycles(left: int) returns (leftYear: int, seconds: int)
    ensures left >= 1600 ==> seconds == 86400 * (DaysToYear(left) - DaysToYear(leftYear))
    ensures left > 2400 ==> 2400 <= leftYear
    ensures left <= 2400 ==> leftYear == left + 400 * EarlyCycles(left) && seconds == 86400 * 146097 * EarlyCycles(left)
  {
    leftYear, seconds := left, 0;
    if leftYear > 2400 {
      var cycles := TruncDiv(leftYear - 2400, 400);
      leftYear := leftYear - cycles * 400;
      seconds := seconds + cycles * (DAYS_IN_GREGORIAN_CYCLE * 60 * 60 * 24);
      GregorianCycle(leftYear, cycles);
    } else if leftYear < 1600 {
      var cycles := TruncDiv(leftYear - 1600, 400);
      leftYear := leftYear + cycles * 400;
      seconds := seconds + cycles * (DAYS_IN_GREGORIAN_CYCLE * 60 * 60 * 24);
    }
  }

  /** What `seconds_between_years` returns. */
  function Between(left: int, right: int): int {
    if left > right then 86400 * (DaysToYear(left) - DaysToYear(right)) else SecondsBack(left, right)
  }

  /** A right year before 1600 or after 2400 could be passed by the reduced left one, and the loop upwards not end. */
  method SecondsBetweenYears(left: int, right: int) returns (seconds: int)
    requires 1600 <= right <= 2400
    ensures seconds == Between(left, right)
  {
    var increment := if left > right then 1 else -1;
    var leftYear;
    leftYear, seconds := ReduceCycles(left);
    if increment > 0 {
      var more := SecondsUpTo(right, leftYear);
      seconds := seconds + more;
    } else {
      var less := SecondsDownTo(right, leftYear);
      seconds := seconds - less;
      assert left <= right;
      assert leftYear == left + 400 * EarlyCycles(left);
    }
  }

  method SecondsUpTo(right: int, left: int) returns (seconds: int)
    requires 0 < right <= left
    ensures seconds == 86400 * (DaysToYear(left) - DaysToYear(right))
  {
    seconds := 0;
    var rightYear := right;
    while left != rightYear
      invariant right <= rightYear <= left
      invariant seconds == 86400 * (DaysToYear(rightYear) - DaysToYear(right))
      decreases left - rightYear
    {
      seconds := seconds + LENGTH_OF_YEAR[LeapIndexAbs(rightYear)] * 60 * 60 * 24;
      NextJanFirst(rightYear);
      rightYear := rightYear + 1;
    }
  }

  method SecondsDownTo(right: int, left: int) returns (seconds: int)
    requires left <= right
    ensures seconds == 86400 * DaysCounted(left, right)
  {
    seconds := 0;
    var rightYear := right;
    while left != rightYear
      invariant left <= rightYear <= right
      invariant seconds == 86400 * DaysCounted(rightYear, right)
      decreases rightYear - left
    {
      seconds := seconds + LENGTH_OF_YEAR[LeapIndexAbs(rightYear)] * 60 * 60 * 24;
      rightYear := rightYear - 1;
    }
  }

  lemma {:induction false} DaysCountedAfterYearZero(a: int, b: int)
    requires 0 <= a <= b
    ensures DaysCounted(a, b) == DaysToYear(b + 1) - DaysToYear(a + 1)
    decreases b - a
  {
    if a < b {
      DaysCountedAfterYearZero(a + 1, b);
      NextJanFirst(a + 1);
    }
  }

  lemma {:induction false} DaysCountedAtLeast(a: int, b: int)
    requires a <= b
    ensures DaysCounted(a, b) >= 365 * (b - a)
    decreases b - a
  {
    if a < b {
      DaysCountedAtLeast(a + 1, b);
    }
  }

  /** The seconds that `seconds_between_years` returns for a year and its safe year. */
  function SecondsToSafeYear(year: int): int {
    Between(year, SafeYear(year))
  }

  /** The distance is right exactly for the years after 1200: before them the cycles are taken off twice. */
  lemma SecondsToSafeYearExact(year: int)
    ensures SecondsToSafeYear(year) == 86400 * (DaysToYear(year) - DaysToYear(SafeYear(year))) <==> year > 1200
  {
    SafeYearMatches(year);
    var safe := SafeYear(year);
    if year > 1200 {
      BetweenExact(year, safe, safe);
    } else {
      EarlyNeverRight(year, safe, safe);
    }
  }

  lemma CyclesTakenTwice(c: int, toRight: int, toSafe: int, counted: int, days: int)
    requires c <= -1 && 400 <= toRight <= 1200 - 400 * c && toSafe <= toRight + 437
    requires counted >= 365 * (toRight - 400 * c) && 0 <= days <= 366 * toSafe
    ensures 146097 * c - counted < -days
  {
  }

  lemma ExactBefore1200Fails()
    ensures SecondsToSafeYear(1200) != 86400 * (DaysToYear(1200) - DaysToYear(SafeYear(1200)))
  {
    SecondsToSafeYearExact(1200);
  }

  /** A date set in another year. */
  function InYear(d: Date, y: int): Date {
    d.(year := y - 1900)
  }

  function InSafeYear(d: Date): Date {
    InYear(d, SafeYear(d.year + 1900))
  }

  /** A date keeps its place in the year when it moves to a year of the same length. */
  lemma SecondsMove(d: Date, y: int)
    requires 0 <= d.mon <= 11 && IsLeapYear(y) == IsLeapYear(d.year + 1900)
    ensures Seconds(d) == Seconds(d.(year := y - 1900)) + 86400 * (DaysToYear(d.year + 1900) - DaysToYear(y))
  {
  }

  lemma SafeDate(d: Date)
    requires 0 <= d.mon <= 11
    ensures Seconds(d)
      == Seconds(InSafeYear(d)) + 86400 * (DaysToYear(d.year + 1900) - DaysToYear(SafeYear(d.year + 1900)))
  {
    var s := SafeOne(d);
    SecondsMove(d, s.year + 1900);
  }

  lemma SafeOne(d: Date) returns (s: Date)
    ensures s == InSafeYear(d) && s.year + 1900 == SafeYear(d.year + 1900) && s == d.(year := s.year)
    ensures IsLeapYear(s.year + 1900) == IsLeapYear(d.year + 1900)
  {
    s := InSafeYear(d);
    SafeYearMatches(d.year + 1900);
  }

  lemma SafeStaysValid(d: Date)
    requires ValidDate(d)
    ensures ValidDate(InSafeYear(d))
  {
    SafeYearMatches(d.year + 1900);
  }

  /** The identity that `mktime64` relies on, and exactly where it holds. */
  lemma MktimeIdentity(d: Date)
    requires ValidDate(d)
    ensures ValidDate(InSafeYear(d))
    ensures Seconds(d) == Seconds(InSafeYear(d)) + SecondsToSafeYear(d.year + 1900) <==> d.year + 1900 > 1200
  {
    SafeStaysValid(d);
    SafeDate(d);
    SecondsToSafeYearExact(d.year + 1900);
  }

  /** The year that the system's `mktime` finds for a date set in the year `s`. */
  function YearFound(d: Date, s: int): int {
    Civil(TimeOf(InYear(d, s))).year + 1900
  }

  function NormalYear(d: Date): int {
    YearFound(d, SafeYear(d.year + 1900))
  }

  /** The seconds from the start of a year to the date set in that year. */
  function IntoYear(d: Date, y: int): int {
    TimeOf(InYear(d, y)) - 86400 * DaysToYear(y)
  }

  /** Nothing carries the date into another year. */
  predicate StaysInYear(d: Date) {
    0 <= IntoYear(d, d.year + 1900) < 86400 * YearLength(d.year + 1900)
  }

  /** The date is as far into one year as into another; months carried over a leap day can tell them apart. */
  predicate SamePlaceIn(d: Date, y: int, s: int) {
    IntoYear(d, y) == IntoYear(d, s)
  }

  lemma MonthsInRange(d: Date)
    requires 0 <= d.mon <= 11
    ensures MonthsCarried(d) == d
  {
  }

  /** With the month in range the place is the same. */
  lemma MonthKeepsPlace(d: Date, y: int)
    requires 0 <= d.mon <= 11
    ensures SamePlaceIn(d, y, SafeYear(y))
  {
    SafeYearMatches(y);
    SameLeapSamePlace(d, y, SafeYear(y));
  }

  lemma SameLeapSamePlace(d: Date, y: int, s: int)
    requires 0 <= d.mon <= 11 && IsLeapYear(y) == IsLeapYear(s)
    ensures IntoYear(d, y) == IntoYear(d, s)
  {
    IntoYearParts(d, y, 0, d.mon);
    IntoYearParts(d, s, 0, d.mon);
  }

  /** Years counted on from two years are as long but for four days. */
  lemma YearsOn(y: int, s: int, k: int)
    ensures -3 <= DaysToYear(y + k) - DaysToYear(y) - (DaysToYear(s + k) - DaysToYear(s)) <= 3
  {
    var l1 := YearSpan(y, k);
    var l2 := YearSpan(s, k);
    LeapYearsOn(y - 1, s - 1, k, l1, l2);
  }

  lemma YearSpan(y: int, k: int) returns (leapDays: int)
    ensures DaysToYear(y + k) - DaysToYear(y) == 365 * k + leapDays
    ensures leapDays == LeapYearsThrough(y - 1 + k) - LeapYearsThrough(y - 1)
  {
    leapDays := LeapYearsThrough(y - 1 + k) - LeapYearsThrough(y - 1);
    DaysToYearClosedForm(y);
    DaysToYearClosedForm(y + k);
    assert y + k - 1 == y - 1 + k;
  }

  lemma LeapYearsOn(a: int, b: int, k: int, l1: int, l2: int)
    requires l1 == LeapYearsThrough(a + k) - LeapYearsThrough(a)
    requires l2 == LeapYearsThrough(b + k) - LeapYearsThrough(b)
    ensures -3 <= l1 - l2 <= 3
  {
    QuotientsOn(a, b, k, 4);
    QuotientsOn(a, b, k, 100);
    QuotientsOn(a, b, k, 400);
  }

  lemma QuotientsOn(a: int, b: int, k: int, n: int)
    requires n == 4 || n == 100 || n == 400
    ensures -1 <= (a + k) / n - a / n - ((b + k) / n - b / n) <= 1
  {
  }

  lemma PlacesClose(d: Date, y: int, s: int)
    ensures -86400 * 4 <= IntoYear(d, y) - IntoYear(d, s) <= 86400 * 4
  {
    var k, m := d.mon / 12, d.mon % 12;
    YearsOn(y, s, k);
    MonthTable(IsLeapYear(y + k));
    MonthTable(IsLeapYear(s + k));
    IntoYearParts(d, y, k, m);
    IntoYearParts(d, s, k, m);
  }

  lemma IntoYearParts(d: Date, y: int, k: int, m: int)
    requires k == d.mon / 12 && m == d.mon % 12
    ensures IntoYear(d, y) == 86400 * (DaysToYear(y + k) - DaysToYear(y) + DaysBeforeMonth(IsLeapYear(y + k), m))
                              + 86400 * (d.mday - 1) + 3600 * d.hour + 60 * d.min + d.sec
  {
    var r := MonthsCarried(InYear(d, y));
    assert r.year + 1900 == y + k && r.mon == m;
  }

  /** The year of a time is the one between whose first seconds it lies. */
  lemma YearOfTime(t: int, y: int)
    ensures Civil(t).year + 1900 == y <==> 86400 * DaysToYear(y) <= t < 86400 * (DaysToYear(y) + YearLength(y))
  {
    CivilNames(t);
    YearNamed(Civil(t), t, y);
  }

  lemma YearNamed(d: Date, t: int, y: int)
    requires Names(d, t)
    ensures d.year + 1900 == y <==> 86400 * DaysToYear(y) <= t < 86400 * (DaysToYear(y) + YearLength(y))
  {
    YearDayInYear(IsLeapYear(d.year + 1900), d.mon, d.mday - 1);
    if 86400 * DaysToYear(y) <= t < 86400 * (DaysToYear(y) + YearLength(y)) {
      DayInYear(t, y);
      YearIsUnique(d.year + 1900, d.yday, y, t / 86400 - DaysToYear(y));
    }
  }

  lemma DayInYear(t: int, y: int)
    requires 86400 * DaysToYear(y) <= t < 86400 * (DaysToYear(y) + YearLength(y))
    ensures 0 <= t / 86400 - DaysToYear(y) < YearLength(y)
  {
  }

  lemma TimeInYear(d: Date, y: int)
    ensures TimeOf(InYear(d, y)) == 86400 * DaysToYear(y) + IntoYear(d, y)
    ensures y == d.year + 1900 ==> InYear(d, y) == d
  {
  }

  /** The system finds the year again exactly if the date set in it stays in it. */
  lemma YearFoundAgain(d: Date, s: int)
    ensures YearFound(d, s) == s <==> 0 <= IntoYear(d, s) < 86400 * YearLength(s)
  {
    TimeInYear(d, s);
    YearOfTime(TimeOf(InYear(d, s)), s);
  }

  lemma ValidInYear(d: Date, s: int)
    requires ValidDate(d) && IsLeapYear(s) == IsLeapYear(d.year + 1900)
    ensures StaysInYear(d) && SamePlaceIn(d, d.year + 1900, s) && YearFound(d, s) == s
    ensures TimeOf(d) == Seconds(d) && TimeOf(InYear(d, s)) == Seconds(InYear(d, s))
  {
    YearDayInYear(IsLeapYear(d.year + 1900), d.mon, d.mday - 1);
    SameLeapSamePlace(d, d.year + 1900, s);
    MonthsInRange(d);
    MonthsInRange(InYear(d, s));
    TimeInYear(d, d.year + 1900);
    YearFoundAgain(d, s);
  }

  /** Different years start at least the length of a year apart. */
  lemma YearsApart(a: int, b: int)
    ensures a < b ==> DaysToYear(a) + 365 <= DaysToYear(b)
  {
    if a < b {
      DaysToYearIncreases(a, b);
    }
  }

  /** How much too long the distance to `right` is for a date that should be brought back to `safe`. */
  function Excess(year: int, safe: int, right: int): int {
    Between(year, right) - 86400 * (DaysToYear(year) - DaysToYear(safe))
  }

  predicate YearOff(excess: int) {
    excess <= -86400 * 365 || 86400 * 365 <= excess
  }

  /** After 1200 the distance to a year is right for the safe one, and wrong by a year or more for any other. */
  lemma BetweenExact(year: int, safe: int, right: int)
    requires year > 1200 && YearLength(year) == YearLength(safe)
    ensures if right == safe then Excess(year, safe, right) == 0 else YearOff(Excess(year, safe, right))
  {
    if year > right {
      YearsApart(right, safe);
      YearsApart(safe, right);
    } else {
      BackExact(year, right);
      NextYears(year, safe);
      YearsApart(right + 1, safe + 1);
      YearsApart(safe + 1, right + 1);
    }
  }

  lemma NextYears(a: int, b: int)
    requires YearLength(a) == YearLength(b)
    ensures DaysToYear(a + 1) - DaysToYear(b + 1) == DaysToYear(a) - DaysToYear(b)
  {
    NextJanFirst(a);
    NextJanFirst(b);
  }

  lemma BackExact(year: int, right: int)
    requires 1200 < year <= right
    ensures SecondsBack(year, right) == 86400 * (DaysToYear(year + 1) - DaysToYear(right + 1))
  {
    assert EarlyCycles(year) == 0;
    DaysCountedAfterYearZero(year, right);
  }

  /** Up to 1200 the years taken off are too many, wherever in 1600..2400 the system finds the date. */
  lemma EarlyNeverRight(year: int, safe: int, right: int)
    requires year <= 1200 && 1971 <= safe <= 2037 && 1600 <= right <= 2400
    ensures Excess(year, safe, right) <= -86400 * 365
  {
    var c := EarlyCycles(year);
    DaysCountedAtLeast(year + 400 * c, right);
    DaysToYearIncreases(year, safe);
    CyclesTakenTwice(c, right - year, safe - year, DaysCounted(year + 400 * c, right),
                     DaysToYear(safe) - DaysToYear(year));
  }

  /** What the detour through the year `s` returns. */
  function Detour(d: Date, s: int): int {
    TimeOf(InYear(d, s)) + Between(d.year + 1900, YearFound(d, s))
  }

  /** The detour is right if the places in the two years make up for the excess, so never if that is a year or more. */
  lemma DetourExact(d: Date, y: int, s: int) returns (excess: int)
    requires y == d.year + 1900
    ensures excess == Excess(y, s, YearFound(d, s))
    ensures Detour(d, s) == TimeOf(d) <==> IntoYear(d, s) + excess == IntoYear(d, y)
    ensures YearOff(excess) ==> Detour(d, s) != TimeOf(d)
  {
    excess := Excess(y, s, YearFound(d, s));
    TimeInYear(d, y);
    TimeInYear(d, s);
    PlacesClose(d, y, s);
  }

  /** After 1200 the detour through a year as long is right exactly if the date stays in its year, at the same place. */
  lemma DetourCarries(d: Date, y: int, s: int)
    requires y == d.year + 1900 > 1200 && YearLength(s) == YearLength(y)
    ensures Detour(d, s) == TimeOf(d) <==> StaysInYear(d) && SamePlaceIn(d, y, s)
  {
    var excess := DetourExact(d, y, s);
    YearFoundAgain(d, s);
    BetweenExact(y, s, YearFound(d, s));
    SamePlaceExact(IntoYear(d, y), IntoYear(d, s), 86400 * YearLength(y), YearFound(d, s) == s, excess);
    InPlace(d, y, s, IntoYear(d, y), IntoYear(d, s));
  }

  lemma InPlace(d: Date, y: int, s: int, intoYear: int, intoSafe: int)
    requires y == d.year + 1900 && intoYear == IntoYear(d, y) && intoSafe == IntoYear(d, s)
    ensures StaysInYear(d) <==> 0 <= intoYear < 86400 * YearLength(y)
    ensures SamePlaceIn(d, y, s) <==> intoYear == intoSafe
  {
  }

  lemma SamePlaceExact(intoYear: int, intoSafe: int, length: int, kept: bool, excess: int)
    requires kept <==> 0 <= intoSafe < length
    requires if kept then excess == 0 else intoSafe + excess != intoYear
    ensures intoSafe + excess == intoYear <==> 0 <= intoYear < length && intoYear == intoSafe
  {
  }

  /** After 1200, a date with fields out of range is right exactly if it stays in its year, at the same place. */
  lemma MktimeCarries(d: Date, y: int)
    requires y == d.year + 1900 > 1200
    ensures Detour(d, SafeYear(y)) == TimeOf(d) <==> StaysInYear(d) && SamePlaceIn(d, y, SafeYear(y))
  {
    SafeYearMatches(y);
    DetourCarries(d, y, SafeYear(y));
  }

  /** The 32nd of December is put off by the length of a year. */
  lemma CarryFails(d: Date, y: int)
    requires y == d.year + 1900 > 1200 && d.mon == 11 && d.mday == 32
    requires 0 <= d.hour <= 23 && 0 <= d.min <= 59 && 0 <= d.sec <= 59
    ensures !StaysInYear(d) && Detour(d, SafeYear(y)) != TimeOf(d)
  {
    ThirtySecondLeaves(d, IsLeapYear(y));
    MktimeCarries(d, y);
  }

  lemma ThirtySecondLeaves(d: Date, leap: bool)
    requires d.mon == 11 && d.mday == 32 && leap == IsLeapYear(d.year + 1900)
    requires 0 <= d.hour && 0 <= d.min && 0 <= d.sec
    ensures !StaysInYear(d)
  {
    DecemberIsLast(leap);
    IntoYearParts(d, d.year + 1900, 0, 11);
  }

  /** A date in 2099 counted back from March: over a leap day after the safe year 2015, over none after 2099. */
  lemma LeapDayFails(d: Date, s: int)
    requires d.year == 199 && d.mon == 14 && d.mday == -80 && d.hour == 0 && d.min == 0 && d.sec == 0
    requires s == SafeYear(2099)
    ensures StaysInYear(d) && !SamePlaceIn(d, 2099, s) && Detour(d, s) != TimeOf(d)
  {
    SafeYearOf2099();
    MarchBefore(d, 2099, false);
    MarchBefore(d, s, true);
    DetourCarries(d, 2099, s);
  }

  lemma SafeYearOf2099()
    ensures SafeYear(2099) == 2015
  {
    assert CycleOffset(2099) == 0;
    assert !IsExceptionCentury(2099) && !IsExceptionCentury(2098);
    assert TruncMod(2099, SOLAR_CYCLE_LENGTH) == 27;
  }

  lemma MarchBefore(d: Date, y: int, leap: bool)
    requires d.mon == 14 && d.mday == -80 && d.hour == 0 && d.min == 0 && d.sec == 0
    requires leap == IsLeapYear(y + 1) && !IsLeapYear(y)
    ensures IntoYear(d, y) == 86400 * (365 - if leap then 21 else 22)
  {
    MonthTable(leap);
    NextJanFirst(y);
    IntoYearParts(d, y, 1, 2);
  }

  function CmpInt(a: int, b: int): int {
    if a > b then 1 else if a < b then -1 else 0
  }

  /** -1, 0 or 1 as the left date comes before, at or after the right one. */
  function CmpDate(l: Date, r: Date): int {
    if l.year != r.year then CmpInt(l.year, r.year)
    else if l.mon != r.mon then CmpInt(l.mon, r.mon)
    else if l.mday != r.mday then CmpInt(l.mday, r.mday)
    else if l.hour != r.hour then CmpInt(l.hour, r.hour)
    else if l.min != r.min then CmpInt(l.min, r.min)
    else CmpInt(l.sec, r.sec)
  }

  predicate DateInSafeRange(date: Date, min: Date, max: Date) {
    CmpDate(date, min) != -1 && CmpDate(date, max) != 1
  }

  /** Comparing the fields in turn orders valid dates by time. */
  lemma CmpDateOrdersTimes(l: Date, r: Date)
    requires ValidDate(l) && ValidDate(r)
    ensures CmpDate(l, r) == CmpInt(Seconds(l), Seconds(r))
  {
    if l.year < r.year || (l.year == r.year && l.mon < r.mon) {
      EarlierDay(l, r);
    } else if r.year < l.year || (l.year == r.year && r.mon < l.mon) {
      EarlierDay(r, l);
    }
  }

  lemma EarlierDay(l: Date, r: Date)
    requires ValidDate(l) && ValidDate(r)
    requires l.year < r.year || (l.year == r.year && l.mon < r.mon)
    ensures Seconds(l) < Seconds(r)
  {
    if l.year < r.year {
      EarlierYear(l, r);
    } else {
      MonthsIncrease(IsLeapYear(l.year + 1900), l.mon + 1, r.mon);
    }
  }

  lemma EarlierYear(l: Date, r: Date)
    requires ValidDate(l) && ValidDate(r) && l.year < r.year
    ensures Seconds(l) < Seconds(r)
  {
    YearDayInYear(IsLeapYear(l.year + 1900), l.mon, l.mday - 1);
    YearDayInYear(IsLeapYear(r.year + 1900), r.mon, r.mday - 1);
    YearEndsBefore(l.year + 1900, r.year + 1900);
  }

  /** The caller's date is converted by the system as it stands. */
  predicate InRange(d: Date) {
    DateInSafeRange(d, SYSTEM_MKTIME_MIN, SYSTEM_MKTIME_MAX)
  }

  /** What `mktime64` returns, in UTC. */
  function MktimeReturned(d: Date): int {
    if InRange(d) then TimeOf(d) else Detour(d, SafeYear(d.year + 1900))
  }

  /** What `mktime64` accepts here: where the program's loops are known to end, whatever the fields. */
  predicate Accepted(d: Date) {
    InRange(d) || 1600 <= NormalYear(d) <= 2400
  }

  /** Where the time returned is that of the date, given as something a caller can check before the call. */
  predicate Convertible(d: Date) {
    InRange(d) || (d.year + 1900 > 1200 && StaysInYear(d) && SamePlaceIn(d, d.year + 1900, SafeYear(d.year + 1900)))
  }

  lemma MktimeExact(d: Date)
    requires Accepted(d)
    ensures MktimeReturned(d) == TimeOf(d) <==> Convertible(d)
  {
    if !InRange(d) {
      DetourRight(d, d.year + 1900);
    }
  }

  lemma DetourRight(d: Date, y: int)
    requires y == d.year + 1900 && 1600 <= YearFound(d, SafeYear(y)) <= 2400
    ensures Detour(d, SafeYear(y)) == TimeOf(d) <==> y > 1200 && StaysInYear(d) && SamePlaceIn(d, y, SafeYear(y))
  {
    if y > 1200 {
      MktimeCarries(d, y);
    } else {
      SafeYearMatches(y);
      EarlyDetour(d, y, SafeYear(y));
    }
  }

  lemma EarlyDetour(d: Date, y: int, s: int)
    requires y == d.year + 1900 <= 1200 && 1971 <= s <= 2037 && 1600 <= YearFound(d, s) <= 2400
    ensures Detour(d, s) != TimeOf(d)
  {
    EarlyNeverRight(y, s, YearFound(d, s));
    var excess := DetourExact(d, y, s);
  }

  /**
   The time of a local date, any of whose fields may be out of range. Outside the system's
   range the caller's struct is left in the safe year.
   */
  method Mktime64(date: TM, offset: int) returns (time: int)
    requires Accepted(date.Value()) && FixedOffset(offset)
    requires InInt32(date.year) && InInt32(date.year + 1900)
    modifies date
    ensures time == old(MktimeReturned(date.Value())) - offset
    ensures time == old(TimeOf(date.Value())) - offset <==> old(Convertible(date.Value()))
    ensures date.Value()
      == old(Civil(TimeOf(if InRange(date.Value()) then date.Value() else InSafeYear(date.Value()))))
  {
    MktimeExact(date.Value());
    if DateInSafeRange(date.Value(), SYSTEM_MKTIME_MIN, SYSTEM_MKTIME_MAX) {
      time := SystemMktime(date, offset);
    } else {
      time := SafeMktime(date, offset);
    }
  }

  /** A valid date is only completed, there or in the safe year. */
  lemma ValidStays(d: Date)
    requires ValidDate(d)
    ensures var r := Civil(Seconds(d)); r == d.(wday := r.wday, yday := r.yday)
    ensures var r := Civil(Seconds(InSafeYear(d))); r == InSafeYear(d).(wday := r.wday, yday := r.yday)
  {
    SafeStaysValid(d);
    CivilOfSeconds(d);
    CivilOfSeconds(InSafeYear(d));
  }

  lemma ValidConvertible(d: Date)
    requires ValidDate(d)
    ensures Accepted(d) && (Convertible(d) <==> d.year + 1900 > 1200)
    ensures TimeOf(d) == Seconds(d) && TimeOf(InSafeYear(d)) == Seconds(InSafeYear(d))
  {
    SafeYearMatches(d.year + 1900);
    ValidInYear(d, SafeYear(d.year + 1900));
  }

  /** `mktime64` on a valid date: right if and only if the year is after 1200. */
  method MktimeOfValid(date: TM, offset: int) returns (time: int)
    requires ValidDate(date.Value()) && FixedOffset(offset)
    requires InInt32(date.year) && InInt32(date.year + 1900)
    modifies date
    ensures time == old(MktimeReturned(date.Value())) - offset
    ensures time == old(Seconds(date.Value())) - offset <==> old(date.year + 1900 > 1200)
    ensures date.Value() == (if old(InRange(date.Value())) then old(date.Value()) else old(InSafeYear(date.Value())))
                            .(wday := date.wday, yday := date.yday)
  {
    ghost var d := date.Value();
    ValidConvertible(d);
    ValidStays(d);
    time := Mktime64(date, offset);
  }

  /** A time is brought back by its own local date if and only if the year of that date is after 1200. */
  method LocaltimeThenMktime(time: int, offset: int) returns (ok: bool, back: int)
    requires InInt64(time) && FixedOffset(offset)
    requires YearArithmeticDefined(Civil(time).year, Civil(time + offset).year)
    ensures ok == InInt32(Civil(time).year)
    ensures ok ==> (back == time <==> Civil(time + offset).year + 1900 > 1200)
  {
    back := 0;
    var local := new TM();
    ok := Localtime64R(time, offset, local);
    if ok {
      LocalIsValid(time + offset, local.Value());
      back := MktimeOfValid(local, offset);
    }
  }

  lemma LocalIsValid(t: int, d: Date)
    requires d == Civil(t)
    ensures ValidDate(d) && Seconds(d) == t
  {
    CivilNames(t);
    SecondsOfCivil(t);
  }

  /** A valid date is brought back by its own time, with weekday and day of the year, for the same years. */
  method MktimeThenLocaltime(date: TM, offset: int, local: TM, ghost d: Date, ghost t: int) returns (ok: bool)
    requires date != local && d == date.Value() && ValidDate(d) && FixedOffset(offset)
    requires InInt32(d.year) && InInt32(d.year + 1900) && t == MktimeReturned(d)
    requires InInt64(t - offset) && YearArithmeticDefined(Civil(t - offset).year, Civil(t).year)
    modifies date, local
    ensures ok == InInt32(Civil(t - offset).year)
    ensures ok ==> (SameDate(d, local.Value()) <==> d.year + 1900 > 1200)
  {
    var time := TimeOfValid(date, offset, d, t);
    ok := ConvertBack(time, offset, local, d, t);
  }

  method TimeOfValid(date: TM, offset: int, ghost d: Date, ghost t: int) returns (time: int)
    requires d == date.Value() && ValidDate(d) && FixedOffset(offset) && t == MktimeReturned(d)
    requires InInt32(d.year) && InInt32(d.year + 1900)
    modifies date
    ensures time == t - offset && (t == Seconds(d) <==> d.year + 1900 > 1200)
  {
    time := MktimeOfValid(date, offset);
  }

  method ConvertBack(time: int, offset: int, local: TM, ghost d: Date, ghost t: int) returns (ok: bool)
    requires InInt64(time) && FixedOffset(offset) && ValidDate(d) && time == t - offset
    requires YearArithmeticDefined(Civil(t - offset).year, Civil(t).year)
    modifies local
    ensures ok == InInt32(Civil(t - offset).year)
    ensures ok ==> (SameDate(d, local.Value()) <==> Seconds(d) == t)
  {
    assert time + offset == t;
    ok := Localtime64R(time, offset, local);
    DateOfTime(d, t);
  }

  /** Two dates that agree in all but weekday and day of the year. */
  predicate SameDate(a: Date, b: Date) {
    a == b.(wday := a.wday, yday := a.yday)
  }

  /** A date but for weekday and day of the year is that of a time exactly if it adds up to it. */
  lemma DateOfTime(d: Date, t: int)
    requires ValidDate(d)
    ensures SameDate(d, Civil(t)) <==> Seconds(d) == t
  {
    CivilOfSeconds(d);
    SecondsOfCivil(t);
    if SameDate(d, Civil(t)) {
      SameSeconds(d, Civil(t));
    }
  }

  lemma SameSeconds(a: Date, b: Date)
    requires 0 <= a.mon <= 11 && SameDate(a, b)
    ensures Seconds(a) == Seconds(b)
  {
  }

  /** `date`, `safe_date` and the final copy back are one struct here. */
  method SafeMktime(date: TM, offset: int) returns (time: int)
    requires 1600 <= NormalYear(date.Value()) <= 2400
    modifies date
    ensures date.Value() == old(Civil(TimeOf(InSafeYear(date.Value()))))
    ensures time == old(Detour(date.Value(), SafeYear(date.year + 1900))) - offset
  {
    var year := date.year + 1900;
    var safeYear := SafeYear(year);
    ghost var d, safe := date.Value(), InYear(date.Value(), safeYear);
    date.year := safeYear - 1900;
    time := MktimeFrom(date, offset, year, d, safe, safeYear);
  }

  /** The system converts the date, and the distance of the years is added. */
  method MktimeFrom(date: TM, offset: int, year: int, ghost d: Date, ghost safe: Date, ghost s: int)
    returns (time: int)
    requires date.Value() == safe == InYear(d, s) && year == d.year + 1900 && 1600 <= YearFound(d, s) <= 2400
    modifies date
    ensures date.Value() == Civil(TimeOf(safe)) && time == Detour(d, s) - offset
  {
    time := SystemMktime(date, offset);
    assert date.year + 1900 == YearFound(d, s);
    var distance := SecondsBetweenYears(year, date.year + 1900);
    time := time + distance;
  }

  /** The dates given to the system as they stand end eight hours inside the 32-bit clock. */
  lemma SystemMktimeRange()
    ensures Seconds(SYSTEM_MKTIME_MAX) == 0x7FFF_FFFF - 8 * 3600
    ensures Seconds(SYSTEM_MKTIME_MIN) == -0x8000_0000 - 8 * 3600
    ensures ValidDate(SYSTEM_MKTIME_MAX) && ValidDate(SYSTEM_MKTIME_MIN)
  {
    SystemYear(SYSTEM_MKTIME_MAX.year + 1900);
    SystemYear(SYSTEM_MKTIME_MIN.year + 1900);
    MonthTable(false);
  }

  lemma SystemYear(y: int)
    ensures y == 2038 ==> !IsLeapYear(y) && DaysToYear(y) == 24837
    ensures y == 1901 ==> !IsLeapYear(y) && DaysToYear(y) == -25202
  {
    DaysToYearClosedForm(y);
  }

  /** A valid date is given to the system as it stands exactly if its time is in that range. */
  lemma InRangeByTime(d: Date)
    requires ValidDate(d)
    ensures InRange(d) <==> -0x8000_0000 - 8 * 3600 <= Seconds(d) <= 0x7FFF_FFFF - 8 * 3600
  {
    SystemMktimeRange();
    CmpDateOrdersTimes(d, SYSTEM_MKTIME_MIN);
    CmpDateOrdersTimes(d, SYSTEM_MKTIME_MAX);
  }
}
