/** `cycle_offset` and `safe_year`: any year stands for one in 1971..2037 with the same calendar. */
module SolarCycle {
  import opened CInt
  import opened Calendar

  const MAX_SAFE_YEAR: int := 2037
  const MIN_SAFE_YEAR: int := 1971
  const SOLAR_CYCLE_LENGTH: int := 28

  /** The stand-ins for later years: the last 28 years up to 2037, in the order of their rows. */
  const SAFE_YEARS_HIGH: seq<int> := [
    2016, 2017, 2018, 2019, 2020, 2021, 2022, 2023, 2024, 2025, 2026, 2027, 2028, 2029,
    2030, 2031, 2032, 2033, 2034, 2035, 2036, 2037, 2010, 2011, 2012, 2013, 2014, 2015]

  /** The stand-ins for earlier years: the first 28 from 1971 on, in the order of their rows. */
  const SAFE_YEARS_LOW: seq<int> := [
    1996, 1997, 1998, 1971, 1972, 1973, 1974, 1975, 1976, 1977, 1978, 1979, 1980, 1981,
    1982, 1983, 1984, 1985, 1986, 1987, 1988, 1989, 1990, 1991, 1992, 1993, 1994, 1995]

  predicate IsExceptionCentury(year: int) {
    TruncMod(year, 100) == 0 && TruncMod(year, 400) != 0
  }

  function CycleOffset(year: int): int {
    var startYear := 2000;
    var yearDiff := if year > startYear then year - startYear - 1 else year - startYear;
    var exceptions := TruncDiv(yearDiff, 100) - TruncDiv(yearDiff, 400);
    exceptions * 16
  }

  /** The row of the 28-year tables, which the program asserts to be in range. */
  function YearCycle(year: int): (cycle: int)
    ensures 0 <= cycle < SOLAR_CYCLE_LENGTH
  {
    var cycle := year + CycleOffset(year);
    var cycle := if year < MIN_SAFE_YEAR then cycle - 8 else cycle;
    var cycle := if IsExceptionCentury(year) then cycle + 11 else cycle;
    var cycle := if IsExceptionCentury(year - 1) then cycle + 17 else cycle;
    var cycle := TruncMod(cycle, SOLAR_CYCLE_LENGTH);
    if cycle < 0 then SOLAR_CYCLE_LENGTH + cycle else cycle
  }

  function SafeYear(year: int): int {
    if MIN_SAFE_YEAR <= year <= MAX_SAFE_YEAR then year
    else if year < MIN_SAFE_YEAR then SAFE_YEARS_LOW[YearCycle(year)]
    else SAFE_YEARS_HIGH[YearCycle(year)]
  }

  /** The day of the week of 1 January; 0 is Sunday. */
  function JanFirstWeekday(y: int): int {
    (DaysToYear(y) + 4) % 7
  }

  /** What a matching year must keep: its own calendar, the whole previous year, and the start of the next. */
  predicate CalendarsMatch(y: int, s: int) {
    && IsLeapYear(s) == IsLeapYear(y) && JanFirstWeekday(s) == JanFirstWeekday(y)
    && IsLeapYear(s - 1) == IsLeapYear(y - 1) && JanFirstWeekday(s - 1) == JanFirstWeekday(y - 1)
    && JanFirstWeekday(s + 1) == JanFirstWeekday(y + 1)
  }

  /** Centuries up to `y` that dropped their leap day; 15 for every safe year. */
  function Exceptions(y: int): int {
    (y - 1) / 100 - (y - 1) / 400
  }

  /** 1 January of `y` if every fourth year were a leap year. */
  function JulianFirst(y: int): int {
    365 * (y - 1970) + (y - 1) / 4 - 477
  }

  /** What `YearCycle` adds to the year beyond the 16 years for each dropped leap day. */
  function CenturyShift(year: int): int {
    if IsExceptionCentury(year) then 11 else if IsExceptionCentury(year - 1) then 17 else 0
  }

  lemma ExceptionCentury(y: int)
    ensures IsExceptionCentury(y) <==> y % 100 == 0 && y % 400 != 0
  {
    TruncModZero(y, 100);
    TruncModZero(y, 400);
  }

  /** The truncating divisions of `cycle_offset` count the dropped leap days on both sides of 2000. */
  lemma CycleOffsetCountsExceptions(year: int)
    ensures CycleOffset(year) == 16 * (Exceptions(year) - 15)
  {
    var yearDiff := if year > 2000 then year - 2001 else year - 2000;
    DroppedDays(year, yearDiff);
    OffsetOf(year, yearDiff, Exceptions(year) - 15);
  }

  lemma OffsetOf(year: int, yearDiff: int, exceptions: int)
    requires yearDiff == if year > 2000 then year - 2001 else year - 2000
    requires exceptions == TruncDiv(yearDiff, 100) - TruncDiv(yearDiff, 400)
    ensures CycleOffset(year) == 16 * exceptions
  {
  }

  lemma DroppedDays(year: int, yearDiff: int)
    requires yearDiff == if year > 2000 then year - 2001 else year - 2000
    ensures TruncDiv(yearDiff, 100) - TruncDiv(yearDiff, 400) == Exceptions(year) - 15
  {
    if year > 2000 {
      FloorDiv(year, 100);
      FloorDiv(year, 400);
    } else {
      CeilingDiv(year, 100);
      CeilingDiv(year, 400);
    }
  }

  lemma FloorDiv(year: int, k: int)
    requires year > 2000
    requires k == 100 || k == 400
    ensures TruncDiv(year - 2001, k) == (year - 1) / k - 2000 / k
  {
  }

  lemma CeilingDiv(year: int, k: int)
    requires year <= 2000
    requires k == 100 || k == 400
    ensures TruncDiv(year - 2000, k) == (year - 1) / k - 2000 / k + 1
  {
    var q, r := (year - 1) / k, (year - 1) % k;
    assert 2000 - year == k * (2000 / k - q) - r - 1;
    assert (2000 - year) / k == 2000 / k - q - 1;
  }

  lemma SafeYearsHigh(i: int)
    requires 0 <= i < SOLAR_CYCLE_LENGTH
    ensures SAFE_YEARS_HIGH[i] == 2016 + (if i < 22 then i else i - 28)
  {
  }

  lemma SafeYearsLow(i: int)
    requires 0 <= i < SOLAR_CYCLE_LENGTH
    ensures SAFE_YEARS_LOW[i] == 1996 + (if i < 3 then i else i - 28)
  {
  }

  lemma YearCycleResidue(year: int) returns (d: int)
    ensures YearCycle(year) ==
      year + CycleOffset(year) + CenturyShift(year) - (if year < MIN_SAFE_YEAR then 8 else 0) + 28 * d
  {
    NotBothCenturies(year);
    d := Residue(year + CycleOffset(year) + CenturyShift(year) - if year < MIN_SAFE_YEAR then 8 else 0);
  }

  lemma NotBothCenturies(year: int)
    ensures !(IsExceptionCentury(year) && IsExceptionCentury(year - 1))
  {
    ExceptionCentury(year);
    ExceptionCentury(year - 1);
  }

  lemma Residue(total: int) returns (d: int)
    ensures var r := TruncMod(total, SOLAR_CYCLE_LENGTH);
      (if r < 0 then SOLAR_CYCLE_LENGTH + r else r) == total + 28 * d
  {
    d := if TruncMod(total, 28) < 0 then 1 - TruncDiv(total, 28) else -TruncDiv(total, 28);
  }

  /** Both tables follow the 28-year cycle, the low one starting 8 years later. */
  lemma SafeYearInCycle(year: int) returns (k: int)
    requires year < MIN_SAFE_YEAR || year > MAX_SAFE_YEAR
    ensures MIN_SAFE_YEAR <= SafeYear(year) <= MAX_SAFE_YEAR
    ensures SafeYear(year) == year + 16 * (Exceptions(year) - 15) + CenturyShift(year) + 28 * k
  {
    CycleOffsetCountsExceptions(year);
    var d := YearCycleResidue(year);
    var cycle := YearCycle(year);
    if year < MIN_SAFE_YEAR {
      SafeYearsLow(cycle);
      k := d + if cycle < 3 then 71 else 70;
    } else {
      SafeYearsHigh(cycle);
      k := d + if cycle < 22 then 72 else 71;
    }
  }

  /** The safe year of a year, exactly: the one in a span of 28 years that is whole cycles away from a shifted year. */
  lemma SafeYearExactly(year: int)
    ensures 1971 <= year <= 2037 ==> SafeYear(year) == year
    ensures year < 1971 ==> 1971 <= SafeYear(year) <= 1998
    ensures year > 2037 ==> 2010 <= SafeYear(year) <= 2037
    ensures year < 1971 || year > 2037 ==>
      var dropped := (year - 1) / 100 - (year - 1) / 400 - 15;
      var shift := if year % 100 == 0 && year % 400 != 0 then 11
                   else if (year - 1) % 100 == 0 && (year - 1) % 400 != 0 then 17
                   else 0;
      (SafeYear(year) - (year + 16 * dropped + shift)) % 28 == 0
  {
    if year < 1971 || year > 2037 {
      var k := SafeYearInCycle(year);
      ExceptionCentury(year);
      ExceptionCentury(year - 1);
      SafeYearSpan(year);
      WholeCycles(SafeYear(year) - (year + 16 * (Exceptions(year) - 15) + CenturyShift(year)), k);
    }
  }

  lemma SafeYearSpan(year: int)
    ensures year < 1971 ==> 1971 <= SafeYear(year) <= 1998
    ensures year > 2037 ==> 2010 <= SafeYear(year) <= 2037
  {
    if year < 1971 {
      SafeYearsLow(YearCycle(year));
    } else if year > 2037 {
      SafeYearsHigh(YearCycle(year));
    }
  }

  lemma WholeCycles(a: int, k: int)
    requires a == 28 * k
    ensures a % 28 == 0
  {
  }

  /** Inside 1971..2037, and one year before, the calendar is Julian. */
  lemma SafeYearsAreJulian(s: int)
    requires MIN_SAFE_YEAR <= s <= MAX_SAFE_YEAR
    ensures Exceptions(s) == 15
    ensures IsLeapYear(s) == (s % 4 == 0) && IsLeapYear(s - 1) == ((s - 1) % 4 == 0)
  {
  }

  lemma DaysToYearFromJulian(y: int)
    ensures DaysToYear(y) == JulianFirst(y) - Exceptions(y)
  {
    DaysToYearClosedForm(y);
  }

  /** Sixteen years move a Julian New Year back one weekday, and 28 years not at all. */
  lemma JulianShift(y: int, n: int, k: int)
    ensures JulianFirst(y + 16 * n + 28 * k) == JulianFirst(y) + 5844 * n + 10227 * k
  {
    assert (y - 1 + 16 * n + 28 * k) / 4 == (y - 1) / 4 + 4 * n + 7 * k;
  }

  lemma CenturyShiftKeepsWeekday(y: int) returns (j: int)
    ensures JulianFirst(y + CenturyShift(y)) == JulianFirst(y) + 7 * j
    ensures var s := y + CenturyShift(y);
      (s % 4 == 0) == IsLeapYear(y) && ((s - 1) % 4 == 0) == IsLeapYear(y - 1)
  {
    ExceptionCentury(y);
    ExceptionCentury(y - 1);
    CenturyShiftDays(y);
    j := if IsExceptionCentury(y) then 574 else if IsExceptionCentury(y - 1) then 887 else 0;
    if IsExceptionCentury(y) {
      CenturyYears(y);
      ShiftedLeap(y, 11);
    } else if IsExceptionCentury(y - 1) {
      CenturyYears(y - 1);
      ShiftedLeap(y, 17);
    } else {
      CenturyYears(y);
      CenturyYears(y - 1);
    }
  }

  /** Neither such a year nor the one before it is a leap year, and neither are the years that stand for them. */
  lemma ShiftedLeap(y: int, shift: int)
    requires (shift == 11 && y % 4 == 0) || (shift == 17 && (y - 1) % 4 == 0)
    ensures (y + shift) % 4 != 0 && (y + shift - 1) % 4 != 0
    ensures shift == 11 ==> (y - 1) % 4 != 0
    ensures shift == 17 ==> y % 4 != 0
  {
  }

  /** Eleven years from a year that four divides, or seventeen from the one after it, are whole weeks. */
  lemma CenturyShiftDays(y: int)
    ensures y % 4 == 0 ==> JulianFirst(y + 11) == JulianFirst(y) + 7 * 574
    ensures (y - 1) % 4 == 0 ==> JulianFirst(y + 17) == JulianFirst(y) + 7 * 887
  {
  }

  lemma SameWeekday(a: int, b: int, j: int)
    requires b == a + 7 * j
    ensures (b + 4) % 7 == (a + 4) % 7
  {
  }

  lemma SafeYearWeekdayAndLeap(year: int) returns (q: int)
    requires year < MIN_SAFE_YEAR || year > MAX_SAFE_YEAR
    ensures MIN_SAFE_YEAR <= SafeYear(year) <= MAX_SAFE_YEAR
    ensures DaysToYear(SafeYear(year)) == DaysToYear(year) + 7 * q
    ensures IsLeapYear(SafeYear(year)) == IsLeapYear(year)
    ensures IsLeapYear(SafeYear(year) - 1) == IsLeapYear(year - 1)
  {
    var k := SafeYearInCycle(year);
    q := WholeWeeksTo(year, SafeYear(year), Exceptions(year) - 15, k);
  }

  /** A year in 1971..2037 reached by the century shift, 16 years for each dropped leap day, and whole cycles. */
  lemma WholeWeeksTo(year: int, s: int, n: int, k: int) returns (q: int)
    requires MIN_SAFE_YEAR <= s <= MAX_SAFE_YEAR && n == Exceptions(year) - 15
    requires s == year + 16 * n + CenturyShift(year) + 28 * k
    ensures DaysToYear(s) == DaysToYear(year) + 7 * q
    ensures IsLeapYear(s) == IsLeapYear(year) && IsLeapYear(s - 1) == IsLeapYear(year - 1)
  {
    var c := CenturyShift(year);
    var j := CenturyShiftKeepsWeekday(year);
    JulianShift(year + c, n, k);
    SafeYearsAreJulian(s);
    DaysToYearFromJulian(year);
    DaysToYearFromJulian(s);
    q := j + 835 * n + 1461 * k;
    FourYears(year + c, s, 4 * n + 7 * k);
  }

  lemma FourYears(a: int, b: int, j: int)
    requires b == a + 4 * j
    ensures b % 4 == a % 4 && (b - 1) % 4 == (a - 1) % 4
  {
  }

  lemma WholeWeeksApart(y: int, s: int, q: int)
    requires DaysToYear(s) == DaysToYear(y) + 7 * q
    requires YearLength(s) == YearLength(y) && YearLength(s - 1) == YearLength(y - 1)
    ensures DaysToYear(s + 1) == DaysToYear(y + 1) + 7 * q
    ensures DaysToYear(s - 1) == DaysToYear(y - 1) + 7 * q
  {
    NextJanFirst(y);
    NextJanFirst(s);
    NextJanFirst(y - 1);
    NextJanFirst(s - 1);
  }

  lemma WholeWeeksMatch(y: int, s: int, q: int)
    requires DaysToYear(s) == DaysToYear(y) + 7 * q
    requires IsLeapYear(s) == IsLeapYear(y) && IsLeapYear(s - 1) == IsLeapYear(y - 1)
    ensures CalendarsMatch(y, s)
  {
    WholeWeeksApart(y, s, q);
    SameWeekday(DaysToYear(y), DaysToYear(s), q);
    SameWeekday(DaysToYear(y + 1), DaysToYear(s + 1), q);
    SameWeekday(DaysToYear(y - 1), DaysToYear(s - 1), q);
  }

  /** The safe year has the calendar of the year it stands for, before 1971 and after 2037 alike. */
  lemma SafeYearMatches(year: int)
    ensures MIN_SAFE_YEAR <= SafeYear(year) <= MAX_SAFE_YEAR
    ensures CalendarsMatch(year, SafeYear(year))
  {
    if year < MIN_SAFE_YEAR || year > MAX_SAFE_YEAR {
      var q := SafeYearWeekdayAndLeap(year);
      WholeWeeksMatch(year, SafeYear(year), q);
    }
  }
}
