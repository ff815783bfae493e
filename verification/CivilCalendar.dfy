/** `civil_from_days`: day numbers to Gregorian dates, proved against the calendar itself (leap
    rule, month lengths, the day after a date). */
module CivilCalendar {
  datatype Date = Date(year: int, month: int, day: int)

  // ---- the calendar ---------------------------------------------------------------------------------

  predicate IsLeap(y: int) {
    y % 4 == 0 && (y % 100 != 0 || y % 400 == 0)
  }

  function DaysInMonth(y: int, m: int): int {
    if m == 2 then (if IsLeap(y) then 29 else 28)
    else if m == 4 || m == 6 || m == 9 || m == 11 then 30
    else 31
  }

  predicate ValidDate(c: Date) {
    1 <= c.month <= 12 && 1 <= c.day <= DaysInMonth(c.year, c.month)
  }

  function NextDay(c: Date): Date {
    if c.day < DaysInMonth(c.year, c.month) then c.(day := c.day + 1)
    else if c.month < 12 then Date(c.year, c.month + 1, 1)
    else Date(c.year + 1, 1, 1)
  }

  /** Days of a year before the first of month `m`. */
  function DaysBeforeMonth(y: int, m: int): int
    requires 1 <= m <= 12
  {
    if m == 1 then 0 else DaysBeforeMonth(y, m - 1) + DaysInMonth(y, m - 1)
  }

  /** Days from 1 January of year 0 to 1 January of year `y`. */
  function DaysBeforeYear(y: int): int {
    365 * y + (y + 3) / 4 - (y + 99) / 100 + (y + 399) / 400
  }

  lemma FourthStep(y: int)
    ensures (y + 4) / 4 == (y + 3) / 4 + if y % 4 == 0 then 1 else 0
  {
  }

  lemma HundredthStep(y: int)
    ensures (y + 100) / 100 == (y + 99) / 100 + if y % 100 == 0 then 1 else 0
  {
  }

  lemma FourHundredthStep(y: int)
    ensures (y + 400) / 400 == (y + 399) / 400 + if y % 400 == 0 then 1 else 0
  {
  }

  lemma DivisibilityChain(y: int)
    ensures y % 400 == 0 ==> y % 100 == 0
    ensures y % 100 == 0 ==> y % 4 == 0
  {
    var c, r := y / 100, y % 100;
    assert y == 4 * (25 * c) + r;
    var e, t := y / 400, y % 400;
    assert y == 100 * (4 * e) + t;
  }

  lemma YearLength(y: int)
    ensures DaysBeforeYear(y + 1) == DaysBeforeYear(y) + if IsLeap(y) then 366 else 365
  {
    FourthStep(y);
    HundredthStep(y);
    FourHundredthStep(y);
    DivisibilityChain(y);
  }

  /** Days since 1 January 1970, counted from the calendar. */
  function DaysFromCivil(c: Date): int
    requires 1 <= c.month <= 12
  {
    DaysBeforeYear(c.year) - DaysBeforeYear(1970) + DaysBeforeMonth(c.year, c.month) + c.day - 1
  }

  lemma NextDayIsOneLater(c: Date)
    requires ValidDate(c)
    ensures ValidDate(NextDay(c)) && DaysFromCivil(NextDay(c)) == DaysFromCivil(c) + 1
  {
    YearLength(c.year);
    if c.day == DaysInMonth(c.year, c.month) && c.month == 12 {
      DecemberEnds(c.year);
    }
  }

  lemma DecemberEnds(y: int)
    ensures DaysBeforeMonth(y, 12) + 31 == if IsLeap(y) then 366 else 365
  {
    MonthStarts(y);
  }

  lemma MonthStarts(y: int)
    ensures DaysBeforeMonth(y, 1) == 0 && DaysBeforeMonth(y, 2) == 31
    ensures var f := if IsLeap(y) then 29 else 28;
            && DaysBeforeMonth(y, 3) == 31 + f && DaysBeforeMonth(y, 4) == 62 + f && DaysBeforeMonth(y, 5) == 92 + f
            && DaysBeforeMonth(y, 6) == 123 + f && DaysBeforeMonth(y, 7) == 153 + f && DaysBeforeMonth(y, 8) == 184 + f
            && DaysBeforeMonth(y, 9) == 215 + f && DaysBeforeMonth(y, 10) == 245 + f && DaysBeforeMonth(y, 11) ==
                276 + f
            && DaysBeforeMonth(y, 12) == 306 + f
  {
    assert DaysBeforeMonth(y, 2) == DaysBeforeMonth(y, 1) + 31;
    assert DaysBeforeMonth(y, 3) == DaysBeforeMonth(y, 2) + DaysInMonth(y, 2);
    assert DaysBeforeMonth(y, 4) == DaysBeforeMonth(y, 3) + 31;
    assert DaysBeforeMonth(y, 5) == DaysBeforeMonth(y, 4) + 30;
    assert DaysBeforeMonth(y, 6) == DaysBeforeMonth(y, 5) + 31;
    assert DaysBeforeMonth(y, 7) == DaysBeforeMonth(y, 6) + 30;
    assert DaysBeforeMonth(y, 8) == DaysBeforeMonth(y, 7) + 31;
    assert DaysBeforeMonth(y, 9) == DaysBeforeMonth(y, 8) + 31;
    assert DaysBeforeMonth(y, 10) == DaysBeforeMonth(y, 9) + 30;
    assert DaysBeforeMonth(y, 11) == DaysBeforeMonth(y, 10) + 31;
    assert DaysBeforeMonth(y, 12) == DaysBeforeMonth(y, 11) + 30;
  }

  // ---- civil_from_days ------------------------------------------------------------------------------

  /** Integer division of the source language: towards zero. */
  function TruncDiv(a: int, b: int): int
    requires b > 0
  {
    if a >= 0 then a / b else -((-a) / b)
  }

  function EraOf(z: int): int {
    TruncDiv(if z >= 0 then z else z - 146_096, 146_097)
  }

  function YearOfEra(dayOfEra: int): int {
    (dayOfEra - dayOfEra / 1460 + dayOfEra / 36_524 - dayOfEra / 146_096) / 365
  }

  /** Days of an era before its year `y`. */
  function EraDays(y: int): int {
    365 * y + y / 4 - y / 100
  }

  function MonthAndDay(dayOfYear: int): (int, int) {
    var monthPrime := (5 * dayOfYear + 2) / 153;
    (if monthPrime < 10 then monthPrime + 3 else monthPrime - 9, dayOfYear - (153 * monthPrime + 2) / 5 + 1)
  }

  function CivilFromDays(days: int): Date {
    var z := days + 719_468;
    var era := EraOf(z);
    var dayOfEra := z - era * 146_097;
    var yearOfEra := YearOfEra(dayOfEra);
    var year := yearOfEra + era * 400;
    var dayOfYear := dayOfEra - EraDays(yearOfEra);
    var (month, day) := MonthAndDay(dayOfYear);
    Date(if month <= 2 then year + 1 else year, month, day)
  }

  // ---- the year, counted from March -------------------------------------------------------------------

  /** Days from 1 March of year 0 to 1 March of year `y`. */
  function MarchDays(y: int): int {
    365 * y + y / 4 - y / 100 + y / 400
  }

  lemma EraIsFloor(z: int)
    ensures EraOf(z) == z / 146_097
    ensures 0 <= z - EraOf(z) * 146_097 < 146_097
  {
  }

  lemma EraQuotients(era: int, y: int)
    ensures (era * 400 + y) / 4 == era * 100 + y / 4
    ensures (era * 400 + y) / 100 == era * 4 + y / 100
    ensures (era * 400 + y) / 400 == era + y / 400
  {
  }

  lemma MarchDaysOfEra(era: int, y: int)
    requires 0 <= y <= 400
    ensures MarchDays(era * 400 + y) == era * 146_097 + EraDays(y) + (if y == 400 then 1 else 0)
  {
    EraQuotients(era, y);
  }

  /** A day of the era as century, four-year cycle of the century and day of the cycle. */
  lemma EraParts(d: int) returns (century: int, cycle: int, t: int)
    requires 0 <= d < 146_097
    ensures d == 36_524 * century + 1461 * cycle + t
    ensures 0 <= century <= 3 && 0 <= cycle <= 24 && 0 <= t <= 1460
    ensures cycle == 24 && century < 3 ==> t <= 1459
    ensures century == d / 36_524 - d / 146_096
  {
    century := d / 36_524 - d / 146_096;
    assert 0 <= d / 36_524 <= 4 && 0 <= d / 146_096 <= 1;
    assert d / 36_524 == 4 <==> d / 146_096 == 1;
    var r := d - 36_524 * century;
    assert 0 <= r <= 36_524 && (century < 3 ==> r < 36_524);
    cycle, t := r / 1461, r % 1461;
    assert r == 1461 * cycle + t;
  }

  lemma YearFromParts(d: int, century: int, cycle: int, t: int)
    requires d == 36_524 * century + 1461 * cycle + t
    requires 0 <= century <= 3 && 0 <= cycle <= 24 && 0 <= t <= 1460
    requires century == d / 36_524 - d / 146_096
    ensures YearOfEra(d) == 100 * century + 4 * cycle + if t >= 1095 then 3 else t / 365
  {
    var extra := (24 * century + cycle + t) / 1460;
    assert 0 <= extra <= 1;
    assert d == 1460 * (25 * century + cycle) + (24 * century + cycle + t);
    assert d / 1460 == 25 * century + cycle + extra;
    assert d - d / 1460 + century == 365 * (100 * century + 4 * cycle) + (t - extra);
    assert extra == 1 ==> t >= 1364;
    assert t == 1460 ==> extra == 1;
    var s := if t >= 1095 then 3 else t / 365;
    assert 365 * s <= t - extra < 365 * (s + 1);
  }

  lemma EraDaysOfParts(century: int, cycle: int, s: int)
    requires 0 <= century <= 3 && 0 <= cycle <= 24 && 0 <= s <= 3
    ensures var y := 100 * century + 4 * cycle + s;
            && EraDays(y) == 36_524 * century + 1461 * cycle + 365 * s
            && EraDays(y + 1) == 36_524 * century + 1461 * cycle + 365 * (s + 1) + (if s == 3 then 1 else 0)
                                 - (if cycle == 24 && s == 3 then 1 else 0)
  {
    var y := 100 * century + 4 * cycle + s;
    assert y / 4 == 25 * century + cycle;
    assert y / 100 == century;
    assert (y + 1) / 4 == 25 * century + cycle + if s == 3 then 1 else 0;
    assert (y + 1) / 100 == century + if cycle == 24 && s == 3 then 1 else 0;
  }

  /** The year formula finds the year a day of the era belongs to. */
  lemma YearOfEraIsRight(d: int)
    requires 0 <= d < 146_097
    ensures var y := YearOfEra(d);
            0 <= y < 400 && EraDays(y) <= d < EraDays(y + 1) + if y == 399 then 1 else 0
  {
    var century, cycle, t := EraParts(d);
    YearFromParts(d, century, cycle, t);
    hide YearOfEra, EraDays;
    var s := if t >= 1095 then 3 else t / 365;
    EraDaysOfParts(century, cycle, s);
  }

  /** A year counted from March is as long as the February at its end makes it. */
  lemma MarchMeetsJanuary(y: int)
    ensures MarchDays(y) + 60 == DaysBeforeYear(y) + 59 + if IsLeap(y) then 1 else 0
    ensures MarchDays(y + 1) == MarchDays(y) + 365 + if IsLeap(y + 1) then 1 else 0
  {
    MarchStart(y);
    MarchStart(y + 1);
    YearLength(y);
  }

  lemma FloorVersusCeiling(y: int)
    ensures y / 4 == (y + 3) / 4 - 1 + if y % 4 == 0 then 1 else 0
    ensures y / 100 == (y + 99) / 100 - 1 + if y % 100 == 0 then 1 else 0
    ensures y / 400 == (y + 399) / 400 - 1 + if y % 400 == 0 then 1 else 0
  {
  }

  lemma MarchStart(y: int)
    ensures MarchDays(y) + 60 == DaysBeforeYear(y) + 59 + if IsLeap(y) then 1 else 0
  {
    FloorVersusCeiling(y);
    DivisibilityChain(y);
  }

  // ---- the month ------------------------------------------------------------------------------------

  /** Days from 1 March to the first of the month, months counted from March. */
  function MarchMonth(mp: int): int {
    if mp == 0 then 0 else if mp == 1 then 31 else if mp == 2 then 61 else if mp == 3 then 92
    else if mp == 4 then 122 else if mp == 5 then 153 else if mp == 6 then 184 else if mp == 7 then 214
    else if mp == 8 then 245 else if mp == 9 then 275 else if mp == 10 then 306 else 337
  }

  lemma MonthPrimeIsRight(dayOfYear: int)
    requires 0 <= dayOfYear <= 365
    ensures var mp := (5 * dayOfYear + 2) / 153;
            && 0 <= mp <= 11
            && (153 * mp + 2) / 5 == MarchMonth(mp)
            && MarchMonth(mp) <= dayOfYear < if mp == 11 then 366 else MarchMonth(mp + 1)
  {
  }

  /** March-based day of the year to calendar date. */
  lemma MonthAndDayIsRight(year: int, dayOfYear: int)
    requires 0 <= dayOfYear < 365 + if IsLeap(year + 1) then 1 else 0
    ensures var (month, day) := MonthAndDay(dayOfYear);
            var c := Date(if month <= 2 then year + 1 else year, month, day);
            && ValidDate(c)
            && DaysFromCivil(c) == MarchDays(year) + dayOfYear - 719_468
  {
    MonthPrimeIsRight(dayOfYear);
    MarchMeetsJanuary(year);
    YearLength(year);
    MonthStarts(year);
    MonthStarts(year + 1);
    assert DaysBeforeYear(1970) == 719_528;
    hide IsLeap, MarchDays, DaysBeforeYear, DaysBeforeMonth;
  }

  // ---- the theorems ---------------------------------------------------------------------------------

  /** Every day number gets a valid date, and counting days up to that date gives the number back. */
  lemma CivilIsRight(days: int)
    ensures ValidDate(CivilFromDays(days)) && DaysFromCivil(CivilFromDays(days)) == days
  {
    hide EraOf, YearOfEra, EraDays, MonthAndDay, MarchDays, IsLeap, DaysFromCivil;
    var z := days + 719_468;
    EraIsFloor(z);
    var era := EraOf(z);
    var d := z - era * 146_097;
    YearOfEraIsRight(d);
    var y := YearOfEra(d);
    MarchDaysOfEra(era, y);
    MarchDaysOfEra(era, y + 1);
    MarchMeetsJanuary(era * 400 + y);
    MonthAndDayIsRight(era * 400 + y, d - EraDays(y));
  }

  lemma {:induction false} YearsGrow(y: int, y': int)
    requires y < y'
    ensures DaysBeforeYear(y) + (if IsLeap(y) then 366 else 365) <= DaysBeforeYear(y')
    decreases y' - y
  {
    YearLength(y);
    if y + 1 < y' {
      hide DaysBeforeYear, IsLeap;
      YearsGrow(y + 1, y');
    }
  }

  lemma {:induction false} MonthsGrow(y: int, m: int, m': int)
    requires 1 <= m < m' <= 12
    ensures DaysBeforeMonth(y, m) + DaysInMonth(y, m) <= DaysBeforeMonth(y, m')
    decreases m' - m
  {
    if m + 1 < m' {
      MonthsGrow(y, m + 1, m');
    }
  }

  lemma WithinYear(c: Date)
    requires ValidDate(c)
    ensures 0 <= DaysBeforeMonth(c.year, c.month) + c.day - 1 < if IsLeap(c.year) then 366 else 365
  {
    DecemberEnds(c.year);
    if c.month < 12 {
      MonthsGrow(c.year, c.month, 12);
    }
    if 1 < c.month {
      MonthsGrow(c.year, 1, c.month);
    }
  }

  /** Two valid dates with one day number are one date. */
  lemma DayNumbersAreUnique(c: Date, c': Date)
    requires ValidDate(c) && ValidDate(c') && DaysFromCivil(c) == DaysFromCivil(c')
    ensures c == c'
  {
    WithinYear(c);
    WithinYear(c');
    SameYear(c, c');
    SameMonth(c, c');
  }

  lemma SameYear(c: Date, c': Date)
    requires ValidDate(c) && ValidDate(c') && DaysFromCivil(c) == DaysFromCivil(c')
    ensures c.year == c'.year
  {
    WithinYear(c);
    WithinYear(c');
    hide DaysBeforeYear, DaysBeforeMonth, IsLeap;
    if c.year < c'.year {
      YearsGrow(c.year, c'.year);
    } else if c'.year < c.year {
      YearsGrow(c'.year, c.year);
    }
  }

  lemma SameMonth(c: Date, c': Date)
    requires ValidDate(c) && ValidDate(c') && DaysFromCivil(c) == DaysFromCivil(c') && c.year == c'.year
    ensures c == c'
  {
    hide DaysBeforeYear, DaysBeforeMonth, IsLeap, DaysInMonth;
    if c.month < c'.month {
      MonthsGrow(c.year, c.month, c'.month);
    } else if c'.month < c.month {
      MonthsGrow(c.year, c'.month, c.month);
    }
  }

  /** `civil_from_days` is a bijection between day numbers and valid dates. */
  lemma CivilIsBijective(c: Date)
    requires ValidDate(c)
    ensures CivilFromDays(DaysFromCivil(c)) == c
  {
    CivilIsRight(DaysFromCivil(c));
    DayNumbersAreUnique(CivilFromDays(DaysFromCivil(c)), c);
  }

  lemma EpochIsDayZero()
    ensures ValidDate(Date(1970, 1, 1)) && DaysFromCivil(Date(1970, 1, 1)) == 0
  {
  }

  /** It starts at 1 January 1970 and turns the next day number into the next calendar day, in both
      directions of time. */
  lemma CivilFollowsTheCalendar(days: int)
    ensures CivilFromDays(0) == Date(1970, 1, 1)
    ensures CivilFromDays(days + 1) == NextDay(CivilFromDays(days))
  {
    EpochIsDayZero();
    hide CivilFromDays, DaysFromCivil, NextDay;
    var c := CivilFromDays(days);
    CivilIsRight(days);
    NextDayIsOneLater(c);
    CivilIsBijective(NextDay(c));
    CivilIsBijective(Date(1970, 1, 1));
  }
}
