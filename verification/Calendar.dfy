/**
 * Civil-calendar arithmetic of ECMA-262 section 21.4.1, on which every `Date`
 * accessor used by the HTTP-date code rests. Days and times are unbounded
 * integers, so every law below holds for years before 0 as well.
 */
module Calendar {
  const MS_PER_SECOND := 1000
  const MS_PER_DAY := 86_400_000

  /** A proleptic Gregorian date; `month` counts from 0 as in JavaScript. */
  datatype Civil = Civil(year: int, month: int, date: int)

  predicate IsLeapYear(year: int) {
    year % 4 == 0 && (year % 100 != 0 || year % 400 == 0)
  }

  function DaysInMonth(year: int, month: int): int {
    if month == 1 then (if IsLeapYear(year) then 29 else 28)
    else if month == 3 || month == 5 || month == 8 || month == 10 then 30
    else 31
  }

  predicate IsCivil(c: Civil) {
    0 <= c.month <= 11 && 1 <= c.date <= DaysInMonth(c.year, c.month)
  }

  /** The day number of 1 January. */
  function DayFromYear(year: int): int {
    365 * (year - 1970) + (year - 1969) / 4 - (year - 1901) / 100 + (year - 1601) / 400
  }

  /** Days between 1 January and the first of `month`. */
  function DaysBeforeMonth(year: int, month: int): int
    requires 0 <= month <= 12
  {
    [0, 31, 59, 90, 120, 151, 181, 212, 243, 273, 304, 334, 365][month]
    + (if month >= 2 && IsLeapYear(year) then 1 else 0)
  }

  lemma {:induction false} FourthYears(year: int)
    ensures (year - 1968) / 4 - (year - 1969) / 4 == if year % 4 == 0 then 1 else 0
  {
    var q, r := year / 4, year % 4;
    assert year - 1968 == 4 * (q - 492) + r && year - 1969 == 4 * (q - 493) + (r + 3);
  }

  lemma {:induction false} Centuries(year: int)
    ensures (year - 1900) / 100 - (year - 1901) / 100 == if year % 100 == 0 then 1 else 0
  {
    var q, r := year / 100, year % 100;
    assert year - 1900 == 100 * (q - 19) + r && year - 1901 == 100 * (q - 20) + (r + 99);
  }

  lemma {:induction false} FourthCenturies(year: int)
    ensures (year - 1600) / 400 - (year - 1601) / 400 == if year % 400 == 0 then 1 else 0
  {
    var q, r := year / 400, year % 400;
    assert year - 1600 == 400 * (q - 4) + r && year - 1601 == 400 * (q - 5) + (r + 399);
  }

  lemma {:induction false} LeapYearsNest(year: int)
    ensures (year % 400 == 0 ==> year % 100 == 0) && (year % 100 == 0 ==> year % 4 == 0)
  {
    if year % 400 == 0 { HundredTimes(4 * (year / 400)); }
    if year % 100 == 0 { FourTimes(25 * (year / 100)); }
  }

  lemma {:induction false} HundredTimes(n: int)
    ensures 100 * n % 100 == 0
  {
  }

  lemma {:induction false} FourTimes(n: int)
    ensures 4 * n % 4 == 0
  {
  }

  lemma {:induction false} YearLength(year: int)
    ensures DayFromYear(year + 1) - DayFromYear(year) == DaysBeforeMonth(year, 12)
  {
    FourthYears(year);
    Centuries(year);
    FourthCenturies(year);
    LeapYearsNest(year);
  }

  /** The year whose days include `day`: an estimate from the mean year, off by at most one. */
  function YearFromDay(day: int): (year: int)
    ensures DayFromYear(year) <= day < DayFromYear(year + 1)
  {
    var guess := 1970 + 400 * day / 146097;
    YearLength(guess - 1);
    if day < DayFromYear(guess) then guess - 1
    else if DayFromYear(guess + 1) <= day then YearLength(guess + 1); guess + 1
    else guess
  }

  function MonthFromDay(day: int): (month: int)
    ensures 0 <= month <= 11
    ensures var year := YearFromDay(day);
            DaysBeforeMonth(year, month) <= day - DayFromYear(year) < DaysBeforeMonth(year, month + 1)
  {
    var year := YearFromDay(day);
    YearLength(year);
    MonthSearch(year, day - DayFromYear(year), 0)
  }

  function MonthSearch(year: int, dayInYear: int, from: int): (month: int)
    requires 0 <= from <= 11
    requires DaysBeforeMonth(year, from) <= dayInYear < DaysBeforeMonth(year, 12)
    ensures from <= month <= 11
    ensures DaysBeforeMonth(year, month) <= dayInYear < DaysBeforeMonth(year, month + 1)
    decreases 12 - from
  {
    if dayInYear < DaysBeforeMonth(year, from + 1) then from else MonthSearch(year, dayInYear, from + 1)
  }

  function CivilFromDay(day: int): Civil {
    var year := YearFromDay(day);
    var month := MonthFromDay(day);
    Civil(year, month, day - DayFromYear(year) - DaysBeforeMonth(year, month) + 1)
  }

  /** MakeDay; a `date` past the end of the month runs over into the next one. */
  function DayFromCivil(c: Civil): int
    requires 0 <= c.month <= 11
  {
    DayFromYear(c.year) + DaysBeforeMonth(c.year, c.month) + c.date - 1
  }

  lemma {:induction false} MonthLength(year: int, month: int)
    requires 0 <= month <= 11
    ensures DaysBeforeMonth(year, month + 1) - DaysBeforeMonth(year, month) == DaysInMonth(year, month)
  {
  }

  lemma {:induction false} DaysBeforeMonthMonotone(year: int, m: int, n: int)
    requires 0 <= m <= n <= 12
    ensures DaysBeforeMonth(year, m) <= DaysBeforeMonth(year, n)
  {
  }

  lemma {:induction false} DayFromYearMonotone(y: int, z: int)
    requires y <= z
    ensures DayFromYear(y) <= DayFromYear(z)
    decreases z - y
  {
    if y < z {
      YearLength(z - 1);
      DayFromYearMonotone(y, z - 1);
    }
  }

  /** Days to dates and back, for every day. */
  lemma {:induction false} DayCivilDay(day: int)
    ensures IsCivil(CivilFromDay(day))
    ensures DayFromCivil(CivilFromDay(day)) == day
  {
    MonthLength(YearFromDay(day), MonthFromDay(day));
  }

  lemma {:induction false} YearOfDayIs(day: int, year: int)
    requires DayFromYear(year) <= day < DayFromYear(year + 1)
    ensures YearFromDay(day) == year
  {
    var found := YearFromDay(day);
    if found < year { DayFromYearMonotone(found + 1, year); }
    if year < found { DayFromYearMonotone(year + 1, found); }
  }

  lemma {:induction false} MonthOfDayIs(day: int, month: int)
    requires 0 <= month <= 11
    requires var dayInYear := day - DayFromYear(YearFromDay(day));
             DaysBeforeMonth(YearFromDay(day), month) <= dayInYear < DaysBeforeMonth(YearFromDay(day), month + 1)
    ensures MonthFromDay(day) == month
  {
    var year, found := YearFromDay(day), MonthFromDay(day);
    if found < month { DaysBeforeMonthMonotone(year, found + 1, month); }
    if month < found { DaysBeforeMonthMonotone(year, month + 1, found); }
  }

  /** Dates to days and back, for every date: the two calendars are inverse bijections. */
  lemma {:induction false} CivilDayCivil(c: Civil)
    requires IsCivil(c)
    ensures CivilFromDay(DayFromCivil(c)) == c
  {
    var day := DayFromCivil(c);
    MonthLength(c.year, c.month);
    assert day < DayFromYear(c.year + 1) by {
      DaysBeforeMonthMonotone(c.year, c.month + 1, 12);
      YearLength(c.year);
    }
    assert DayFromYear(c.year) <= day by { DaysBeforeMonthMonotone(c.year, 0, c.month); }
    YearOfDayIs(day, c.year);
    MonthOfDayIs(day, c.month);
  }

  // --------------------------------------------- the calendar itself, from one day on

  /** The lengths of the months of every year. */
  lemma {:induction false} MonthLengths(year: int)
    ensures DaysInMonth(year, 0) == 31 && DaysInMonth(year, 2) == 31 && DaysInMonth(year, 3) == 30 && DaysInMonth(year, 4) == 31
    ensures DaysInMonth(year, 5) == 30 && DaysInMonth(year, 6) == 31 && DaysInMonth(year, 7) == 31 && DaysInMonth(year, 8) == 30
    ensures DaysInMonth(year, 9) == 31 && DaysInMonth(year, 10) == 30 && DaysInMonth(year, 11) == 31
    ensures DaysInMonth(year, 1) == if (year % 4 == 0 && year % 100 != 0) || year % 400 == 0 then 29 else 28
  {
    LeapYearsNest(year);
  }

  /** The date after a date. */
  function NextDate(c: Civil): Civil {
    if c.date < DaysInMonth(c.year, c.month) then c.(date := c.date + 1)
    else if c.month < 11 then Civil(c.year, c.month + 1, 1)
    else Civil(c.year + 1, 0, 1)
  }

  lemma {:induction false} EpochIsDayZero()
    ensures DayFromCivil(Civil(1970, 0, 1)) == 0
  {
    assert DayFromYear(1970) == 0;
  }

  lemma {:induction false} YearEnds(year: int)
    ensures DayFromCivil(Civil(year + 1, 0, 1)) == DayFromCivil(Civil(year, 11, 31)) + 1
  {
    YearLength(year);
    MonthLength(year, 11);
  }

  lemma {:induction false} MonthEnds(year: int, month: int)
    requires 0 <= month < 11
    ensures DayFromCivil(Civil(year, month + 1, 1)) == DayFromCivil(Civil(year, month, DaysInMonth(year, month))) + 1
  {
    MonthLength(year, month);
  }

  /** Day 0 is 1 January 1970, and each next date has the next number: this fixes the number of every date. */
  lemma {:induction false} DaysAreCountedFromTheEpoch(c: Civil)
    requires IsCivil(c)
    ensures DayFromCivil(Civil(1970, 0, 1)) == 0
    ensures IsCivil(NextDate(c)) && DayFromCivil(NextDate(c)) == DayFromCivil(c) + 1
  {
    EpochIsDayZero();
    if c.date == DaysInMonth(c.year, c.month) {
      if c.month < 11 { MonthEnds(c.year, c.month); } else { YearEnds(c.year); }
    }
  }
}
