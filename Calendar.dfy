/** The proleptic Gregorian calendar as used by JavaScript's Date: civil dates
    (year, month 1..12, day 1..31) and their day numbers, counted from the
    Unix epoch 1970-01-01 (day 0), forward and backward without bound. */
module Calendar {

  datatype CivilDate = CivilDate(year: int, month: int, day: int)

  predicate IsLeapYear(y: int) {
    y % 4 == 0 && (y % 100 != 0 || y % 400 == 0)
  }

  function DaysInYear(y: int): int {
    if IsLeapYear(y) then 366 else 365
  }

  function DaysInMonth(y: int, m: int): int
    requires 1 <= m <= 12
  {
    if m == 2 then (if IsLeapYear(y) then 29 else 28)
    else if m == 4 || m == 6 || m == 9 || m == 11 then 30
    else 31
  }

  predicate ValidDate(d: CivilDate) {
    1 <= d.month <= 12 && 1 <= d.day <= DaysInMonth(d.year, d.month)
  }

  /** Number of days from 1970-01-01 to January 1 of year y (negative before 1970).
      Dafny's division rounds toward negative infinity for a positive divisor,
      so the leap-day count is right for years before 1 as well. */
  function DaysBeforeYear(y: int): int {
    var p := y - 1;
    365 * p + p / 4 - p / 100 + p / 400 - 719162
  }

  /** Number of days in year y before the first day of month m; m == 13 gives the whole year. */
  function DaysBeforeMonth(y: int, m: int): int
    requires 1 <= m <= 13
  {
    var before := [0, 31, 59, 90, 120, 151, 181, 212, 243, 273, 304, 334, 365][m - 1];
    if m > 2 && IsLeapYear(y) then before + 1 else before
  }

  /** The day number of a civil date; day 0 is 1970-01-01. */
  function DayNumber(d: CivilDate): int
    requires 1 <= d.month <= 12
  {
    DaysBeforeYear(d.year) + DaysBeforeMonth(d.year, d.month) + d.day - 1
  }

  lemma DivisionStep(p: int)
    ensures (p + 1) / 4 - p / 4 == if (p + 1) % 4 == 0 then 1 else 0
    ensures (p + 1) / 100 - p / 100 == if (p + 1) % 100 == 0 then 1 else 0
    ensures (p + 1) / 400 - p / 400 == if (p + 1) % 400 == 0 then 1 else 0
  {
  }

  /** Consecutive years are DaysInYear apart. */
  lemma YearStep(y: int)
    ensures DaysBeforeYear(y + 1) == DaysBeforeYear(y) + DaysInYear(y)
  {
    var p := y - 1;
    DivisionStep(p);
    var a, b, c := y / 4 - p / 4, y / 100 - p / 100, y / 400 - p / 400;
    assert DaysBeforeYear(y + 1) - DaysBeforeYear(y) == 365 + a - b + c;
    if y % 400 == 0 {
      DivisibleBy400(y);
    } else if y % 100 == 0 {
      DivisibleBy100(y);
    }
  }

  lemma DivisibleBy400(y: int)
    requires y % 400 == 0
    ensures y % 100 == 0 && y % 4 == 0
  {
    var k := y / 400;
    assert y == 400 * k;
    assert y == 100 * (4 * k) && y == 4 * (100 * k);
  }

  lemma DivisibleBy100(y: int)
    requires y % 100 == 0
    ensures y % 4 == 0
  {
    var k := y / 100;
    assert y == 4 * (25 * k);
  }

  /** 400-year eras start every 146097 days; era 0 starts on 0001-01-01. */
  lemma EraStart(e: int)
    ensures DaysBeforeYear(1 + 400 * e) == 146097 * e - 719162
  {
    assert (400 * e) / 4 == 100 * e;
    assert (400 * e) / 100 == 4 * e;
    assert (400 * e) / 400 == e;
  }

  lemma {:induction false} YearsIncrease(a: int, b: int)
    requires a < b
    ensures DaysBeforeYear(a) + DaysInYear(a) <= DaysBeforeYear(b)
    decreases b - a
  {
    YearStep(a);
    if a + 1 < b {
      YearsIncrease(a + 1, b);
      YearStep(a + 1);
    }
  }

  lemma MonthStep(y: int, m: int)
    requires 1 <= m <= 12
    ensures DaysBeforeMonth(y, m + 1) == DaysBeforeMonth(y, m) + DaysInMonth(y, m)
  {
  }

  lemma MonthsIncrease(y: int, a: int, b: int)
    requires 1 <= a < b <= 13
    ensures DaysBeforeMonth(y, a) + DaysInMonth(y, a) <= DaysBeforeMonth(y, b)
  {
  }

  /** A valid date's day number lies inside its own year and month. */
  lemma DayNumberBounds(d: CivilDate)
    requires ValidDate(d)
    ensures DaysBeforeYear(d.year) <= DayNumber(d) < DaysBeforeYear(d.year + 1)
    ensures DaysBeforeMonth(d.year, d.month) <= DayNumber(d) - DaysBeforeYear(d.year)
                                              < DaysBeforeMonth(d.year, d.month + 1)
  {
    YearStep(d.year);
    MonthStep(d.year, d.month);
    if d.month < 12 {
      MonthsIncrease(d.year, d.month + 1, 13);
    }
  }

  /** Two valid dates with the same day number are the same date. */
  lemma DayNumberInjective(d1: CivilDate, d2: CivilDate)
    requires ValidDate(d1) && ValidDate(d2)
    requires DayNumber(d1) == DayNumber(d2)
    ensures d1 == d2
  {
    DayNumberBounds(d1);
    DayNumberBounds(d2);
    if d1.year < d2.year {
      YearsIncrease(d1.year, d2.year);
      YearStep(d1.year);
    } else if d2.year < d1.year {
      YearsIncrease(d2.year, d1.year);
      YearStep(d2.year);
    }
    assert d1.year == d2.year;
    if d1.month < d2.month {
      MonthsIncrease(d1.year, d1.month, d2.month);
      MonthStep(d1.year, d1.month);
    } else if d2.month < d1.month {
      MonthsIncrease(d2.year, d2.month, d1.month);
      MonthStep(d2.year, d2.month);
    }
  }

  /** The year holding day number z, found by scanning years from lo on. */
  function YearFrom(z: int, lo: int, hi: int): (y: int)
    requires lo < hi
    requires DaysBeforeYear(lo) <= z < DaysBeforeYear(hi)
    ensures lo <= y < hi
    ensures DaysBeforeYear(y) <= z < DaysBeforeYear(y + 1)
    decreases hi - lo
  {
    if z < DaysBeforeYear(lo + 1) then lo else YearFrom(z, lo + 1, hi)
  }

  /** The month of year y holding day doy of that year (0-based), scanning months from m on. */
  function MonthFrom(y: int, doy: int, m: int): (r: int)
    requires 1 <= m <= 12
    requires DaysBeforeMonth(y, m) <= doy < DaysBeforeMonth(y, 13)
    ensures m <= r <= 12
    ensures DaysBeforeMonth(y, r) <= doy < DaysBeforeMonth(y, r + 1)
    decreases 12 - m
  {
    if doy < DaysBeforeMonth(y, m + 1) then m else MonthFrom(y, doy, m + 1)
  }

  /** The civil date of day number z: the inverse of DayNumber. */
  function FromDayNumber(z: int): (d: CivilDate)
    ensures ValidDate(d)
    ensures DayNumber(d) == z
  {
    var e := (z + 719162) / 146097;
    EraStart(e);
    EraStart(e + 1);
    var y := YearFrom(z, 1 + 400 * e, 401 + 400 * e);
    YearStep(y);
    var doy := z - DaysBeforeYear(y);
    var m := MonthFrom(y, doy, 1);
    MonthStep(y, m);
    CivilDate(y, m, doy - DaysBeforeMonth(y, m) + 1)
  }

  /** Round trip in the other direction: a valid date comes back from its day number. */
  lemma FromDayNumberOfDayNumber(d: CivilDate)
    requires ValidDate(d)
    ensures FromDayNumber(DayNumber(d)) == d
  {
    DayNumberInjective(FromDayNumber(DayNumber(d)), d);
  }

  /** The day after d, by carrying the day into the month and the month into the year. */
  function NextDay(d: CivilDate): (r: CivilDate)
    requires ValidDate(d)
    ensures ValidDate(r)
    ensures DayNumber(r) == DayNumber(d) + 1
  {
    YearStep(d.year);
    MonthStep(d.year, d.month);
    if d.day < DaysInMonth(d.year, d.month) then CivilDate(d.year, d.month, d.day + 1)
    else if d.month < 12 then CivilDate(d.year, d.month + 1, 1)
    else CivilDate(d.year + 1, 1, 1)
  }

  /** The day before d: day 1 borrows the last day of the previous month or year. */
  function PrevDay(d: CivilDate): (r: CivilDate)
    requires ValidDate(d)
    ensures ValidDate(r)
    ensures DayNumber(r) == DayNumber(d) - 1
  {
    YearStep(d.year - 1);
    if d.day > 1 then CivilDate(d.year, d.month, d.day - 1)
    else if d.month > 1 then
      MonthStep(d.year, d.month - 1);
      CivilDate(d.year, d.month - 1, DaysInMonth(d.year, d.month - 1))
    else CivilDate(d.year - 1, 12, 31)
  }

  /** Moving a date by n days one day at a time, carrying (or borrowing) at every step. */
  function ShiftByCarry(d: CivilDate, n: int): (r: CivilDate)
    requires ValidDate(d)
    ensures ValidDate(r)
    ensures DayNumber(r) == DayNumber(d) + n
    decreases if n < 0 then -n else n
  {
    if n == 0 then d
    else if n > 0 then ShiftByCarry(NextDay(d), n - 1)
    else ShiftByCarry(PrevDay(d), n + 1)
  }

  /** Day-number arithmetic agrees with stepwise carrying, for every n. */
  lemma ShiftIsDayArithmetic(d: CivilDate, n: int)
    requires ValidDate(d)
    ensures FromDayNumber(DayNumber(d) + n) == ShiftByCarry(d, n)
  {
    DayNumberInjective(FromDayNumber(DayNumber(d) + n), ShiftByCarry(d, n));
  }

  /** The successor of a day number is the carried next day. */
  lemma FromDayNumberSucc(z: int)
    ensures FromDayNumber(z + 1) == NextDay(FromDayNumber(z))
    ensures FromDayNumber(z - 1) == PrevDay(FromDayNumber(z))
  {
    DayNumberInjective(FromDayNumber(z + 1), NextDay(FromDayNumber(z)));
    DayNumberInjective(FromDayNumber(z - 1), PrevDay(FromDayNumber(z)));
  }
}
