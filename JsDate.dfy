/** The part of JavaScript's Date that the timestamp helpers use, after the
    time-value operations of ECMA-262 (section 21.4.1, "Overview of Date
    Objects and Definitions of Abstract Operations"). A time value counts
    milliseconds from the epoch; a Date holding NaN (an "Invalid Date") is
    modelled as None. Local time is taken to coincide with the time value
    (a zone with a fixed offset and no daylight saving). */
module JsDate {
  import opened Wrappers
  import opened Calendar

  const MsPerSecond: int := 1000
  const MsPerMinute: int := 60_000
  const MsPerHour: int := 3_600_000
  const MsPerDay: int := 86_400_000
  /** A time value must lie within 8.64e15 ms (100,000,000 days) of the epoch. */
  const MaxTime: int := 8_640_000_000_000_000

  predicate InTimeRange(t: int) {
    -MaxTime <= t <= MaxTime
  }

  /** TimeClip: out-of-range times become NaN. */
  function TimeClip(t: int): Option<int> {
    if InTimeRange(t) then Some(t) else None
  }

  function Day(t: int): int {
    t / MsPerDay
  }

  function TimeWithinDay(t: int): int {
    t % MsPerDay
  }

  function YearFromTime(t: int): int {
    FromDayNumber(Day(t)).year
  }

  /** Months are 0-based in JavaScript. */
  function MonthFromTime(t: int): int {
    FromDayNumber(Day(t)).month - 1
  }

  function DateFromTime(t: int): int {
    FromDayNumber(Day(t)).day
  }

  function HourFromTime(t: int): int {
    (t / MsPerHour) % 24
  }

  function MinFromTime(t: int): int {
    (t / MsPerMinute) % 60
  }

  function MakeTime(hour: int, min: int, sec: int, ms: int): int {
    hour * MsPerHour + min * MsPerMinute + sec * MsPerSecond + ms
  }

  /** MakeDay: a month outside 0..11 carries whole years, and the date counts
      days from the first of the carried month (so date 0 is the day before it). */
  function MakeDay(year: int, month: int, date: int): int {
    DayNumber(CivilDate(year + month / 12, month % 12 + 1, 1)) + date - 1
  }

  function MakeDate(day: int, time: int): int {
    day * MsPerDay + time
  }

  /** MakeFullYear: the Date constructor reads years 0..99 as 1900..1999. */
  function MakeFullYear(year: int): int {
    if 0 <= year <= 99 then 1900 + year else year
  }

  /** The time value n whole days after t. */
  function DaysAfterTime(t: int, n: int): int {
    t + n * MsPerDay
  }

  /** Adding a number to NaN gives NaN. */
  function AddNumber(x: Option<int>, n: int): Option<int> {
    if x.Some? then Some(x.value + n) else None
  }

  /** MakeDay on the fields of a valid date, with the date moved by n, is that date's day number plus n. */
  lemma MakeDayOfCivil(d: CivilDate, n: int, date: int)
    requires ValidDate(d) && date == d.day + n
    ensures MakeDay(d.year, d.month - 1, date) == DayNumber(d) + n
  {
    assert (d.month - 1) / 12 == 0 && (d.month - 1) % 12 == d.month - 1;
  }

  /** Twelve months carry into one year. */
  lemma MakeDayCarriesYears(year: int, month: int, date: int)
    ensures MakeDay(year, month + 12, date) == MakeDay(year + 1, month, date)
  {
    assert (month + 12) / 12 == month / 12 + 1;
    assert (month + 12) % 12 == month % 12;
  }

  /** setDate(getDate() + n) on a valid time value moves it by exactly n whole days. */
  lemma SetDateMovesDays(t: int, n: int, date: int)
    requires date == DateFromTime(t) + n
    ensures MakeDate(MakeDay(YearFromTime(t), MonthFromTime(t), date), TimeWithinDay(t))
            == DaysAfterTime(t, n)
  {
    var d := FromDayNumber(Day(t));
    MakeDayOfCivil(d, n, date);
    var x := MakeDay(YearFromTime(t), MonthFromTime(t), date);
    assert x == Day(t) + n;
    DaysAfterAsMakeDate(t, n, x);
  }

  /** A time value moved by n whole days keeps its time within the day, on day Day(t) + n. */
  lemma DaysAfterAsMakeDate(t: int, n: int, x: int)
    requires x == Day(t) + n
    ensures MakeDate(x, TimeWithinDay(t)) == DaysAfterTime(t, n)
  {
    assert t == Day(t) * MsPerDay + TimeWithinDay(t);
    assert x * MsPerDay == Day(t) * MsPerDay + n * MsPerDay;
  }

  /** The fields of a time value, read off its minute count q: the day, the hour and the
      minute depend only on q, and truncating the seconds leaves exactly q minutes. */
  lemma TimeOfMinutes(t: int)
    ensures var q := t / MsPerMinute;
      && Day(t) == q / 1440
      && HourFromTime(t) == (q % 1440) / 60
      && MinFromTime(t) == q % 60
      && MakeDate(Day(t), MakeTime(HourFromTime(t), MinFromTime(t), 0, 0)) == q * MsPerMinute
  {
    var q, s := t / MsPerMinute, t % MsPerMinute;
    var d, r := q / 1440, q % 1440;
    var h, m := r / 60, r % 60;
    assert t == d * MsPerDay + h * MsPerHour + m * MsPerMinute + s;
    assert 0 <= h * MsPerHour + m * MsPerMinute + s < MsPerDay;
    assert t / MsPerDay == d;
    assert t / MsPerHour == 24 * d + h;
    assert (24 * d + h) % 24 == h;
  }

  /** setSeconds(0, 0) on a valid time value stays valid and on the same day. */
  lemma TruncateToMinute(t: int)
    requires InTimeRange(t)
    ensures var t2 := MakeDate(Day(t), MakeTime(HourFromTime(t), MinFromTime(t), 0, 0));
      InTimeRange(t2) && Day(t2) == Day(t)
  {
    TimeOfMinutes(t);
    var q := t / MsPerMinute;
    assert -144_000_000_000 <= q <= 144_000_000_000;
    assert q * MsPerMinute / MsPerMinute == q;
    TimeOfMinutes(q * MsPerMinute);
  }

  /** A time value built from a day and an in-range clock gives back that day and clock. */
  lemma FieldsOfMakeDate(day: int, hour: int, min: int, sec: int, ms: int)
    requires 0 <= hour < 24 && 0 <= min < 60 && 0 <= sec < 60 && 0 <= ms < 1000
    ensures var t := MakeDate(day, MakeTime(hour, min, sec, ms));
      && Day(t) == day
      && TimeWithinDay(t) == MakeTime(hour, min, sec, ms)
      && HourFromTime(t) == hour
      && MinFromTime(t) == min
  {
    var t := MakeDate(day, MakeTime(hour, min, sec, ms));
    assert t / MsPerMinute == day * 1440 + hour * 60 + min;
    TimeOfMinutes(t);
    assert (day * 1440 + hour * 60 + min) / 1440 == day;
  }

  /** Moving by whole days changes the day by exactly that many and keeps the hour and minute. */
  lemma ClockAfterDays(t: int, n: int)
    ensures Day(DaysAfterTime(t, n)) == Day(t) + n
    ensures HourFromTime(DaysAfterTime(t, n)) == HourFromTime(t)
    ensures MinFromTime(DaysAfterTime(t, n)) == MinFromTime(t)
  {
    var t2 := DaysAfterTime(t, n);
    assert t2 == t + n * MsPerDay;
    assert t2 / MsPerDay == t / MsPerDay + n;
    assert t2 / MsPerHour == t / MsPerHour + 24 * n;
    assert (t / MsPerHour + 24 * n) % 24 == (t / MsPerHour) % 24;
    assert t2 / MsPerMinute == t / MsPerMinute + 1440 * n;
    assert (t / MsPerMinute + 1440 * n) % 60 == (t / MsPerMinute) % 60;
  }

  // ---- The getters and setters on a time value that may be NaN ----

  function DateOf(tv: Option<int>): Option<int> {
    if tv.Some? then Some(DateFromTime(tv.value)) else None
  }

  function MonthOf(tv: Option<int>): Option<int> {
    if tv.Some? then Some(MonthFromTime(tv.value)) else None
  }

  function FullYearOf(tv: Option<int>): Option<int> {
    if tv.Some? then Some(YearFromTime(tv.value)) else None
  }

  function HoursOf(tv: Option<int>): Option<int> {
    if tv.Some? then Some(HourFromTime(tv.value)) else None
  }

  function MinutesOf(tv: Option<int>): Option<int> {
    if tv.Some? then Some(MinFromTime(tv.value)) else None
  }

  /** The time value setDate(date) leaves: the year, month and time of day kept, the day of
      the month replaced (carrying as MakeDay does); NaN in either gives NaN. */
  function SetDateValue(tv: Option<int>, date: Option<int>): Option<int> {
    if tv.Some? && date.Some? then
      var t := tv.value;
      TimeClip(MakeDate(MakeDay(YearFromTime(t), MonthFromTime(t), date.value), TimeWithinDay(t)))
    else None
  }

  /** The time value setSeconds(sec, ms) leaves: the seconds of the minute replaced by sec and
      the milliseconds of the second by ms. For sec in 0..59 and ms in 0..999 the day, hour and minute are kept; other
      values carry into the minute and beyond, as MakeTime does. */
  function SetSecondsValue(tv: Option<int>, sec: int, ms: int): Option<int> {
    if tv.Some? then
      var t := tv.value;
      TimeClip(MakeDate(Day(t), MakeTime(HourFromTime(t), MinFromTime(t), sec, ms)))
    else None
  }

  /** setDate(getDate() + n) moves a valid time value by n whole days, or makes it NaN
      when that leaves the time-value range. */
  lemma SetDateValueMovesDays(t: int, n: int)
    ensures SetDateValue(Some(t), AddNumber(DateOf(Some(t)), n)) == TimeClip(DaysAfterTime(t, n))
  {
    var date := AddNumber(DateOf(Some(t)), n);
    SetDateMovesDays(t, n, date.value);
  }

  /** setSeconds(0, 0) truncates a valid time value to its minute, on the same day. */
  lemma SetSecondsValueTruncates(t: int)
    requires InTimeRange(t)
    ensures SetSecondsValue(Some(t), 0, 0).Some?
    ensures Day(SetSecondsValue(Some(t), 0, 0).value) == Day(t)
  {
    TruncateToMinute(t);
  }

  /** A Date object: its only state is the time value, which the setters replace. */
  class Date {
    var time: Option<int>

    /** new Date() at the instant the clock reads. */
    constructor Now(clock: int)
      requires InTimeRange(clock)
      ensures time == Some(clock)
    {
      time := Some(clock);
    }

    /** new Date(other): a copy holding the same time value. */
    constructor Copy(other: Date)
      ensures time == other.time
    {
      time := other.time;
    }

    /** new Date(year, month, date, hours, minutes, seconds, ms), month 0-based;
        every field may lie outside its usual range and is carried. */
    constructor FromFields(year: int, month: int, date: int, hours: int, minutes: int, seconds: int, ms: int)
      ensures time == TimeClip(MakeDate(MakeDay(MakeFullYear(year), month, date),
                                        MakeTime(hours, minutes, seconds, ms)))
    {
      time := TimeClip(MakeDate(MakeDay(MakeFullYear(year), month, date),
                                MakeTime(hours, minutes, seconds, ms)));
    }

    function GetDate(): Option<int>
      reads this
    {
      DateOf(time)
    }

    function GetMonth(): Option<int>
      reads this
    {
      MonthOf(time)
    }

    function GetFullYear(): Option<int>
      reads this
    {
      FullYearOf(time)
    }

    function GetHours(): Option<int>
      reads this
    {
      HoursOf(time)
    }

    function GetMinutes(): Option<int>
      reads this
    {
      MinutesOf(time)
    }

    method SetDate(date: Option<int>)
      modifies this
      ensures time == SetDateValue(old(time), date)
    {
      time := SetDateValue(time, date);
    }

    method SetSeconds(sec: int, ms: int)
      modifies this
      ensures time == SetSecondsValue(old(time), sec, ms)
    {
      time := SetSecondsValue(time, sec, ms);
    }
  }
}
