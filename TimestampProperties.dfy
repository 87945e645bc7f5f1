/** What the two timestamp helpers promise, stated over the functions that
    specify them: the output layout, rejection of malformed input, moving a
    real calendar date by whole days (with carry, keeping the clock),
    normalisation of overflowing fields, additivity, and the agreement of
    futureDate with addDaysToDateString. */
module TimestampProperties {
  import opened Wrappers
  import opened Calendar
  import opened JsDate
  import opened TimestampText
  import opened TestHelpers

  /** The five printed fields of a calendar point. */
  function FieldsOfStamp(st: Stamp): Fields {
    Fields(st.date.day, st.date.month, st.date.year, st.hour, st.minute)
  }

  /** The calendar point that parsed fields name when every field is in its usual range. */
  function StampOfFields(f: Fields): Stamp {
    Stamp(CivilDate(f.year, f.month, f.day), f.hour, f.minute)
  }

  /** A valid calendar point whose year String() prints with exactly four digits. */
  predicate Printable(st: Stamp) {
    ValidStamp(st) && 1000 <= st.date.year <= 9999
  }

  // ---------------------------------------------------------------------------
  // Calendar points and minute counts
  // ---------------------------------------------------------------------------

  /** StampOfMinute undoes MinuteOfStamp on valid calendar points. */
  lemma StampOfMinuteOfStamp(st: Stamp)
    requires ValidStamp(st)
    ensures StampOfMinute(MinuteOfStamp(st)) == st
  {
    var z := DayNumber(st.date);
    var q := MinuteOfStamp(st);
    MinuteFields(z, st.hour, st.minute);
    FromDayNumberOfDayNumber(st.date);
    assert FromDayNumber(q / MinutesPerDay) == st.date;
  }

  /** The day, hour and minute of a minute count, recovered by division. */
  lemma MinuteFields(z: int, h: int, m: int)
    requires 0 <= h < 24 && 0 <= m < 60
    ensures var q := z * MinutesPerDay + h * 60 + m;
      q / MinutesPerDay == z && q % MinutesPerDay / 60 == h && q % 60 == m
  {
    var q := z * MinutesPerDay + h * 60 + m;
    assert q / MinutesPerDay == z && q % MinutesPerDay == h * 60 + m;
    assert q == (z * 24 + h) * 60 + m;
  }

  /** Four-digit years lie between day numbers -354285 (1000-01-01) and 2932897 (10000-01-01). */
  lemma PrintableDayNumbers(d: CivilDate)
    requires ValidDate(d) && 1000 <= d.year <= 9999
    ensures -354285 <= DayNumber(d) < 2932897
  {
    DayNumberBounds(d);
    if 1000 < d.year {
      YearsIncrease(1000, d.year);
    }
    if d.year + 1 < 10000 {
      YearsIncrease(d.year + 1, 10000);
    }
    assert DaysBeforeYear(1000) == -354285;
    assert DaysBeforeYear(10000) == 2932897;
  }

  /** A printable calendar point is a valid Date: its minute count is inside the time-value range. */
  lemma PrintableInRange(st: Stamp)
    requires Printable(st)
    ensures -MaxMinutes <= MinuteOfStamp(st) <= MaxMinutes
  {
    PrintableDayNumbers(st.date);
  }

  // ---------------------------------------------------------------------------
  // The output layout
  // ---------------------------------------------------------------------------

  /** String(n) has at most k digits exactly when n < 10^k. */
  lemma {:induction false} NaturalStringWidth(n: nat, k: nat)
    requires 1 <= k
    ensures n < Pow10(k) <==> |NaturalString(n)| <= k
    decreases k
  {
    if n < 10 {
      PowAtLeastTen(k);
    } else if k == 1 {
      assert |NaturalString(n)| == |NaturalString(n / 10)| + 1;
    } else {
      NaturalStringWidth(n / 10, k - 1);
      assert |NaturalString(n)| == |NaturalString(n / 10)| + 1;
      assert n < Pow10(k) <==> n / 10 < Pow10(k - 1);
    }
  }

  lemma {:induction false} PowAtLeastTen(k: nat)
    requires 1 <= k
    ensures 10 <= Pow10(k)
  {
    if k > 1 {
      PowAtLeastTen(k - 1);
    }
  }

  /** A printable calendar point is printed zero-padded in the fixed layout dd.mm.yyyy hh:mm,
      and that text parses back to the same five fields. */
  lemma RenderPrintable(st: Stamp)
    requires Printable(st)
    ensures FieldsFit(FieldsOfStamp(st))
    ensures Render(st) == Layout(FieldsOfStamp(st), ' ')
    ensures Parse(Render(st)) == Some(FieldsOfStamp(st))
  {
    var f := FieldsOfStamp(st);
    FormatIsLayout(f);
    ParseLayout(f, ' ');
  }

  /** The printed text of a valid calendar point matches the input pattern exactly when its
      year has four digits: other years print shorter, longer or with a minus sign. */
  lemma RenderParsesIffPrintable(st: Stamp)
    requires ValidStamp(st)
    ensures Parse(Render(st)).Some? <==> 1000 <= st.date.year <= 9999
  {
    var y := st.date.year;
    if 1000 <= y <= 9999 {
      RenderPrintable(st);
    } else if Parse(Render(st)).Some? {
      RenderYearPosition(st);
      if 0 <= y {
        NaturalStringWidth(y, 4);
        NaturalStringWidth(y, 3);
      }
    }
  }

  /** Around the year, every field of a valid calendar point prints with two digits, so the
      year text starts at index 6 and the whole text is 12 characters longer than it. */
  lemma RenderYearPosition(st: Stamp)
    requires ValidStamp(st)
    ensures var ys := NumberString(Some(st.date.year));
      |Render(st)| == 12 + |ys| && Render(st)[6] == ys[0]
  {
    var ys := NumberString(Some(st.date.year));
    var dd := PadStart2(NumberString(Some(st.date.day)));
    var mm := PadStart2(NumberString(Some(st.date.month)));
    var hh := PadStart2(NumberString(Some(st.hour)));
    var mi := PadStart2(NumberString(Some(st.minute)));
    PaddedTwoDigits(st.date.day);
    PaddedTwoDigits(st.date.month);
    PaddedTwoDigits(st.hour);
    PaddedTwoDigits(st.minute);
    assert Render(st) == dd + "." + mm + "." + ys + " " + hh + ":" + mi;
    TemplateYearPosition(dd, mm, ys, hh, mi);
  }

  /** In the output template with two-character fields, the year starts at index 6. */
  lemma TemplateYearPosition(dd: string, mm: string, ys: string, hh: string, mi: string)
    requires |dd| == 2 && |mm| == 2 && |hh| == 2 && |mi| == 2 && 1 <= |ys|
    ensures var r := dd + "." + mm + "." + ys + " " + hh + ":" + mi;
      |r| == 12 + |ys| && r[6] == ys[0]
  {
    var front := dd + "." + mm + ".";
    assert (front + ys)[6] == ys[0];
  }

  /** Minute counts of printable calendar points print in the fixed layout. */
  lemma MinuteTextOfPrintable(st: Stamp)
    requires Printable(st)
    ensures MinuteText(MinuteOfStamp(st)) == Layout(FieldsOfStamp(st), ' ')
  {
    PrintableInRange(st);
    StampOfMinuteOfStamp(st);
    RenderPrintable(st);
  }

  /** The text of an Invalid Date never matches the input pattern. */
  lemma InvalidDateTextRejected()
    ensures Parse(InvalidDateText) == None
  {
    assert InvalidDateText[0] == 'N';
  }

  // ---------------------------------------------------------------------------
  // addDaysToDateString
  // ---------------------------------------------------------------------------

  /** Exactly the strings outside the layout dd.mm.yyyy<whitespace>hh:mm are rejected,
      with the message that quotes them. */
  lemma MalformedInputRejected(s: string, days: int)
    ensures DaysLater(s, days).Failure?
            <==> !exists f: Fields, w: char :: FieldsFit(f) && IsWhitespace(w) && s == Layout(f, w)
    ensures DaysLater(s, days).Failure? ==> DaysLater(s, days).error == "Invalid dateTime format: " + s
  {
    ParseAcceptsExactlyLayouts(s);
  }

  /** For fields that name a real date with a year from 100 on, the Date constructor
      lands on exactly that calendar point. */
  lemma StartMinuteOfValidFields(f: Fields)
    requires ValidStamp(StampOfFields(f)) && 100 <= f.year
    ensures StartMinute(f) == MinuteOfStamp(StampOfFields(f))
  {
    var d := StampOfFields(f).date;
    MakeDayOfCivil(d, 0, d.day);
  }

  /** The first day of month m (1-based) of year y, a month outside 1..12 carried into the year. */
  function FirstOfMonth(y: int, m: int): CivilDate {
    CivilDate(y + (m - 1) / 12, (m - 1) % 12 + 1, 1)
  }

  /** How the Date constructor normalises fields outside their usual ranges: the month carries
      into the year, the day counts on from the first of that month one day at a time (so day 0
      is the last day of the month before), and hours and minutes carry into the day. */
  lemma OverflowingFieldsCarry(f: Fields)
    ensures var first := FirstOfMonth(MakeFullYear(f.year), f.month);
      && ValidDate(first)
      && StartMinute(f) == MinuteOfStamp(Stamp(ShiftByCarry(first, f.day - 1), 0, 0)) + f.hour * 60 + f.minute
  {
    var y := MakeFullYear(f.year);
    var first := FirstOfMonth(y, f.month);
    FirstOfMonthValid(y, f.month);
    var x := MakeDay(y, f.month - 1, f.day);
    MakeDayFromFirst(y, f.month, f.day);
    var d := ShiftByCarry(first, f.day - 1);
    MidnightMinute(x, d);
  }

  /** Midnight of a date with day number x lies x whole days of minutes after the epoch. */
  lemma MidnightMinute(x: int, d: CivilDate)
    requires ValidDate(d) && x == DayNumber(d)
    ensures MinuteOfStamp(Stamp(d, 0, 0)) == x * MinutesPerDay
  {
  }

  lemma FirstOfMonthValid(y: int, m: int)
    ensures ValidDate(FirstOfMonth(y, m))
  {
  }

  /** MakeDay counts the date on from the first of the (carried) month. */
  lemma MakeDayFromFirst(y: int, m: int, day: int)
    ensures MakeDay(y, m - 1, day) == DayNumber(FirstOfMonth(y, m)) + (day - 1)
  {
  }

  /** addDaysToDateString on a real calendar date: the date moves by `days` with carry across
      months and years, the hour and minute stay, and the result is printed zero-padded. */
  lemma AddDaysMovesDate(s: string, f: Fields, days: int)
    requires Parse(s) == Some(f)
    requires ValidStamp(StampOfFields(f)) && 1000 <= f.year
    requires 1000 <= ShiftByCarry(StampOfFields(f).date, days).year <= 9999
    ensures var d := ShiftByCarry(StampOfFields(f).date, days);
      DaysLater(s, days) == Success(Layout(Fields(d.day, d.month, d.year, f.hour, f.minute), ' '))
  {
    var st := StampOfFields(f);
    var d := ShiftByCarry(st.date, days);
    var moved := Stamp(d, f.hour, f.minute);
    StartMinuteOfValidFields(f);
    assert DaysAfter(StartMinute(f), days) == MinuteOfStamp(moved);
    MinuteTextOfPrintable(moved);
  }

  /** With zero days and a single space as separator, a real date comes back unchanged. */
  lemma ZeroDaysIsIdentity(s: string, f: Fields)
    requires Parse(s) == Some(f) && s[10] == ' '
    requires ValidStamp(StampOfFields(f)) && 1000 <= f.year
    ensures DaysLater(s, 0) == Success(s)
  {
    LayoutOfParse(s);
    assert ShiftByCarry(StampOfFields(f).date, 0) == StampOfFields(f).date;
    AddDaysMovesDate(s, f, 0);
  }

  /** A printed minute count that matches the input pattern parses back to the fields of
      its calendar point, and the Date constructor lands on that minute again. */
  lemma ReparsedMinute(q: int)
    requires Parse(MinuteText(q)).Some?
    ensures -MaxMinutes <= q <= MaxMinutes
    ensures Parse(MinuteText(q)) == Some(FieldsOfStamp(StampOfMinute(q)))
    ensures StartMinute(Parse(MinuteText(q)).value) == q
  {
    if !(-MaxMinutes <= q <= MaxMinutes) {
      InvalidDateTextRejected();
    }
    var st := StampOfMinute(q);
    RenderParsesIffPrintable(st);
    RenderPrintable(st);
    var g := FieldsOfStamp(st);
    assert StampOfFields(g) == st;
    StartMinuteOfValidFields(g);
  }

  /** Moving by a days and then by b days is moving by a + b days, whenever the first result
      is again a well-formed timestamp. */
  lemma AddDaysTwice(s: string, a: int, b: int)
    requires DaysLater(s, a).Success? && Parse(DaysLater(s, a).value).Some?
    ensures DaysLater(DaysLater(s, a).value, b) == DaysLater(s, a + b)
  {
    var f := Parse(s).value;
    var q := DaysAfter(StartMinute(f), a);
    assert DaysLater(s, a).value == MinuteText(q);
    MinuteTextMovedAgain(q, b);
    assert (a + b) * MinutesPerDay == a * MinutesPerDay + b * MinutesPerDay;
  }

  /** A well-formed printed minute count, moved again by b days, is that minute moved by b days. */
  lemma MinuteTextMovedAgain(q: int, b: int)
    requires Parse(MinuteText(q)).Some?
    ensures DaysLater(MinuteText(q), b) == Success(MinuteText(DaysAfter(q, b)))
  {
    ReparsedMinute(q);
  }

  // ---------------------------------------------------------------------------
  // futureDate
  // ---------------------------------------------------------------------------

  /** futureDate prints the minute count of now moved by whole days, the seconds dropped. */
  lemma FutureIsMinuteText(now: int, n: int)
    requires InTimeRange(DaysAfterTime(now, n))
    ensures FutureStamp(now, n) == MinuteText(DaysAfterTime(now, n) / MsPerMinute)
  {
    var later := DaysAfterTime(now, n);
    var q := later / MsPerMinute;
    TimeOfMinutes(later);
    ClockAfterDays(now, n);
    assert StampOfMinute(q) == Stamp(FromDayNumber(Day(later)), HourFromTime(now), MinFromTime(now));
  }

  /** When the moved date leaves the time-value range, futureDate prints NaN for the date,
      which no longer matches the input pattern. */
  lemma FutureOutOfRangeRejected(now: int, n: int)
    requires !InTimeRange(DaysAfterTime(now, n))
    ensures Parse(FutureStamp(now, n)) == None
  {
    assert FutureStamp(now, n)[0] == 'N';
  }

  /** futureDate at a clock reading given as a calendar date and a time of day: the date moves
      by n days with carry, the hour and minute are those of the clock, the seconds and
      milliseconds are dropped, and the text is zero-padded. */
  lemma FutureDateOfCivil(date: CivilDate, h: int, m: int, sec: int, ms: int, n: int)
    requires ValidDate(date) && 0 <= h < 24 && 0 <= m < 60 && 0 <= sec < 60 && 0 <= ms < 1000
    requires 1000 <= ShiftByCarry(date, n).year <= 9999
    ensures var d := ShiftByCarry(date, n);
      FutureStamp(MakeDate(DayNumber(date), MakeTime(h, m, sec, ms)), n)
      == Layout(Fields(d.day, d.month, d.year, h, m), ' ')
  {
    var now := MakeDate(DayNumber(date), MakeTime(h, m, sec, ms));
    var d := ShiftByCarry(date, n);
    FieldsOfMakeDate(DayNumber(date), h, m, sec, ms);
    ClockAfterDays(now, n);
    var later := DaysAfterTime(now, n);
    var z := Day(later);
    DayNumberInjective(FromDayNumber(z), d);
    PrintableDayNumbers(d);
    assert InTimeRange(later);
    RenderPrintable(Stamp(d, h, m));
  }

  /** futureDate(n) followed by addDaysToDateString(_, k) is futureDate(n + k), whenever the
      first text is a well-formed timestamp and the second date is a valid Date. */
  lemma FutureThenAddDays(now: int, n: int, k: int)
    requires Parse(FutureStamp(now, n)).Some?
    requires InTimeRange(DaysAfterTime(now, n + k))
    ensures DaysLater(FutureStamp(now, n), k) == Success(FutureStamp(now, n + k))
  {
    FutureTextReparsed(now, n, k);
    MinutesAfterDays(now, n, k);
    forall m | InTimeRange(DaysAfterTime(now, m))
      ensures FutureStamp(now, m) == MinuteText(DaysAfterTime(now, m) / MsPerMinute)
    {
      FutureIsMinuteText(now, m);
    }
  }

  /** A well-formed futureDate text is read back by addDaysToDateString as the minute it printed. */
  lemma FutureTextReparsed(now: int, n: int, k: int)
    requires Parse(FutureStamp(now, n)).Some?
    ensures InTimeRange(DaysAfterTime(now, n))
    ensures DaysLater(FutureStamp(now, n), k)
            == Success(MinuteText(DaysAfter(DaysAfterTime(now, n) / MsPerMinute, k)))
  {
    var later := DaysAfterTime(now, n);
    if !InTimeRange(later) {
      FutureOutOfRangeRejected(now, n);
    }
    var q := later / MsPerMinute;
    FutureIsMinuteText(now, n);
    var t := FutureStamp(now, n);
    assert t == MinuteText(q);
    ReparsedMinute(q);
    assert StartMinute(Parse(t).value) == q;
  }

  /** Whole days move the minute count of a time value by whole days of minutes. */
  lemma MinutesAfterDays(now: int, n: int, k: int)
    ensures DaysAfterTime(now, n + k) / MsPerMinute == DaysAfter(DaysAfterTime(now, n) / MsPerMinute, k)
  {
    var later := DaysAfterTime(now, n);
    var later2 := DaysAfterTime(now, n + k);
    assert later2 == later + k * 1440 * MsPerMinute;
  }

  /** The text futureDate prints, when well formed, is a fixed point of addDaysToDateString
      with zero days. */
  lemma FutureDateReparses(now: int, n: int)
    requires Parse(FutureStamp(now, n)).Some?
    ensures DaysLater(FutureStamp(now, n), 0) == Success(FutureStamp(now, n))
  {
    if !InTimeRange(DaysAfterTime(now, n)) {
      FutureOutOfRangeRejected(now, n);
    }
    FutureThenAddDays(now, n, 0);
  }

  // ---------------------------------------------------------------------------
  // Worked examples
  // ---------------------------------------------------------------------------

  /** A string spelled character by character as the layout of f. */
  lemma LayoutFromChars(f: Fields, w: char, s: string)
    requires FieldsFit(f) && |s| == 16
    requires s[0] == DigitChar(f.day / 10) && s[1] == DigitChar(f.day % 10) && s[2] == '.'
    requires s[3] == DigitChar(f.month / 10) && s[4] == DigitChar(f.month % 10) && s[5] == '.'
    requires s[6] == DigitChar(f.year / 1000) && s[7] == DigitChar(f.year / 100 % 10)
    requires s[8] == DigitChar(f.year / 10 % 10) && s[9] == DigitChar(f.year % 10)
    requires s[10] == w
    requires s[11] == DigitChar(f.hour / 10) && s[12] == DigitChar(f.hour % 10) && s[13] == ':'
    requires s[14] == DigitChar(f.minute / 10) && s[15] == DigitChar(f.minute % 10)
    ensures Layout(f, w) == s
  {
    var l := Layout(f, w);
    assert |l| == 16;
    forall i | 0 <= i < 16
      ensures l[i] == s[i]
    {
    }
  }

  /** AddDaysMovesDate for a date written in the input layout, with the expected text given. */
  lemma AddDaysOfLayout(s: string, f: Fields, w: char, days: int, d: CivilDate, expected: string)
    requires FieldsFit(f) && IsWhitespace(w) && s == Layout(f, w)
    requires ValidStamp(StampOfFields(f)) && 1000 <= f.year
    requires ShiftByCarry(StampOfFields(f).date, days) == d && 1000 <= d.year <= 9999
    requires expected == Layout(Fields(d.day, d.month, d.year, f.hour, f.minute), ' ')
    ensures DaysLater(s, days) == Success(expected)
  {
    ParseLayout(f, w);
    AddDaysMovesDate(s, f, days);
  }

  /** The text for fields in the input layout that the Date constructor normalises to st. */
  lemma NormalisedOfLayout(s: string, f: Fields, days: int, st: Stamp, expected: string)
    requires FieldsFit(f) && s == Layout(f, ' ')
    requires Printable(st) && DaysAfter(StartMinute(f), days) == MinuteOfStamp(st)
    requires expected == Layout(FieldsOfStamp(st), ' ')
    ensures DaysLater(s, days) == Success(expected)
  {
    ParseLayout(f, ' ');
    MinuteTextOfPrintable(st);
  }

  /** 2024 is a leap year: the day after 28 February is 29 February. */
  lemma LeapDayExample()
    ensures DaysLater("28.02.2024 10:00", 1) == Success("29.02.2024 10:00")
  {
    LayoutFromChars(Fields(28, 2, 2024, 10, 0), ' ', "28.02.2024 10:00");
    LayoutFromChars(Fields(29, 2, 2024, 10, 0), ' ', "29.02.2024 10:00");
    AddDaysOfLayout("28.02.2024 10:00", Fields(28, 2, 2024, 10, 0), ' ', 1,
                    CivilDate(2024, 2, 29), "29.02.2024 10:00");
  }

  /** 2023 is not: the day after 28 February is 1 March. */
  lemma CommonYearExample()
    ensures DaysLater("28.02.2023 10:00", 1) == Success("01.03.2023 10:00")
  {
    LayoutFromChars(Fields(28, 2, 2023, 10, 0), ' ', "28.02.2023 10:00");
    LayoutFromChars(Fields(1, 3, 2023, 10, 0), ' ', "01.03.2023 10:00");
    AddDaysOfLayout("28.02.2023 10:00", Fields(28, 2, 2023, 10, 0), ' ', 1,
                    CivilDate(2023, 3, 1), "01.03.2023 10:00");
  }

  /** The last minute of a year moves into the next year with its clock unchanged. */
  lemma YearEndExample()
    ensures DaysLater("31.12.2024 23:59", 1) == Success("01.01.2025 23:59")
  {
    LayoutFromChars(Fields(31, 12, 2024, 23, 59), ' ', "31.12.2024 23:59");
    LayoutFromChars(Fields(1, 1, 2025, 23, 59), ' ', "01.01.2025 23:59");
    AddDaysOfLayout("31.12.2024 23:59", Fields(31, 12, 2024, 23, 59), ' ', 1,
                    CivilDate(2025, 1, 1), "01.01.2025 23:59");
  }

  /** Negative days move backwards, borrowing from the previous month. */
  lemma BackwardsExample()
    ensures DaysLater("01.03.2024 10:00", -1) == Success("29.02.2024 10:00")
  {
    LayoutFromChars(Fields(1, 3, 2024, 10, 0), ' ', "01.03.2024 10:00");
    LayoutFromChars(Fields(29, 2, 2024, 10, 0), ' ', "29.02.2024 10:00");
    AddDaysOfLayout("01.03.2024 10:00", Fields(1, 3, 2024, 10, 0), ' ', -1,
                    CivilDate(2024, 2, 29), "29.02.2024 10:00");
  }

  /** Any whitespace separates date and time on input; the output always uses a space. */
  lemma TabSeparatorExample()
    ensures DaysLater("28.02.2024\t10:00", 0) == Success("28.02.2024 10:00")
  {
    LayoutFromChars(Fields(28, 2, 2024, 10, 0), '\t', "28.02.2024\t10:00");
    LayoutFromChars(Fields(28, 2, 2024, 10, 0), ' ', "28.02.2024 10:00");
    AddDaysOfLayout("28.02.2024\t10:00", Fields(28, 2, 2024, 10, 0), '\t', 0,
                    CivilDate(2024, 2, 28), "28.02.2024 10:00");
  }

  /** A day past the end of its month carries into the next month. */
  lemma DayOverflowExample()
    ensures DaysLater("31.02.2023 10:00", 0) == Success("03.03.2023 10:00")
  {
    assert MakeDay(2023, 1, 31) == DayNumber(CivilDate(2023, 3, 3));
    LayoutFromChars(Fields(31, 2, 2023, 10, 0), ' ', "31.02.2023 10:00");
    LayoutFromChars(Fields(3, 3, 2023, 10, 0), ' ', "03.03.2023 10:00");
    NormalisedOfLayout("31.02.2023 10:00", Fields(31, 2, 2023, 10, 0), 0,
                       Stamp(CivilDate(2023, 3, 3), 10, 0), "03.03.2023 10:00");
  }

  /** Day 0 is the last day of the previous month. */
  lemma DayZeroExample()
    ensures DaysLater("00.03.2024 10:00", 0) == Success("29.02.2024 10:00")
  {
    assert MakeDay(2024, 2, 0) == DayNumber(CivilDate(2024, 2, 29));
    LayoutFromChars(Fields(0, 3, 2024, 10, 0), ' ', "00.03.2024 10:00");
    LayoutFromChars(Fields(29, 2, 2024, 10, 0), ' ', "29.02.2024 10:00");
    NormalisedOfLayout("00.03.2024 10:00", Fields(0, 3, 2024, 10, 0), 0,
                       Stamp(CivilDate(2024, 2, 29), 10, 0), "29.02.2024 10:00");
  }

  /** Month 13 is January of the following year. */
  lemma MonthOverflowExample()
    ensures DaysLater("15.13.2023 10:00", 0) == Success("15.01.2024 10:00")
  {
    assert MakeDay(2023, 12, 15) == DayNumber(CivilDate(2024, 1, 15));
    LayoutFromChars(Fields(15, 13, 2023, 10, 0), ' ', "15.13.2023 10:00");
    LayoutFromChars(Fields(15, 1, 2024, 10, 0), ' ', "15.01.2024 10:00");
    NormalisedOfLayout("15.13.2023 10:00", Fields(15, 13, 2023, 10, 0), 0,
                       Stamp(CivilDate(2024, 1, 15), 10, 0), "15.01.2024 10:00");
  }

  /** Hour 24 is midnight of the following day. */
  lemma HourOverflowExample()
    ensures DaysLater("31.12.2024 24:00", 0) == Success("01.01.2025 00:00")
  {
    YearStep(2024);
    assert MakeDay(2024, 11, 31) + 1 == DayNumber(CivilDate(2025, 1, 1));
    LayoutFromChars(Fields(31, 12, 2024, 24, 0), ' ', "31.12.2024 24:00");
    LayoutFromChars(Fields(1, 1, 2025, 0, 0), ' ', "01.01.2025 00:00");
    NormalisedOfLayout("31.12.2024 24:00", Fields(31, 12, 2024, 24, 0), 0,
                       Stamp(CivilDate(2025, 1, 1), 0, 0), "01.01.2025 00:00");
  }

  /** The Date constructor reads years 0..99 as 1900..1999. */
  lemma TwoDigitYearExample()
    ensures DaysLater("01.01.0050 10:00", 0) == Success("01.01.1950 10:00")
  {
    assert MakeDay(1950, 0, 1) == DayNumber(CivilDate(1950, 1, 1));
    LayoutFromChars(Fields(1, 1, 50, 10, 0), ' ', "01.01.0050 10:00");
    LayoutFromChars(Fields(1, 1, 1950, 10, 0), ' ', "01.01.1950 10:00");
    NormalisedOfLayout("01.01.0050 10:00", Fields(1, 1, 50, 10, 0), 0,
                       Stamp(CivilDate(1950, 1, 1), 10, 0), "01.01.1950 10:00");
  }

  /** An ISO-style date is refused, with the message that quotes it. */
  lemma DashedDateRejected(days: int)
    ensures DaysLater("2024-02-28 10:00", days) == Failure(InvalidFormatMessage("2024-02-28 10:00"))
  {
    assert "2024-02-28 10:00"[2] == '2';
  }

  /** Minutes are not optional. */
  lemma MissingMinutesRejected(days: int)
    ensures DaysLater("28.02.2024 10", days) == Failure(InvalidFormatMessage("28.02.2024 10"))
  {
    assert |"28.02.2024 10"| == 13;
  }

  lemma NonDateRejected(days: int)
    ensures DaysLater("not-a-date", days) == Failure(InvalidFormatMessage("not-a-date"))
  {
    assert |"not-a-date"| == 10;
  }

  /** The separator must be whitespace; the ISO 'T' is refused. */
  lemma IsoSeparatorRejected(days: int)
    ensures DaysLater("28.02.2024T10:00", days) == Failure(InvalidFormatMessage("28.02.2024T10:00"))
  {
    assert "28.02.2024T10:00"[10] == 'T';
  }
}
