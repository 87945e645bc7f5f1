# Timestamp helpers of the end-to-end suite, in Dafny

This project models the part of the suite's `TestHelpers` class that computes
something. The rest of the repository is page objects and browser scenarios.

- `addDaysToDateString(dateTime, days)` does the following:
  - It matches `dd.mm.yyyy<whitespace>hh:mm` with a regular expression.
  - A mismatch throws `Invalid dateTime format: <input>`.
  - It builds `new Date(yyyy, mm - 1, dd, hh, min, 0, 0)` and then calls `setDate(getDate() + days)`.
  - It prints the getters as `dd.mm.yyyy hh:mm`. Day, month, hour and minute are padded to two digits. The year is printed by `String()`.
- `futureDate(daysAhead)` does the following:
  - It copies the current instant.
  - It moves the copy by `daysAhead` days and calls `setSeconds(0, 0)`.
  - It prints the copy's date with the original instant's hour and minute.
- The location getters return the environment variable when it is set and non-empty, and a fixed default otherwise.
- `login` checks that both credentials are present before it navigates.

The modules follow the layers of the code:

| module | contents |
|---|---|
| `Wrappers` | `Option` and `Result`. |
| `Calendar` | Proleptic Gregorian civil dates and their day numbers, counted from 1970-01-01. It has the inverse `FromDayNumber` and a day-by-day carry reference `ShiftByCarry` built from `NextDay` and `PrevDay`. |
| `JsDate` | The ECMAScript time-value operations the helpers rely on. These follow section 21.4.1 of ECMA-262: `MakeDay`, `MakeDate`, `MakeTime`, `TimeClip`, the field extractors, and the reading of years 0..99 as 1900..1999. It also has a `Date` class whose single field, the time value, is replaced by `SetDate` and `SetSeconds`. NaN is `None`. |
| `TimestampText` | The regular expression as `Parse`, plus `parseInt`, `String()`, `padStart(2, '0')` and the output template. It also holds the fixed layout and the proof that the pattern accepts exactly the layouts. |
| `TestHelpers` | The two helpers as imperative methods over `Date` objects, step for step as in the source. Each method is proved equal to a specification function: `DaysLater` or `FutureStamp`. This module also has the environment getters and the credential check. |
| `TimestampProperties` | What the helpers promise, proved about the specification functions, with worked examples. |

The model follows the code in these places, where a reader might expect otherwise:
- Out-of-range fields that still match the pattern are normalised by the Date constructor, not rejected. For example, `31.02.2023` reads as 3 March.
- Any whitespace character is accepted between date and time. The output always uses one space.
- Hour and minute are kept only for in-range fields. Hour `24` carries into the next day.
- Additivity holds only while the intermediate text is again a well-formed timestamp.
- Years 0..99 in the input mean 1900..1999.
- Result years outside 1000..9999 print with other than four digits. A negative year prints with a minus sign.

The clock of `futureDate` and the process environment are parameters. Local time is taken to equal the time value: a zone with a fixed offset and no daylight saving.

## Model

| member | source | states |
|---|---|---|
| TestHelpers.AddDaysToDateString | tests/utils/testHelpers.ts:83-107 | Running the source's steps on a `Date` object gives exactly `DaysLater`. A non-matching string gives the format error. A matching one gives the text of the constructed date moved by `days` whole days. |
| TestHelpers.FutureDate | tests/utils/testHelpers.ts:70-81 | Running the steps (copy, setDate, setSeconds, read the getters of copy and original) gives exactly `FutureStamp`. |
| TestHelpers.AddDaysSteps | tests/utils/testHelpers.ts:99-106 | Construct, then `setDate(getDate() + days)`, then read the getters: the result is the text of the start minute plus `days` days of minutes. If the result leaves the time-value range, every getter reads NaN. |
| TestHelpers.FutureDateSteps | tests/utils/testHelpers.ts:71-80 | The getters after copy, setDate and setSeconds read the date of now moved by whole days, and the hour and minute of now. |
| TestHelpers.ConstructedTime | tests/utils/testHelpers.ts:99 | For every string the pattern accepts, `new Date(yyyy, mm - 1, dd, hh, min, 0, 0)` is a valid Date. It holds exactly `StartMinute` whole minutes. |
| TestHelpers.StartMinuteInRange | tests/utils/testHelpers.ts:85-99 | Every string the pattern accepts denotes a minute within 5·10^9 minutes of the epoch, because the constructed year lies in 99..10007. That is inside the time-value range of ±1.44·10^11 minutes. |
| TestHelpers.DateTextOfMinute | tests/utils/testHelpers.ts:101-106 | The printed getters of a Date holding q whole minutes are `MinuteText(q)`. This covers the NaN text outside the range. |
| TestHelpers.GettersOfMinute | tests/utils/testHelpers.ts:101-105 | getDate, getMonth + 1, getFullYear, getHours and getMinutes of q whole minutes are the fields of `StampOfMinute(q)`. |
| TestHelpers.StampOfMinute | tests/utils/testHelpers.ts:101-105 | The calendar point a minute count reads as is valid, and it lies exactly that many minutes from the epoch. |
| TestHelpers.EnvOr | tests/utils/testHelpers.ts:8 | The definition of `process.env[name] \|\| fallback`, also at lines 12, 16, 20 and 111-112. It has no contract of its own: `LocationSetting` and `LoginCredentials` state what it yields in terms of the environment. |
| TestHelpers.LocationSetting | tests/utils/testHelpers.ts:7-21 | Each of the four getters returns its own variable (PICKUP_CITY, PICKUP_COUNTRY, DELIVERY_CITY, DELIVERY_COUNTRY) when it is set and non-empty. Otherwise it returns its default (Košice, Slovakia, Brno, Czechia). The result is never empty. |
| TestHelpers.LoginCredentials | tests/utils/testHelpers.ts:110-115 | Succeeds exactly when both LOGIN_EMAIL and LOGIN_PASSWORD are present and non-empty, with those values. Otherwise it fails with the source's message. |
| JsDate.Date.SetDate | tests/utils/testHelpers.ts:100 | The new time value is `setDate` applied to the old one: year, month and time of day kept, day replaced with carry, NaN in gives NaN out. |
| JsDate.Date.SetSeconds | tests/utils/testHelpers.ts:74 | The new time value is `setSeconds` applied to the old one: the seconds of the minute are replaced by sec and the milliseconds of the second by ms. For sec in 0..59 and ms in 0..999, as in the call `setSeconds(0, 0)`, the day, hour and minute are kept. Other values carry as MakeTime does. NaN in gives NaN out. |
| JsDate.SetDateValueMovesDays | tests/utils/testHelpers.ts:100 | `setDate(getDate() + n)` on a valid time value moves it by exactly n days of milliseconds. The result is NaN when that leaves the range. |
| JsDate.SetDateMovesDays | tests/utils/testHelpers.ts:100 | MakeDay/MakeDate over the fields of t, with the date moved by n, is t plus n days. |
| JsDate.MakeDayOfCivil | tests/utils/testHelpers.ts:100 | MakeDay over the fields of a real date, with the date moved by n, is that date's day number plus n. |
| JsDate.MakeDayCarriesYears | tests/utils/testHelpers.ts:99 | In the Date constructor twelve months carry into one year. |
| JsDate.SetSecondsValueTruncates | tests/utils/testHelpers.ts:74 | `setSeconds(0, 0)` on a valid time value stays valid and on the same day. |
| JsDate.TruncateToMinute | tests/utils/testHelpers.ts:74 | Dropping the seconds and milliseconds keeps the time value in range and on the same day. |
| JsDate.TimeOfMinutes | tests/utils/testHelpers.ts:74-79 | The day, hour and minute of a time value depend only on its whole minutes. Dropping the seconds leaves exactly those minutes. |
| JsDate.ClockAfterDays | tests/utils/testHelpers.ts:73-79 | Moving by whole days changes the day by exactly that many and keeps getHours and getMinutes. |
| JsDate.FieldsOfMakeDate | tests/utils/testHelpers.ts:99 | A time value built from a day and an in-range clock gives back that day, hour and minute. |
| Calendar.FromDayNumber | tests/utils/testHelpers.ts:101-103 | The calendar date of any day number is valid and has that day number. |
| Calendar.FromDayNumberOfDayNumber | tests/utils/testHelpers.ts:101-103 | Reading back the day number of a valid date gives that date. |
| Calendar.DayNumberInjective | tests/utils/testHelpers.ts:101-103 | Distinct valid dates have distinct day numbers. |
| Calendar.NextDay | tests/utils/testHelpers.ts:100 | The next date is valid and one day number later. It carries at month ends, 29 February and year ends. |
| Calendar.PrevDay | tests/utils/testHelpers.ts:100 | The previous date is valid and one day number earlier. |
| Calendar.ShiftByCarry | tests/utils/testHelpers.ts:100 | Moving one day at a time by n days gives a valid date n day numbers later. |
| Calendar.ShiftIsDayArithmetic | tests/utils/testHelpers.ts:100 | Day-by-day carry agrees with day-number arithmetic. |
| TimestampText.Parse | tests/utils/testHelpers.ts:85-98 | The match succeeds exactly when the string has the pattern's 16 characters in place. parseInt of each captured group gives fields that fit their widths: day, month, hour and minute below 100, year below 10000. |
| TimestampText.IsWhitespace | tests/utils/testHelpers.ts:85 | `\s` is the set of ECMAScript WhiteSpace and LineTerminator code points. None of them is a digit, `.` or `:`. |
| TimestampText.DecimalValue | tests/utils/testHelpers.ts:94-98 | `parseInt(ds, 10)` of a string of decimal digits is a number from 0 to below 10^(length of ds). |
| TimestampText.NaturalString | tests/utils/testHelpers.ts:101-106 | `String(n)` of a non-negative integer is a non-empty run of digits with no leading zero unless n is 0. parseInt reads it back as n. |
| TimestampText.NumberString | tests/utils/testHelpers.ts:101-106 | `String(x)`: NaN prints `NaN`. A non-negative integer prints digits that parseInt reads back as x. A negative one starts with `-`. |
| TimestampText.PadStart2 | tests/utils/testHelpers.ts:75-79 | `padStart(2, '0')`: the result has length max(2, \|s\|). It ends with s, and everything in front of s is `0`. |
| TimestampText.FormatParts | tests/utils/testHelpers.ts:101-106 | The template `${dd}.${mm}.${yyyy} ${hh}:${min}` over the five getter values, with every part but the year padded. The definition has no contract of its own: `FormatIsLayout` and `RenderParsesIffPrintable` state what it prints. |
| JsDate.Date.FromFields | tests/utils/testHelpers.ts:99 | `new Date(year, month, date, hours, minutes, seconds, ms)` holds TimeClip of MakeDate(MakeDay(MakeFullYear(year), month, date), MakeTime(...)). `ConstructedTime` and `OverflowingFieldsCarry` state what that value is. |
| JsDate.Date.Now | tests/utils/testHelpers.ts:71 | `new Date()` holds the clock reading, which must be a valid time value. |
| JsDate.Date.Copy | tests/utils/testHelpers.ts:72 | `new Date(now)` holds the same time value as now. It is a distinct object, so later setters on the copy leave now unchanged. |
| JsDate.Date.GetDate | tests/utils/testHelpers.ts:73-75 | `getDate()` is the day of the month of the time value, or NaN. |
| JsDate.Date.GetMonth | tests/utils/testHelpers.ts:76 | `getMonth()` is the 0-based month of the time value, or NaN. |
| JsDate.Date.GetFullYear | tests/utils/testHelpers.ts:77 | `getFullYear()` is the year of the time value, or NaN. |
| JsDate.Date.GetHours | tests/utils/testHelpers.ts:78 | `getHours()` is the hour of the time value, or NaN. |
| JsDate.Date.GetMinutes | tests/utils/testHelpers.ts:79 | `getMinutes()` is the minute of the time value, or NaN. |
| JsDate.SetDateValue | tests/utils/testHelpers.ts:100 | The time value `setDate(date)` leaves: year, month and time within the day kept, the day of the month replaced with carry through MakeDay, and NaN if either input is NaN or the result is out of range. `SetDateValueMovesDays` states its effect. |
| JsDate.SetSecondsValue | tests/utils/testHelpers.ts:74 | The time value `setSeconds(sec, ms)` leaves: the seconds of the minute replaced by sec and the milliseconds of the second by ms. `SetSecondsValueTruncates` states the effect of the call with (0, 0). |
| JsDate.MakeDay | tests/utils/testHelpers.ts:99-100 | ECMA-262 MakeDay: the month carries whole years, and the date counts on from the first of the carried month. `MakeDayOfCivil`, `MakeDayCarriesYears` and `OverflowingFieldsCarry` state its properties. |
| JsDate.MakeDate | tests/utils/testHelpers.ts:99-100 | ECMA-262 MakeDate: days times 86,400,000 ms plus the time within the day. |
| JsDate.MakeTime | tests/utils/testHelpers.ts:99 | ECMA-262 MakeTime: hours, minutes, seconds and milliseconds summed in milliseconds, each carrying freely. |
| JsDate.TimeClip | tests/utils/testHelpers.ts:99-100 | ECMA-262 TimeClip: a time beyond ±8.64·10^15 ms becomes NaN. |
| JsDate.MakeFullYear | tests/utils/testHelpers.ts:99 | The Date constructor reads years 0..99 as 1900..1999 and keeps every other year. |
| TestHelpers.InvalidFormatMessage | tests/utils/testHelpers.ts:87 | The thrown message is `Invalid dateTime format: ` followed by the input. |
| TestHelpers.StartMinute | tests/utils/testHelpers.ts:99 | The whole minute `new Date(yyyy, mm - 1, dd, hh, min, 0, 0)` denotes: the month carries into the year, the day counts on from the first of that month, and hours and minutes add as minutes. `ConstructedTime`, `StartMinuteInRange`, `StartMinuteOfValidFields` and `OverflowingFieldsCarry` state its properties. |
| TestHelpers.ConstructedValue | tests/utils/testHelpers.ts:99 | The time value the constructor holds: TimeClip of MakeDate(MakeDay(MakeFullYear(yyyy), mm - 1, dd), MakeTime(hh, min, 0, 0)). `ConstructedTime` proves it is never NaN for parsed fields and equals `StartMinute` minutes. |
| TestHelpers.Render | tests/utils/testHelpers.ts:101-106 | The output template over the five getter values of a valid Date at a calendar point. `RenderPrintable` and `RenderParsesIffPrintable` state when it is the fixed layout and when it parses. |
| TestHelpers.MinuteText | tests/utils/testHelpers.ts:100-106 | The text of a Date holding q whole minutes: the rendered calendar point inside the time-value range, the all-NaN text outside it. `DateTextOfMinute` proves it equals the getters' text. |
| TestHelpers.DateText | tests/utils/testHelpers.ts:101-106 | The template built from `getDate()`, `getMonth() + 1`, `getFullYear()`, `getHours()` and `getMinutes()` of a Date holding a possibly-NaN time value. `DateTextOfMinute` ties it to `MinuteText`. |
| TestHelpers.MissingCredentialsMessage | tests/utils/testHelpers.ts:114 | The message login throws when a credential variable is absent or empty. |
| TestHelpers.VariableOf | tests/utils/testHelpers.ts:7-20 | The environment variable each location getter reads: PICKUP_CITY, PICKUP_COUNTRY, DELIVERY_CITY, DELIVERY_COUNTRY. |
| TestHelpers.DefaultOf | tests/utils/testHelpers.ts:7-20 | The default each location getter falls back to: Košice, Slovakia, Brno, Czechia. |
| JsDate.AddNumber | tests/utils/testHelpers.ts:73-76 | `x + n` on a getter's result: the sum for a number, NaN for NaN (as in `d.getDate() + days` and `d.getMonth() + 1`, also at lines 100 and 102). |
| TimestampText.MatchesPattern | tests/utils/testHelpers.ts:85 | The anchored pattern as character positions: a 16-character string with digits, `.`, `.`, four digits, one `\s` character, digits, `:`, digits. `ParseAcceptsExactlyLayouts` proves it is exactly the set of layouts. |
| TimestampText.IsDigit | tests/utils/testHelpers.ts:85 | `\d` without the u flag: the ASCII digits 0..9. |
| JsDate.Day | tests/utils/testHelpers.ts:73 | ECMA-262 Day: the day number of a time value, by floor division by 86,400,000. `ClockAfterDays` and `FieldsOfMakeDate` state its properties. |
| JsDate.TimeWithinDay | tests/utils/testHelpers.ts:73 | ECMA-262 TimeWithinDay: the non-negative remainder of the time value within its day. |
| JsDate.YearFromTime | tests/utils/testHelpers.ts:77 | ECMA-262 YearFromTime: the proleptic Gregorian year of the time value's day. |
| JsDate.MonthFromTime | tests/utils/testHelpers.ts:76 | ECMA-262 MonthFromTime: the 0-based month of the time value's day. |
| JsDate.DateFromTime | tests/utils/testHelpers.ts:73-75 | ECMA-262 DateFromTime: the day of the month of the time value's day. |
| JsDate.HourFromTime | tests/utils/testHelpers.ts:78 | ECMA-262 HourFromTime: the hour of the day, 0..23, also for negative time values. |
| JsDate.MinFromTime | tests/utils/testHelpers.ts:79 | ECMA-262 MinFromTime: the minute of the hour, 0..59, also for negative time values. |
| JsDate.DateOf | tests/utils/testHelpers.ts:73-75 | `getDate()` on a possibly-NaN time value: DateFromTime, or NaN. |
| JsDate.MonthOf | tests/utils/testHelpers.ts:76 | `getMonth()` on a possibly-NaN time value: MonthFromTime, or NaN. |
| JsDate.FullYearOf | tests/utils/testHelpers.ts:77 | `getFullYear()` on a possibly-NaN time value: YearFromTime, or NaN. |
| JsDate.HoursOf | tests/utils/testHelpers.ts:78 | `getHours()` on a possibly-NaN time value: HourFromTime, or NaN. |
| JsDate.MinutesOf | tests/utils/testHelpers.ts:79 | `getMinutes()` on a possibly-NaN time value: MinFromTime, or NaN. |
| TestHelpers.DaysLater | tests/utils/testHelpers.ts:83-107 | The specification of addDaysToDateString: the format error for a non-matching string, otherwise the text of the constructed minute moved by whole days. The lemmas in `TimestampProperties` state its properties. |
| TestHelpers.FutureStamp | tests/utils/testHelpers.ts:70-81 | The specification of futureDate: the date of now moved by whole days with now's hour and minute, and NaN for the date once it leaves the range. `FutureDateOfCivil` and `FutureThenAddDays` state its properties. |
| Calendar.FromDayNumberSucc | tests/utils/testHelpers.ts:100 | The calendar date of the next or previous day number is the carried next or previous day. |
| Calendar.IsLeapYear | tests/utils/testHelpers.ts:99-106 | The Gregorian leap-year rule behind the 29 February carry: divisible by 4, and not by 100 unless by 400. |
| Calendar.DaysInYear | tests/utils/testHelpers.ts:99-106 | A year has 366 days when it is a leap year and 365 otherwise. |
| Calendar.DaysInMonth | tests/utils/testHelpers.ts:99-106 | The month lengths: 28 or 29 for February, 30 for April, June, September and November, 31 for the rest. |
| Calendar.ValidDate | tests/utils/testHelpers.ts:99-106 | A real calendar date: the month is 1..12 and the day lies within that month's length. |
| Calendar.DaysBeforeYear | tests/utils/testHelpers.ts:99-106 | The days from 1970-01-01 to 1 January of a year, negative before 1970, with the proleptic leap days counted by floor division (ECMA-262 DayFromYear). |
| Calendar.DaysBeforeMonth | tests/utils/testHelpers.ts:99-106 | The days of a year before the first of a month, one more from March on in a leap year; month 13 gives the whole year. |
| Calendar.DayNumber | tests/utils/testHelpers.ts:99-106 | The day number of a civil date, counted from 1970-01-01; `MakeDay` is built on it, and `FromDayNumber`, `FromDayNumberOfDayNumber` and `DayNumberInjective` prove it a bijection on valid dates. |
| Calendar.YearFrom | tests/utils/testHelpers.ts:99-106 | The year scan inside `FromDayNumber`: the result is the year between the bounds whose first day is at most z and whose successor's first day is above z. |
| Calendar.MonthFrom | tests/utils/testHelpers.ts:99-106 | The month scan inside `FromDayNumber`: the result is the month, from the starting one to 12, whose first day is at most the day of the year and whose successor's first day is above it. |
| TimestampText.ParseAcceptsExactlyLayouts | tests/utils/testHelpers.ts:85-88 | The pattern matches exactly the strings `dd.mm.yyyy<ws>hh:mm` made of fitting digit fields and one whitespace character. |
| TimestampText.ParseLayout | tests/utils/testHelpers.ts:85-98 | Parsing the layout of fields gives those fields back, for any whitespace separator. |
| TimestampText.LayoutOfParse | tests/utils/testHelpers.ts:85-98 | Every matching string is the layout of its parsed fields and its own separator. |
| TimestampText.PaddedTwoDigits | tests/utils/testHelpers.ts:101-105 | `String(n).padStart(2, '0')` of 0..99 is exactly two digits. |
| TimestampText.FourDigitYear | tests/utils/testHelpers.ts:103 | `String(y)` of 1000..9999 is exactly four digits. |
| TimestampText.FormatIsLayout | tests/utils/testHelpers.ts:101-106 | The output template over fitting fields with a four-digit year is the fixed layout with a single space. |
| TimestampText.Digits2OfValue | tests/utils/testHelpers.ts:94-98 | `parseInt` of two digits, reprinted with padding, gives the same digits. |
| TimestampText.Digits4OfValue | tests/utils/testHelpers.ts:94-98 | `parseInt` of four digits, reprinted, gives the same digits. |
| TimestampProperties.MalformedInputRejected | tests/utils/testHelpers.ts:85-88 | addDaysToDateString fails exactly when the input is not the layout of any fields. The error is `Invalid dateTime format: ` followed by the input. |
| TimestampProperties.RenderPrintable | tests/utils/testHelpers.ts:101-106 | A valid point with a four-digit year prints zero-padded in the fixed layout, and that text parses back to the same fields. |
| TimestampProperties.RenderParsesIffPrintable | tests/utils/testHelpers.ts:101-106 | The text of a valid calendar point matches the input pattern if and only if its year lies in 1000..9999. |
| TimestampProperties.StampOfMinuteOfStamp | tests/utils/testHelpers.ts:99-105 | Reading a valid calendar point back from its minute count gives that point. |
| TimestampProperties.MinuteTextOfPrintable | tests/utils/testHelpers.ts:101-106 | The text of the minute of a printable point is its fixed layout. |
| TimestampProperties.StartMinuteOfValidFields | tests/utils/testHelpers.ts:99 | For fields naming a real date with a year from 100 on, the constructor lands on exactly that calendar point. |
| TimestampProperties.OverflowingFieldsCarry | tests/utils/testHelpers.ts:94-99 | For every parsed field value, the constructor does the following. The month carries into the year. The day counts on from the first of that month one day at a time, so day 0 is the last day of the month before. Hours and minutes carry into the day. |
| TimestampProperties.AddDaysMovesDate | tests/utils/testHelpers.ts:99-106 | For a real date and a four-digit result year, the output is the input date moved by `days` with carry. Hour and minute are kept and every field is zero-padded. |
| TimestampProperties.ZeroDaysIsIdentity | tests/utils/testHelpers.ts:99-106 | With 0 days, a real date with a four-digit year and a space separator comes back unchanged. |
| TimestampProperties.ReparsedMinute | tests/utils/testHelpers.ts:85-106 | A printed minute count that matches the pattern parses back to its fields. The constructor lands on that minute again. |
| TimestampProperties.AddDaysTwice | tests/utils/testHelpers.ts:83-107 | Adding a days and then b days equals adding a + b days, whenever the first result is well formed. |
| TimestampProperties.FutureIsMinuteText | tests/utils/testHelpers.ts:70-81 | futureDate prints the minute count of now moved by whole days, with the seconds dropped. |
| TimestampProperties.FutureOutOfRangeRejected | tests/utils/testHelpers.ts:73-80 | When the moved date leaves the time-value range, the text starts with NaN and does not match the input pattern. |
| TimestampProperties.FutureDateOfCivil | tests/utils/testHelpers.ts:70-81 | Take a clock reading given as a civil date and a time of day. futureDate(n) prints the date moved by n days with carry, the clock's hour and minute, and no seconds, zero-padded. |
| TimestampProperties.FutureThenAddDays | tests/utils/testHelpers.ts:70-107 | `addDaysToDateString(futureDate(n), k) == futureDate(n + k)`, whenever the first text is well formed and the second date is valid. |
| TimestampProperties.FutureTextReparsed | tests/utils/testHelpers.ts:70-107 | addDaysToDateString reads a well-formed futureDate text back as the minute it printed. |
| TimestampProperties.FutureDateReparses | tests/utils/testHelpers.ts:70-107 | A well-formed futureDate text is a fixed point of addDaysToDateString with 0 days. |
| TimestampProperties.LeapDayExample | tests/utils/testHelpers.ts:99-106 | `28.02.2024 10:00` plus 1 day is `29.02.2024 10:00`. |
| TimestampProperties.CommonYearExample | tests/utils/testHelpers.ts:99-106 | `28.02.2023 10:00` plus 1 day is `01.03.2023 10:00`. |
| TimestampProperties.YearEndExample | tests/utils/testHelpers.ts:99-106 | `31.12.2024 23:59` plus 1 day is `01.01.2025 23:59`. |
| TimestampProperties.BackwardsExample | tests/utils/testHelpers.ts:99-106 | `01.03.2024 10:00` minus 1 day is `29.02.2024 10:00`. |
| TimestampProperties.TabSeparatorExample | tests/utils/testHelpers.ts:85-106 | `28.02.2024<tab>10:00` plus 0 days is `28.02.2024 10:00`: a tab is accepted and a space is printed. |
| TimestampProperties.DayOverflowExample | tests/utils/testHelpers.ts:94-106 | `31.02.2023 10:00` plus 0 days is `03.03.2023 10:00`. |
| TimestampProperties.DayZeroExample | tests/utils/testHelpers.ts:94-106 | `00.03.2024 10:00` plus 0 days is `29.02.2024 10:00`. |
| TimestampProperties.MonthOverflowExample | tests/utils/testHelpers.ts:94-106 | `15.13.2023 10:00` plus 0 days is `15.01.2024 10:00`. |
| TimestampProperties.HourOverflowExample | tests/utils/testHelpers.ts:94-106 | `31.12.2024 24:00` plus 0 days is `01.01.2025 00:00`. |
| TimestampProperties.TwoDigitYearExample | tests/utils/testHelpers.ts:94-106 | `01.01.0050 10:00` plus 0 days is `01.01.1950 10:00`. |
| TimestampProperties.DashedDateRejected | tests/utils/testHelpers.ts:85-88 | `2024-02-28 10:00` is refused with the message quoting it. |
| TimestampProperties.MissingMinutesRejected | tests/utils/testHelpers.ts:85-88 | `28.02.2024 10` is refused with the message quoting it. |
| TimestampProperties.NonDateRejected | tests/utils/testHelpers.ts:85-88 | `not-a-date` is refused with the message quoting it. |
| TimestampProperties.IsoSeparatorRejected | tests/utils/testHelpers.ts:85-88 | `28.02.2024T10:00` is refused with the message quoting it. |

## Left out

- The random generators `generateUniqueEmail`, `generateSlovakPhoneNumber`, `randomName`, `randomCompany` and `randomPassword` (tests/utils/testHelpers.ts:22-31, 49-68) are left out. They depend on `Math.random`, `Date.now` and radix-36 float printing.
- `invalidEmail` and `invalidPhone` (tests/utils/testHelpers.ts:33-39) are left out. They are constant strings with nothing to state.
- `fillAllRequiredFields` (tests/utils/testHelpers.ts:41-47) is left out. It only drives the page object.
- The navigation part of `login` (tests/utils/testHelpers.ts:117-120) is left out. It is browser I/O.
- The page objects under tests/pom and the scenarios under tests/specs are left out. They are calls into Playwright against a live application.
- Reading the real process environment is left out. The environment is a map parameter.
- Reading the real clock is left out. `futureDate` takes the instant as a parameter.
- Time zones and daylight saving are left out. Local time is taken to equal the time value, so the only effect of the zone left in the model is the time-value range bound.
- `days` values that are not integers, or whose sum with the date leaves the range of exactly representable numbers, are left out. `days` is an unbounded integer.
- The difference between JavaScript's UTF-16 strings and Dafny's character sequences is left out. It does not affect these ASCII-only patterns and templates.
- Throwing is modelled as a `Failure` result carrying the message. Stack traces and the `Error` object are left out.
