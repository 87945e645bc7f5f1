/** The helpers of the end-to-end suite that compute something: the timestamp
    helpers futureDate and addDaysToDateString, the location getters with their
    environment overrides, and the credential check of login. The environment
    and the clock are parameters here. */
module TestHelpers {
  import opened Wrappers
  import opened Calendar
  import opened JsDate
  import opened TimestampText

  // ---------------------------------------------------------------------------
  // Calendar points at minute resolution, the meaning of a timestamp string
  // ---------------------------------------------------------------------------

  const MinutesPerDay: int := 1440
  /** The time-value limit of JsDate, in whole minutes. */
  const MaxMinutes: int := 144_000_000_000

  /** A local calendar point with zero seconds. */
  datatype Stamp = Stamp(date: CivilDate, hour: int, minute: int)

  predicate ValidStamp(st: Stamp) {
    ValidDate(st.date) && 0 <= st.hour < 24 && 0 <= st.minute < 60
  }

  /** Minutes since the epoch. */
  function MinuteOfStamp(st: Stamp): int
    requires 1 <= st.date.month <= 12
  {
    DayNumber(st.date) * MinutesPerDay + st.hour * 60 + st.minute
  }

  /** The calendar point of a minute count: the inverse of MinuteOfStamp. */
  function StampOfMinute(q: int): (st: Stamp)
    ensures ValidStamp(st)
    ensures MinuteOfStamp(st) == q
  {
    assert q % MinutesPerDay == q % MinutesPerDay / 60 * 60 + q % 60 by {
      assert q == q / MinutesPerDay * 24 * 60 + q % MinutesPerDay;
    }
    Stamp(FromDayNumber(q / MinutesPerDay), q % MinutesPerDay / 60, q % 60)
  }

  /** `${dd}.${mm}.${yyyy} ${hh}:${min}` of a valid Date holding this calendar point. */
  function Render(st: Stamp): string {
    FormatParts(Some(st.date.day), Some(st.date.month), Some(st.date.year), Some(st.hour), Some(st.minute))
  }

  /** The same template when every getter returns NaN. */
  const InvalidDateText: string := FormatParts(None, None, None, None, None)

  /** The text of the Date whose time value is q minutes, or of an Invalid Date beyond the time-value range. */
  function MinuteText(q: int): string {
    if -MaxMinutes <= q <= MaxMinutes then Render(StampOfMinute(q)) else InvalidDateText
  }

  function InvalidFormatMessage(dateTime: string): string {
    "Invalid dateTime format: " + dateTime
  }

  /** The minute denoted by new Date(year, month - 1, day, hour, minute, 0, 0): every field
      that overflows carries into the next larger unit, and years 0..99 mean 1900..1999. */
  function StartMinute(f: Fields): int {
    MakeDay(MakeFullYear(f.year), f.month - 1, f.day) * MinutesPerDay + f.hour * 60 + f.minute
  }

  /** The minute that lies the given number of whole days after minute q. */
  function DaysAfter(q: int, days: int): int {
    q + days * MinutesPerDay
  }

  /** What addDaysToDateString computes: the parsed calendar point moved by whole days, or the format error. */
  function DaysLater(dateTime: string, days: int): Result<string, string> {
    match Parse(dateTime)
    case None => Failure(InvalidFormatMessage(dateTime))
    case Some(f) => Success(MinuteText(DaysAfter(StartMinute(f), days)))
  }

  /** What futureDate computes at the instant `now` (a time value): the date of now moved by
      daysAhead days, and the hour and minute of now; an out-of-range date reads NaN. */
  function FutureStamp(now: int, daysAhead: int): string {
    var later := DaysAfterTime(now, daysAhead);
    if InTimeRange(later) then
      Render(Stamp(FromDayNumber(Day(later)), HourFromTime(now), MinFromTime(now)))
    else
      FormatParts(None, None, None, Some(HourFromTime(now)), Some(MinFromTime(now)))
  }

  /** Every string the pattern accepts denotes a minute well inside the time-value range:
      the constructed year lies in 99..10007, within 5e9 minutes of the epoch. */
  lemma StartMinuteInRange(f: Fields)
    requires FieldsFit(f)
    ensures -5_000_000_000 <= StartMinute(f) <= 5_000_000_000
    ensures -MaxMinutes <= StartMinute(f) <= MaxMinutes
  {
    var y := MakeFullYear(f.year) + (f.month - 1) / 12;
    assert 99 <= y <= 10007;
  }

  // ---------------------------------------------------------------------------
  // The two helpers, step by step on a Date object as the source does
  // ---------------------------------------------------------------------------

  /** The getters of a Date holding q whole minutes read the calendar point of q. */
  lemma GettersOfMinute(q: int)
    ensures var t, st := q * MsPerMinute, StampOfMinute(q);
      && DateFromTime(t) == st.date.day && MonthFromTime(t) + 1 == st.date.month
      && YearFromTime(t) == st.date.year && HourFromTime(t) == st.hour && MinFromTime(t) == st.minute
  {
    assert q * MsPerMinute / MsPerMinute == q;
    TimeOfMinutes(q * MsPerMinute);
  }

  /** The text addDaysToDateString builds from the getters of a Date holding tv. */
  function DateText(tv: Option<int>): string {
    FormatParts(DateOf(tv), AddNumber(MonthOf(tv), 1), FullYearOf(tv), HoursOf(tv), MinutesOf(tv))
  }

  /** The text of a Date holding q whole minutes, valid or not. */
  lemma DateTextOfMinute(q: int, t: int)
    requires t == q * MsPerMinute
    ensures DateText(TimeClip(t)) == MinuteText(q)
  {
    if -MaxMinutes <= q <= MaxMinutes {
      GettersOfMinute(q);
      var tv, st := TimeClip(t), StampOfMinute(q);
      assert tv == Some(t);
      assert DateOf(tv) == Some(st.date.day) && AddNumber(MonthOf(tv), 1) == Some(st.date.month);
      assert FullYearOf(tv) == Some(st.date.year) && HoursOf(tv) == Some(st.hour) && MinutesOf(tv) == Some(st.minute);
    }
  }

  /** new Date(year, month - 1, day, hour, minute, 0, 0) of parsed fields holds StartMinute whole minutes. */
  lemma ConstructedTime(f: Fields)
    requires FieldsFit(f)
    ensures ConstructedValue(f) == Some(StartMinute(f) * MsPerMinute)
  {
    StartMinuteInRange(f);
  }

  /** The time value new Date(year, month - 1, day, hour, minute, 0, 0) holds for parsed fields. */
  function ConstructedValue(f: Fields): Option<int> {
    TimeClip(MakeDate(MakeDay(MakeFullYear(f.year), f.month - 1, f.day), MakeTime(f.hour, f.minute, 0, 0)))
  }

  /** The steps of addDaysToDateString on parsed fields: construct, setDate(getDate() + days),
      read the getters; they produce the text of the start minute moved by whole days. */
  lemma AddDaysSteps(f: Fields, days: int)
    requires FieldsFit(f)
    ensures DateText(SetDateValue(ConstructedValue(f), AddNumber(DateOf(ConstructedValue(f)), days)))
            == MinuteText(DaysAfter(StartMinute(f), days))
  {
    var q0 := StartMinute(f);
    var t0 := q0 * MsPerMinute;
    ConstructedTime(f);
    SetDateValueMovesDays(t0, days);
    var t1 := DaysAfterTime(t0, days);
    var tv := SetDateValue(ConstructedValue(f), AddNumber(DateOf(ConstructedValue(f)), days));
    assert tv == TimeClip(t1);
    var q := DaysAfter(q0, days);
    DateTextOfMinute(q, t1);
  }

  /** The steps of futureDate: copy now, setDate(getDate() + daysAhead), setSeconds(0, 0),
      read the date getters of the copy and the clock getters of now. */
  lemma FutureDateSteps(clock: int, daysAhead: int)
    requires InTimeRange(clock)
    ensures var tv := SetSecondsValue(SetDateValue(Some(clock), AddNumber(DateOf(Some(clock)), daysAhead)), 0, 0);
      FormatParts(DateOf(tv), AddNumber(MonthOf(tv), 1), FullYearOf(tv), HoursOf(Some(clock)), MinutesOf(Some(clock)))
      == FutureStamp(clock, daysAhead)
  {
    SetDateValueMovesDays(clock, daysAhead);
    var t1 := DaysAfterTime(clock, daysAhead);
    if InTimeRange(t1) {
      SetSecondsValueTruncates(t1);
    }
  }

  /** addDaysToDateString(dateTime, days). */
  method AddDaysToDateString(dateTime: string, days: int) returns (r: Result<string, string>)
    ensures r == DaysLater(dateTime, days)
  {
    var parsed := Parse(dateTime);
    if parsed.None? {
      return Failure(InvalidFormatMessage(dateTime));
    }
    var f := parsed.value;
    var d := new Date.FromFields(f.year, f.month - 1, f.day, f.hour, f.minute, 0, 0);
    d.SetDate(AddNumber(d.GetDate(), days));
    r := Success(FormatParts(d.GetDate(), AddNumber(d.GetMonth(), 1), d.GetFullYear(), d.GetHours(), d.GetMinutes()));
    assert r == Success(DateText(d.time));
    LayoutOfParse(dateTime);
    AddDaysSteps(f, days);
  }

  /** futureDate(daysAhead), with the clock reading `clock` (a valid time value). */
  method FutureDate(clock: int, daysAhead: int) returns (r: string)
    requires InTimeRange(clock)
    ensures r == FutureStamp(clock, daysAhead)
  {
    var now := new Date.Now(clock);
    var d := new Date.Copy(now);
    d.SetDate(AddNumber(d.GetDate(), daysAhead));
    d.SetSeconds(0, 0);
    r := FormatParts(d.GetDate(), AddNumber(d.GetMonth(), 1), d.GetFullYear(), now.GetHours(), now.GetMinutes());
    FutureDateSteps(clock, daysAhead);
  }

  // ---------------------------------------------------------------------------
  // Environment defaults and the credential check of login
  // ---------------------------------------------------------------------------

  /** The process environment: variable names to values. */
  type Env = map<string, string>

  /** process.env[name] || fallback: an absent or empty variable gives the fallback. */
  function EnvOr(env: Env, name: string, fallback: string): string {
    if name in env && env[name] != "" then env[name] else fallback
  }

  /** The four location settings of the request form, each with its own override variable. */
  datatype Location = PickupCity | PickupCountry | DeliveryCity | DeliveryCountry

  function VariableOf(l: Location): string {
    match l
    case PickupCity => "PICKUP_CITY"
    case PickupCountry => "PICKUP_COUNTRY"
    case DeliveryCity => "DELIVERY_CITY"
    case DeliveryCountry => "DELIVERY_COUNTRY"
  }

  function DefaultOf(l: Location): string {
    match l
    case PickupCity => "Ko\U{0161}ice"
    case PickupCountry => "Slovakia"
    case DeliveryCity => "Brno"
    case DeliveryCountry => "Czechia"
  }

  /** pickupCity(), pickupCountry(), deliveryCity() and deliveryCountry(): the override when it
      is set and non-empty, the built-in default otherwise; never the empty string. */
  function LocationSetting(env: Env, l: Location): (r: string)
    ensures r != ""
    ensures VariableOf(l) in env && env[VariableOf(l)] != "" ==> r == env[VariableOf(l)]
    ensures !(VariableOf(l) in env && env[VariableOf(l)] != "") ==> r == DefaultOf(l)
  {
    EnvOr(env, VariableOf(l), DefaultOf(l))
  }

  datatype Credentials = Credentials(email: string, password: string)

  const MissingCredentialsMessage: string := "Missing LOGIN_EMAIL or LOGIN_PASSWORD env variables"

  /** The check login makes before it navigates: both variables must be set and non-empty. */
  function LoginCredentials(env: Env): (r: Result<Credentials, string>)
    ensures r.Success? <==> ("LOGIN_EMAIL" in env && env["LOGIN_EMAIL"] != ""
                             && "LOGIN_PASSWORD" in env && env["LOGIN_PASSWORD"] != "")
    ensures r.Success? ==> r.value == Credentials(env["LOGIN_EMAIL"], env["LOGIN_PASSWORD"])
    ensures r.Failure? ==> r.error == MissingCredentialsMessage
  {
    var email := EnvOr(env, "LOGIN_EMAIL", "");
    var password := EnvOr(env, "LOGIN_PASSWORD", "");
    if email == "" || password == "" then Failure(MissingCredentialsMessage)
    else Success(Credentials(email, password))
  }
}
