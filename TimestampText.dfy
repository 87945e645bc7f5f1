/** The text side of the timestamp helpers: the pattern that
    /^(\d{2})\.(\d{2})\.(\d{4})\s(\d{2}):(\d{2})$/ accepts, parseInt of the
    captured digit groups, and the output format built from String(n) and
    padStart(2, '0'). */
module TimestampText {
  import opened Wrappers

  /** The five captured groups, as parseInt reads them: day, month, year, hour, minute. */
  datatype Fields = Fields(day: int, month: int, year: int, hour: int, minute: int)

  /** \d without the u flag: the ASCII digits only. */
  predicate IsDigit(c: char) {
    '0' <= c <= '9'
  }

  /** \s: the ECMAScript WhiteSpace and LineTerminator code points. None of them is a digit or
      one of the pattern's separators, so the groups are delimited unambiguously. */
  predicate IsWhitespace(c: char)
    ensures IsWhitespace(c) ==> !IsDigit(c) && c != '.' && c != ':'
  {
    c == '\t' || c == '\n' || c == '\U{000B}' || c == '\U{000C}' || c == '\r' || c == ' '
    || c == '\U{00A0}' || c == '\U{1680}' || ('\U{2000}' <= c <= '\U{200A}')
    || c == '\U{2028}' || c == '\U{2029}' || c == '\U{202F}' || c == '\U{205F}'
    || c == '\U{3000}' || c == '\U{FEFF}'
  }

  function DigitValue(c: char): int
    requires IsDigit(c)
  {
    c as int - '0' as int
  }

  function DigitChar(n: int): char
    requires 0 <= n < 10
  {
    (n + '0' as int) as char
  }

  /** The pattern is anchored at both ends and every part has a fixed width,
      so a match is a 16-character string with these characters in these places. */
  predicate MatchesPattern(s: string) {
    |s| == 16
    && IsDigit(s[0]) && IsDigit(s[1]) && s[2] == '.'
    && IsDigit(s[3]) && IsDigit(s[4]) && s[5] == '.'
    && IsDigit(s[6]) && IsDigit(s[7]) && IsDigit(s[8]) && IsDigit(s[9])
    && IsWhitespace(s[10])
    && IsDigit(s[11]) && IsDigit(s[12]) && s[13] == ':'
    && IsDigit(s[14]) && IsDigit(s[15])
  }

  predicate AllDigits(ds: string) {
    forall i :: 0 <= i < |ds| ==> IsDigit(ds[i])
  }

  function Pow10(k: nat): nat {
    if k == 0 then 1 else 10 * Pow10(k - 1)
  }

  /** parseInt(ds, 10) of a string of decimal digits: below 10^|ds|. */
  function DecimalValue(ds: string): (n: int)
    requires AllDigits(ds)
    ensures 0 <= n < Pow10(|ds|)
  {
    if ds == [] then 0 else 10 * DecimalValue(ds[..|ds| - 1]) + DigitValue(ds[|ds| - 1])
  }

  /** String.prototype.match with the pattern, followed by parseInt of each group;
      None is the failed match. */
  function Parse(s: string): (r: Option<Fields>)
    ensures r.Some? <==> MatchesPattern(s)
    ensures r.Some? ==> FieldsFit(r.value)
  {
    if MatchesPattern(s) then
      Some(Fields(DecimalValue(s[0..2]), DecimalValue(s[3..5]), DecimalValue(s[6..10]),
                  DecimalValue(s[11..13]), DecimalValue(s[14..16])))
    else None
  }

  /** String(n) for a non-negative integer: its decimal digits without leading zeros,
      which parseInt reads back as n. */
  function NaturalString(n: nat): (r: string)
    ensures 1 <= |r| && AllDigits(r) && DecimalValue(r) == n
    ensures r[0] == '0' ==> n == 0
  {
    if n < 10 then [DigitChar(n)]
    else
      var r := NaturalString(n / 10) + [DigitChar(n % 10)];
      assert r[..|r| - 1] == NaturalString(n / 10);
      r
  }

  /** String(x) for an integer-valued number, NaN included. */
  function NumberString(x: Option<int>): (r: string)
    ensures x.None? ==> r == "NaN"
    ensures x.Some? && 0 <= x.value ==> AllDigits(r) && DecimalValue(r) == x.value
    ensures x.Some? && x.value < 0 ==> 2 <= |r| && r[0] == '-'
  {
    if x.None? then "NaN"
    else if x.value < 0 then "-" + NaturalString(-x.value)
    else NaturalString(x.value)
  }

  /** s.padStart(2, '0'): s itself when it has two characters or more, otherwise s with
      zeros in front up to two characters. */
  function PadStart2(s: string): (r: string)
    ensures |r| == if |s| < 2 then 2 else |s|
    ensures r[|r| - |s|..] == s
    ensures forall i :: 0 <= i < |r| - |s| ==> r[i] == '0'
  {
    if |s| == 0 then "00" else if |s| == 1 then "0" + s else s
  }

  /** The template `${dd}.${mm}.${yyyy} ${hh}:${min}` over the five Date getters;
      every part but the year is padded to two characters. */
  function FormatParts(dd: Option<int>, mm: Option<int>, yyyy: Option<int>, hh: Option<int>, mi: Option<int>): string {
    PadStart2(NumberString(dd)) + "." + PadStart2(NumberString(mm)) + "." + NumberString(yyyy)
    + " " + PadStart2(NumberString(hh)) + ":" + PadStart2(NumberString(mi))
  }

  // ---- The fixed-width layout dd.mm.yyyy<ws>hh:mm, as an independent description ----

  predicate FieldsFit(f: Fields) {
    0 <= f.day < 100 && 0 <= f.month < 100 && 0 <= f.year < 10000
    && 0 <= f.hour < 100 && 0 <= f.minute < 100
  }

  function Digits2(n: int): string
    requires 0 <= n < 100
  {
    [DigitChar(n / 10), DigitChar(n % 10)]
  }

  function Digits4(n: int): string
    requires 0 <= n < 10000
  {
    [DigitChar(n / 1000), DigitChar(n / 100 % 10), DigitChar(n / 10 % 10), DigitChar(n % 10)]
  }

  /** The fields written zero-padded to their widths, with separator w between date and time. */
  function Layout(f: Fields, w: char): string
    requires FieldsFit(f)
  {
    Digits2(f.day) + "." + Digits2(f.month) + "." + Digits4(f.year)
    + [w] + Digits2(f.hour) + ":" + Digits2(f.minute)
  }

  lemma DecimalValueOfTwo(ds: string)
    requires |ds| == 2 && AllDigits(ds)
    ensures DecimalValue(ds) == 10 * DigitValue(ds[0]) + DigitValue(ds[1])
  {
    assert DecimalValue(ds[..1][..0]) == 0;
    assert DecimalValue(ds[..1]) == DigitValue(ds[0]);
  }

  lemma DecimalValueOfFour(ds: string)
    requires |ds| == 4 && AllDigits(ds)
    ensures DecimalValue(ds) == 1000 * DigitValue(ds[0]) + 100 * DigitValue(ds[1])
                                + 10 * DigitValue(ds[2]) + DigitValue(ds[3])
  {
    DecimalValueOfTwo(ds[..2]);
    assert ds[..3][..2] == ds[..2];
    assert DecimalValue(ds[..3]) == 10 * DecimalValue(ds[..2]) + DigitValue(ds[2]);
  }

  lemma DecimalValue2(n: int)
    requires 0 <= n < 100
    ensures AllDigits(Digits2(n)) && DecimalValue(Digits2(n)) == n
  {
    DecimalValueOfTwo(Digits2(n));
  }

  lemma DecimalValue4(n: int)
    requires 0 <= n < 10000
    ensures AllDigits(Digits4(n)) && DecimalValue(Digits4(n)) == n
  {
    var ds := Digits4(n);
    DecimalValueOfFour(ds);
    assert DigitValue(ds[0]) == n / 1000 && DigitValue(ds[1]) == n / 100 % 10;
    assert DigitValue(ds[2]) == n / 10 % 10 && DigitValue(ds[3]) == n % 10;
    assert n / 10 / 10 == n / 100 && n / 100 / 10 == n / 1000;
    assert n == 10 * (n / 10) + n % 10;
    assert n / 10 == 10 * (n / 100) + n / 10 % 10;
    assert n / 100 == 10 * (n / 1000) + n / 100 % 10;
  }

  lemma Digits2OfValue(ds: string)
    requires |ds| == 2 && AllDigits(ds)
    ensures DecimalValue(ds) < 100 && Digits2(DecimalValue(ds)) == ds
  {
    DecimalValueOfTwo(ds);
    var n := DecimalValue(ds);
    assert n / 10 == DigitValue(ds[0]) && n % 10 == DigitValue(ds[1]);
  }

  lemma Digits4OfValue(ds: string)
    requires |ds| == 4 && AllDigits(ds)
    ensures DecimalValue(ds) < 10000 && Digits4(DecimalValue(ds)) == ds
  {
    DecimalValueOfFour(ds);
    var n := DecimalValue(ds);
    var a, b, c, d := DigitValue(ds[0]), DigitValue(ds[1]), DigitValue(ds[2]), DigitValue(ds[3]);
    FourDigitPlaces(a, b, c, d);
    assert DigitChar(a) == ds[0] && DigitChar(b) == ds[1] && DigitChar(c) == ds[2] && DigitChar(d) == ds[3];
    var r := Digits4(n);
    assert r[0] == ds[0] && r[1] == ds[1] && r[2] == ds[2] && r[3] == ds[3];
  }

  /** The decimal places of a four-digit number give back its digits. */
  lemma FourDigitPlaces(a: int, b: int, c: int, d: int)
    requires 0 <= a < 10 && 0 <= b < 10 && 0 <= c < 10 && 0 <= d < 10
    ensures var n := 1000 * a + 100 * b + 10 * c + d;
      n < 10000 && n / 1000 == a && n / 100 % 10 == b && n / 10 % 10 == c && n % 10 == d
  {
    var n := 1000 * a + 100 * b + 10 * c + d;
    assert n == 10 * (100 * a + 10 * b + c) + d;
    assert n / 10 == 100 * a + 10 * b + c && n % 10 == d;
    assert n / 10 == 10 * (10 * a + b) + c;
    assert n / 100 == 10 * a + b by {
      assert n == 100 * (10 * a + b) + (10 * c + d);
    }
    assert n / 1000 == a by {
      assert n == 1000 * a + (100 * b + 10 * c + d);
    }
  }

  /** Parsing the layout of fitting fields, with any whitespace separator, gives those fields back. */
  lemma ParseLayout(f: Fields, w: char)
    requires FieldsFit(f) && IsWhitespace(w)
    ensures Parse(Layout(f, w)) == Some(f)
  {
    var s := Layout(f, w);
    DecimalValue2(f.day);
    DecimalValue2(f.month);
    DecimalValue4(f.year);
    DecimalValue2(f.hour);
    DecimalValue2(f.minute);
    assert s[0..2] == Digits2(f.day);
    assert s[3..5] == Digits2(f.month);
    assert s[6..10] == Digits4(f.year);
    assert s[11..13] == Digits2(f.hour);
    assert s[14..16] == Digits2(f.minute);
  }

  /** Every string the pattern accepts is the layout of its parsed fields. */
  lemma LayoutOfParse(s: string)
    requires Parse(s).Some?
    ensures FieldsFit(Parse(s).value)
    ensures s == Layout(Parse(s).value, s[10])
  {
    Digits2OfValue(s[0..2]);
    Digits2OfValue(s[3..5]);
    Digits4OfValue(s[6..10]);
    Digits2OfValue(s[11..13]);
    Digits2OfValue(s[14..16]);
    assert s == s[0..2] + "." + s[3..5] + "." + s[6..10] + [s[10]] + s[11..13] + ":" + s[14..16];
  }

  /** The pattern accepts exactly the zero-padded layouts dd.mm.yyyy<ws>hh:mm. */
  lemma ParseAcceptsExactlyLayouts(s: string)
    ensures Parse(s).Some? <==> exists f: Fields, w: char :: FieldsFit(f) && IsWhitespace(w) && s == Layout(f, w)
  {
    if Parse(s).Some? {
      LayoutOfParse(s);
      assert FieldsFit(Parse(s).value) && IsWhitespace(s[10]) && s == Layout(Parse(s).value, s[10]);
    }
    if exists f: Fields, w: char :: FieldsFit(f) && IsWhitespace(w) && s == Layout(f, w) {
      var f: Fields, w: char :| FieldsFit(f) && IsWhitespace(w) && s == Layout(f, w);
      ParseLayout(f, w);
    }
  }

  /** String(n).padStart(2, '0') is the two-digit form of n below 100. */
  lemma PaddedTwoDigits(n: int)
    requires 0 <= n < 100
    ensures PadStart2(NumberString(Some(n))) == Digits2(n)
  {
    if n >= 10 {
      assert NaturalString(n) == NaturalString(n / 10) + [DigitChar(n % 10)];
    }
  }

  /** String(y) of a four-digit year is its four digits. */
  lemma FourDigitYear(n: int)
    requires 1000 <= n < 10000
    ensures NumberString(Some(n)) == Digits4(n)
  {
    assert NaturalString(n / 1000) == [DigitChar(n / 1000)];
    assert NaturalString(n / 100) == NaturalString(n / 1000) + [DigitChar(n / 100 % 10)];
    assert NaturalString(n / 10) == NaturalString(n / 100) + [DigitChar(n / 10 % 10)];
    assert NaturalString(n) == NaturalString(n / 10) + [DigitChar(n % 10)];
    assert n / 10 / 10 == n / 100 && n / 100 / 10 == n / 1000;
  }

  /** Formatting in-range fields yields their layout with a single space. */
  lemma FormatIsLayout(f: Fields)
    requires FieldsFit(f) && 1000 <= f.year
    ensures FormatParts(Some(f.day), Some(f.month), Some(f.year), Some(f.hour), Some(f.minute))
            == Layout(f, ' ')
  {
    PaddedTwoDigits(f.day);
    PaddedTwoDigits(f.month);
    FourDigitYear(f.year);
    PaddedTwoDigits(f.hour);
    PaddedTwoDigits(f.minute);
  }
}
