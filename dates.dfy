/**
 * Calendar dates as Python's `datetime.date` holds them, their order, and
 * the parse `datetime.strptime(text, "%Y-%m-%d").date()` that the intake
 * form applies to a date given as text.
 */
module Dates {
  import opened Wrappers

  datatype Date = Date(year: int, month: int, day: int)

  /** `datetime.MINYEAR` and `datetime.MAXYEAR`. */
  const MinYear: int := 1
  const MaxYear: int := 9999

  predicate IsLeapYear(y: int) {
    y % 4 == 0 && (y % 100 != 0 || y % 400 == 0)
  }

  function DaysInMonth(y: int, m: int): int
    requires 1 <= m <= 12
  {
    if m == 2 then (if IsLeapYear(y) then 29 else 28)
    else if m == 4 || m == 6 || m == 9 || m == 11 then 30
    else 31
  }

  /** The dates a `datetime.date` object can hold. */
  predicate IsValidDate(d: Date) {
    && MinYear <= d.year <= MaxYear
    && 1 <= d.month <= 12
    && 1 <= d.day <= DaysInMonth(d.year, d.month)
  }

  type CalendarDate = d: Date | IsValidDate(d) witness Date(1, 1, 1)

  /** `a > b` on `datetime.date`: the order of the (year, month, day) triples. */
  predicate IsAfter(a: Date, b: Date) {
    || a.year > b.year
    || (a.year == b.year && a.month > b.month)
    || (a.year == b.year && a.month == b.month && a.day > b.day)
  }

  predicate IsAsciiDigit(c: char) {
    '0' <= c <= '9'
  }

  function DigitValue(c: char): int
    requires IsAsciiDigit(c)
  {
    c as int - '0' as int
  }

  function DigitChar(v: int): (c: char)
    requires 0 <= v <= 9
    ensures IsAsciiDigit(c) && DigitValue(c) == v
  {
    ('0' as int + v) as char
  }

  /** The value of strptime's `%Y` field: exactly four digits. */
  function YearValue(t: string): (y: int)
    requires |t| == 4 && IsAsciiDigit(t[0]) && IsAsciiDigit(t[1]) && IsAsciiDigit(t[2]) && IsAsciiDigit(t[3])
    ensures 0 <= y <= MaxYear
  {
    1000 * DigitValue(t[0]) + 100 * DigitValue(t[1]) + 10 * DigitValue(t[2]) + DigitValue(t[3])
  }

  /**
   * strptime's `%m` field, the alternatives `1[0-2]`, `0[1-9]` and `[1-9]`,
   * as the whole text between the two dashes.
   */
  function MonthValue(t: string): (m: Option<int>)
    ensures m.Some? ==> 1 <= m.value <= 12
  {
    if |t| == 2 && t[0] == '1' && '0' <= t[1] <= '2' then Some(10 + DigitValue(t[1]))
    else if |t| == 2 && t[0] == '0' && '1' <= t[1] <= '9' then Some(DigitValue(t[1]))
    else if |t| == 1 && '1' <= t[0] <= '9' then Some(DigitValue(t[0]))
    else None
  }

  /**
   * strptime's `%d` field, the alternatives `3[01]`, `[12]\d`, `0[1-9]`,
   * `[1-9]` and a space followed by `[1-9]`, tried in that order; the first
   * one that matches must also consume the rest of the text, or strptime
   * reports unconverted data.
   */
  function DayValue(t: string): (d: Option<int>)
    ensures d.Some? ==> 1 <= d.value <= 31
  {
    if |t| == 2 && t[0] == '3' && '0' <= t[1] <= '1' then Some(30 + DigitValue(t[1]))
    else if |t| == 2 && '1' <= t[0] <= '2' && IsAsciiDigit(t[1]) then Some(10 * DigitValue(t[0]) + DigitValue(t[1]))
    else if |t| == 2 && t[0] == '0' && '1' <= t[1] <= '9' then Some(DigitValue(t[1]))
    else if |t| == 1 && '1' <= t[0] <= '9' then Some(DigitValue(t[0]))
    else if |t| == 2 && t[0] == ' ' && '1' <= t[1] <= '9' then Some(DigitValue(t[1]))
    else None
  }

  /**
   * Splits what follows `YYYY-` into the month and the day text: the month
   * is the one or two characters before the next dash.
   */
  function SplitMonth(rest: string): Option<(int, string)> {
    if |rest| >= 3 && rest[2] == '-' && MonthValue(rest[..2]).Some? then Some((MonthValue(rest[..2]).value, rest[3..]))
    else if |rest| >= 2 && rest[1] == '-' && MonthValue(rest[..1]).Some? then Some((MonthValue(rest[..1]).value, rest[2..]))
    else None
  }

  /**
   * `datetime.strptime(s, "%Y-%m-%d").date()`: `None` where strptime raises
   * `ValueError` (no match, unconverted data, year 0, a day past the end of
   * the month).
   */
  function ParseDate(s: string): (r: Option<Date>)
    ensures r.Some? ==> IsValidDate(r.value)
  {
    if |s| < 5 || !(IsAsciiDigit(s[0]) && IsAsciiDigit(s[1]) && IsAsciiDigit(s[2]) && IsAsciiDigit(s[3])) || s[4] != '-' then None
    else
      var year := YearValue(s[..4]);
      var split := SplitMonth(s[5..]);
      if split.None? then None
      else
        var month := split.value.0;
        var day := DayValue(split.value.1);
        if day.None? || year < MinYear || day.value > DaysInMonth(year, month) then None
        else Some(Date(year, month, day.value))
  }

  /** The canonical `YYYY-MM-DD` text of a date (`date.isoformat()`). */
  function FormatDate(d: CalendarDate): string {
    Pad4(d.year) + "-" + Pad2(d.month) + "-" + Pad2(d.day)
  }

  function Pad2(v: int): string
    requires 0 <= v <= 99
  {
    [DigitChar(v / 10), DigitChar(v % 10)]
  }

  function Pad4(v: int): string
    requires 0 <= v <= 9999
  {
    [DigitChar(v / 10 / 10 / 10), DigitChar(v / 10 / 10 % 10), DigitChar(v / 10 % 10), DigitChar(v % 10)]
  }

  /** Texts in the canonical shape: four digits, dash, two digits, dash, two digits. */
  predicate IsIsoText(s: string) {
    && |s| == 10 && s[4] == '-' && s[7] == '-'
    && IsAsciiDigit(s[0]) && IsAsciiDigit(s[1]) && IsAsciiDigit(s[2]) && IsAsciiDigit(s[3])
    && IsAsciiDigit(s[5]) && IsAsciiDigit(s[6]) && IsAsciiDigit(s[8]) && IsAsciiDigit(s[9])
  }

  /** Formatting a date and parsing the text back gives the same date. */
  lemma ParseFormatRoundTrip(d: CalendarDate)
    ensures ParseDate(FormatDate(d)) == Some(d)
  {
  }

  lemma DivMod10(x: int, r: int)
    requires 0 <= x && 0 <= r < 10
    ensures (10 * x + r) / 10 == x && (10 * x + r) % 10 == r
  {
  }

  lemma Pad4OfDigits(t: string)
    requires |t| == 4 && IsAsciiDigit(t[0]) && IsAsciiDigit(t[1]) && IsAsciiDigit(t[2]) && IsAsciiDigit(t[3])
    ensures Pad4(YearValue(t)) == t
  {
    var a, b, c, e := DigitValue(t[0]), DigitValue(t[1]), DigitValue(t[2]), DigitValue(t[3]);
    var v := YearValue(t);
    assert v == 10 * (10 * (10 * a + b) + c) + e;
    DivMod10(10 * (10 * a + b) + c, e);
    DivMod10(10 * a + b, c);
    DivMod10(a, b);
    assert v / 10 / 10 / 10 == a;
  }

  lemma Pad2OfDigits(t: string)
    requires |t| == 2 && IsAsciiDigit(t[0]) && IsAsciiDigit(t[1])
    ensures Pad2(10 * DigitValue(t[0]) + DigitValue(t[1])) == t
  {
    DivMod10(DigitValue(t[0]), DigitValue(t[1]));
  }

  /** Parsing a text of the canonical shape and formatting the date gives the text back. */
  lemma FormatParseRoundTrip(s: string)
    requires IsIsoText(s) && ParseDate(s).Some?
    ensures FormatDate(ParseDate(s).value) == s
  {
    var d := ParseDate(s).value;
    assert s[5..][..2] == s[5..7];
    assert s[5..][3..] == s[8..];
    assert d.year == YearValue(s[..4]);
    assert d.month == 10 * DigitValue(s[5]) + DigitValue(s[6]);
    assert d.day == 10 * DigitValue(s[8]) + DigitValue(s[9]);
    Pad4OfDigits(s[..4]);
    Pad2OfDigits(s[5..7]);
    Pad2OfDigits(s[8..]);
    assert s == s[..4] + "-" + s[5..7] + "-" + s[8..];
  }

  /**
   * strptime's leniency: one-digit months and days and a day written as a
   * space and a digit are accepted as well.
   */
  lemma ParseAcceptsShortFields()
    ensures ParseDate("2024-1-5") == Some(Date(2024, 1, 5))
    ensures ParseDate("2024-01- 5") == Some(Date(2024, 1, 5))
    ensures ParseDate("2024-01-15") == Some(Date(2024, 1, 15))
  {
  }

  /** strptime rejects year 0, impossible days and trailing characters. */
  lemma ParseRejectsOutOfRange()
    ensures ParseDate("0000-01-01") == None
    ensures ParseDate("2023-02-29") == None
    ensures ParseDate("2024-02-29") == Some(Date(2024, 2, 29))
    ensures ParseDate("2024-01-155") == None
    ensures ParseDate("2024-13-01") == None
  {
  }
}
