/**
 * Calendar dates as the pipeline reads and writes them:
 * `datetime.strptime(text, "%Y-%m-%d").date()` and `strftime("%Y-%m-%d")`.
 */
module Dates {
  import opened Wrappers

  datatype Date = Date(year: int, month: int, day: int)

  predicate IsLeapYear(y: int) {
    y % 4 == 0 && (y % 100 != 0 || y % 400 == 0)
  }

  function DaysInMonth(y: int, m: int): int
    requires 1 <= m <= 12
  {
    if m == 2 then (if IsLeapYear(y) then 29 else 28)
    else if m == 4 || m == 6 || m == 9 || m == 11 then 30
    else 31
  }

  /** The dates a Python `datetime.date` can hold. */
  predicate IsValid(d: Date) {
    1 <= d.year <= 9999 && 1 <= d.month <= 12 && 1 <= d.day <= DaysInMonth(d.year, d.month)
  }

  /** What the clock (`datetime.now()`) can return. */
  type CalendarDate = d: Date | IsValid(d) witness Date(1970, 1, 1)

  /** `a <= b` on `datetime.date`: by calendar day, ignoring any time of day. */
  predicate AtOrBefore(a: Date, b: Date) {
    a.year < b.year || (a.year == b.year && (a.month < b.month || (a.month == b.month && a.day <= b.day)))
  }

  /** `a < b` on `datetime.date`. */
  predicate Before(a: Date, b: Date) {
    !AtOrBefore(b, a)
  }

  predicate IsDigit(c: char) { '0' <= c <= '9' }

  predicate IsNonZeroDigit(c: char) { '1' <= c <= '9' }

  function DigitValue(c: char): int
    requires IsDigit(c)
  {
    c as int - '0' as int
  }

  function DigitChar(n: int): char
    requires 0 <= n <= 9
  {
    ('0' as int + n) as char
  }

  /** The value of one or two decimal digits. */
  function SmallValue(s: string): int
    requires 1 <= |s| <= 2 && forall i :: 0 <= i < |s| ==> IsDigit(s[i])
  {
    if |s| == 1 then DigitValue(s[0]) else 10 * DigitValue(s[0]) + DigitValue(s[1])
  }

  /**
   * How many characters `%m` (`1[0-2]|0[1-9]|[1-9]`) takes at the start of `s`,
   * given that the literal `-` of the format has to follow; 0 when nothing matches.
   */
  function MonthWidth(s: string): (w: nat)
    ensures w <= 2
    ensures w > 0 ==> w < |s| && s[w] == '-' && forall i :: 0 <= i < w ==> IsDigit(s[i])
  {
    if |s| >= 3 && ((s[0] == '1' && '0' <= s[1] <= '2') || (s[0] == '0' && IsNonZeroDigit(s[1]))) && s[2] == '-' then 2
    else if |s| >= 2 && IsNonZeroDigit(s[0]) && s[1] == '-' then 1
    else 0
  }

  /**
   * How many characters `%d` takes at the start of `s`: the first alternative of
   * `3[01]|[12]\d|0[1-9]|[1-9]| [1-9]` that matches; 0 when none does.
   */
  function DayWidth(s: string): (w: nat)
    ensures w <= 2 && w <= |s|
  {
    if |s| >= 2 && ((s[0] == '3' && (s[1] == '0' || s[1] == '1')) || ((s[0] == '1' || s[0] == '2') && IsDigit(s[1])) || (s[0] == '0' && IsNonZeroDigit(s[1]))) then 2
    else if |s| >= 1 && IsNonZeroDigit(s[0]) then 1
    else if |s| >= 2 && s[0] == ' ' && IsNonZeroDigit(s[1]) then 2
    else 0
  }

  /** The day number of a text that `%d` matched whole (`int(" 5")` is 5). */
  function DayValue(s: string): int
    requires DayWidth(s) == |s| > 0
  {
    if s[0] == ' ' then DigitValue(s[1]) else SmallValue(s)
  }

  /**
   * `datetime.strptime(s, "%Y-%m-%d").date()`, or `None` where it raises `ValueError`:
   * four year digits, `-`, the month, `-`, the day, no text left over, and a date
   * that exists (year 0 and February 30 are refused).
   */
  function ParseDate(s: string): (r: Option<Date>)
    ensures r.Some? ==> IsValid(r.value)
  {
    if |s| < 5 || !(IsDigit(s[0]) && IsDigit(s[1]) && IsDigit(s[2]) && IsDigit(s[3])) || s[4] != '-' then None
    else
      var rest := s[5..];
      var mw := MonthWidth(rest);
      if mw == 0 then None
      else
        var dayText := rest[mw + 1..];
        if DayWidth(dayText) == 0 || DayWidth(dayText) != |dayText| then None
        else
          var year := 1000 * DigitValue(s[0]) + 100 * DigitValue(s[1]) + 10 * DigitValue(s[2]) + DigitValue(s[3]);
          var date := Date(year, SmallValue(rest[..mw]), DayValue(dayText));
          if IsValid(date) then Some(date) else None
  }

  function Pad2(n: int): (s: string)
    requires 0 <= n <= 99
  {
    [DigitChar(n / 10), DigitChar(n % 10)]
  }

  function Pad4(n: int): (s: string)
    requires 0 <= n <= 9999
  {
    Pad2(n / 100) + Pad2(n % 100)
  }

  /** `d.strftime("%Y-%m-%d")`: the RFC 3339 full-date form, ten characters long. */
  function FormatDate(d: CalendarDate): (s: string)
    ensures |s| == 10 && s[4] == '-' && s[7] == '-'
  {
    Pad4(d.year) + "-" + Pad2(d.month) + "-" + Pad2(d.day)
  }

  /** The RFC 3339 section 5.6 `full-date` shape: `DDDD-DD-DD` with ASCII digits. */
  predicate IsFullDateShape(s: string) {
    |s| == 10 && s[4] == '-' && s[7] == '-'
    && IsDigit(s[0]) && IsDigit(s[1]) && IsDigit(s[2]) && IsDigit(s[3])
    && IsDigit(s[5]) && IsDigit(s[6]) && IsDigit(s[8]) && IsDigit(s[9])
  }

  lemma Pad2Digits(n: int)
    requires 0 <= n <= 99
    ensures var s := Pad2(n); IsDigit(s[0]) && IsDigit(s[1]) && 10 * DigitValue(s[0]) + DigitValue(s[1]) == n
  {
  }

  lemma Pad2OfDigits(a: char, b: char)
    requires IsDigit(a) && IsDigit(b)
    ensures Pad2(10 * DigitValue(a) + DigitValue(b)) == [a, b]
  {
  }

  lemma Pad4Value(n: int)
    requires 0 <= n <= 9999
    ensures var s := Pad4(n);
      IsDigit(s[0]) && IsDigit(s[1]) && IsDigit(s[2]) && IsDigit(s[3])
      && 1000 * DigitValue(s[0]) + 100 * DigitValue(s[1]) + 10 * DigitValue(s[2]) + DigitValue(s[3]) == n
  {
    Pad2Digits(n / 100);
    Pad2Digits(n % 100);
    var s := Pad4(n);
    assert s[..2] == Pad2(n / 100) && s[2..] == Pad2(n % 100);
    assert 100 * (n / 100) + n % 100 == n;
  }

  /** The date the committer writes is read back as the same date by the scheduler. */
  lemma ParseFormatted(d: CalendarDate)
    ensures ParseDate(FormatDate(d)) == Some(d)
  {
    var s := FormatDate(d);
    Pad4Value(d.year);
    Pad2Digits(d.month);
    Pad2Digits(d.day);
    assert s[..4] == Pad4(d.year);
    var rest := s[5..];
    assert rest[..2] == Pad2(d.month) && rest[2] == '-';
    assert MonthWidth(rest) == 2;
    var dayText := rest[3..];
    assert dayText == Pad2(d.day);
    assert DayWidth(dayText) == 2;
  }

  /** On the `full-date` shape the parse is exact: formatting what it read gives the text back. */
  lemma FormatParsed(s: string)
    requires IsFullDateShape(s) && ParseDate(s).Some?
    ensures FormatDate(ParseDate(s).value) == s
  {
    var d := ParseDate(s).value;
    var rest := s[5..];
    assert MonthWidth(rest) == 2;
    var dayText := rest[3..];
    assert DayWidth(dayText) == 2;
    var hi := 10 * DigitValue(s[0]) + DigitValue(s[1]);
    var lo := 10 * DigitValue(s[2]) + DigitValue(s[3]);
    assert d.year == 100 * hi + lo;
    assert d.year / 100 == hi && d.year % 100 == lo;
    Pad2OfDigits(s[0], s[1]);
    Pad2OfDigits(s[2], s[3]);
    Pad2OfDigits(s[5], s[6]);
    Pad2OfDigits(s[8], s[9]);
    assert Pad4(d.year) == s[..4];
    assert Pad2(d.month) == s[5..7];
    assert Pad2(d.day) == s[8..];
    assert s == s[..4] + "-" + s[5..7] + "-" + s[8..];
  }

  /** `strptime` also takes one-digit months and days, and a blank before a one-digit day. */
  lemma ParseShortMonthAndDay()
    ensures ParseDate("2024-1-5") == Some(Date(2024, 1, 5))
  {
    assert "2024-1-5"[5..] == "1-5";
    assert "1-5"[2..] == "5";
  }

  /** A blank in place of a day's leading zero is accepted too. */
  lemma ParseBlankPaddedDay()
    ensures ParseDate("2024-01- 5") == Some(Date(2024, 1, 5))
  {
    assert "2024-01- 5"[5..] == "01- 5";
    assert "01- 5"[3..] == " 5";
  }

  /** Texts of the right shape that name no calendar day are rejected. */
  lemma ParseRejectsDayOutOfRange()
    ensures ParseDate("2024-01-35") == None
  {
    assert "2024-01-35"[5..] == "01-35";
    assert "01-35"[3..] == "35";
  }

  lemma ParseRejectsNonLeapFebruary29()
    ensures ParseDate("2023-02-29") == None
  {
    assert "2023-02-29"[5..] == "02-29";
    assert "02-29"[3..] == "29";
  }

  lemma ParseRejectsYearZero()
    ensures ParseDate("0000-01-01") == None
  {
    assert "0000-01-01"[5..] == "01-01";
    assert "01-01"[3..] == "01";
  }
}
