/** Naive `datetime` values as the generator uses them: the clock's "now",
    and `datetime.strptime(text, '%Y-%m-%d')` / `strftime('%Y-%m-%d')`. */
module Dates {
  import opened Common

  /** A naive `datetime`: a calendar date and the time of day in microseconds. */
  datatype DateTime = DateTime(year: int, month: int, day: int, micros: int)

  const MicrosPerDay: int := 86_400_000_000

  predicate IsLeap(y: int) {
    y % 4 == 0 && (y % 100 != 0 || y % 400 == 0)
  }

  function DaysIn(y: int, m: int): int
    requires 1 <= m <= 12
  {
    if m == 2 then (if IsLeap(y) then 29 else 28)
    else if m == 4 || m == 6 || m == 9 || m == 11 then 30
    else 31
  }

  /** The dates `datetime` accepts: years 1 to 9999, real days of real months. */
  predicate ValidDate(y: int, m: int, d: int) {
    1 <= y <= 9999 && 1 <= m <= 12 && 1 <= d <= DaysIn(y, m)
  }

  predicate Valid(t: DateTime) {
    ValidDate(t.year, t.month, t.day) && 0 <= t.micros < MicrosPerDay
  }

  /** Midnight of a day: what `strptime` yields for a date-only format. */
  function Midnight(t: DateTime): DateTime {
    DateTime(t.year, t.month, t.day, 0)
  }

  /** `a <= b`: datetimes compare by date, then by time of day. */
  predicate NotAfter(a: DateTime, b: DateTime) {
    || a.year < b.year
    || (a.year == b.year && a.month < b.month)
    || (a.year == b.year && a.month == b.month && a.day < b.day)
    || (a.year == b.year && a.month == b.month && a.day == b.day && a.micros <= b.micros)
  }

  /** `NotAfter` is a total order. */
  lemma NotAfterTotalOrder(a: DateTime, b: DateTime, c: DateTime)
    ensures NotAfter(a, a)
    ensures NotAfter(a, b) || NotAfter(b, a)
    ensures NotAfter(a, b) && NotAfter(b, a) ==> a == b
    ensures NotAfter(a, b) && NotAfter(b, c) ==> NotAfter(a, c)
  {
  }

  predicate IsDigit(c: char) {
    '0' <= c <= '9'
  }

  function DigitValue(c: char): int
    requires IsDigit(c)
  {
    c as int - '0' as int
  }

  function Digit(n: int): char
    requires 0 <= n <= 9
  {
    (n + '0' as int) as char
  }

  /** The `%Y` field: four digits at the start of `s`. */
  predicate YearField(s: string) {
    |s| >= 4 && IsDigit(s[0]) && IsDigit(s[1]) && IsDigit(s[2]) && IsDigit(s[3])
  }

  function YearValue(s: string): int
    requires YearField(s)
  {
    1000 * DigitValue(s[0]) + 100 * DigitValue(s[1]) + 10 * DigitValue(s[2]) + DigitValue(s[3])
  }

  /** The `%m` field, `1[0-2]|0[1-9]|[1-9]`, and the '-' after it, at the start
      of `t`: the month and the length of its digits. */
  function MonthField(t: string): Option<(int, nat)> {
    if |t| >= 3 && t[0] == '1' && '0' <= t[1] <= '2' && t[2] == '-' then
      Some((10 + DigitValue(t[1]), 2))
    else if |t| >= 3 && t[0] == '0' && '1' <= t[1] <= '9' && t[2] == '-' then
      Some((DigitValue(t[1]), 2))
    else if |t| >= 2 && '1' <= t[0] <= '9' && t[1] == '-' then
      Some((DigitValue(t[0]), 1))
    else
      None
  }

  /** The `%d` field, `3[01]|[12]\d|0[1-9]|[1-9]| [1-9]`, which must make up
      all of `t`: anything left after it is "unconverted data". */
  function DayField(t: string): Option<int> {
    if |t| == 2 && t[0] == '3' && '0' <= t[1] <= '1' then Some(30 + DigitValue(t[1]))
    else if |t| == 2 && '1' <= t[0] <= '2' && IsDigit(t[1]) then Some(10 * DigitValue(t[0]) + DigitValue(t[1]))
    else if |t| == 2 && t[0] == '0' && '1' <= t[1] <= '9' then Some(DigitValue(t[1]))
    else if |t| == 1 && '1' <= t[0] <= '9' then Some(DigitValue(t[0]))
    else if |t| == 2 && t[0] == ' ' && '1' <= t[1] <= '9' then Some(DigitValue(t[1]))
    else None
  }

  /** `datetime.strptime(s, '%Y-%m-%d')`: four digits of year, '-', the month
      field, '-', the day field and nothing more, naming a real day; any other
      text raises `ValueError`. */
  function ParseDate(s: string): (r: Result<DateTime>)
    ensures r.Ok? ==> Valid(r.value) && r.value.micros == 0
    ensures r.Err? ==> r.error == BadDate(s)
  {
    if |s| < 5 || !YearField(s) || s[4] != '-' then
      Err(BadDate(s))
    else
      var y := YearValue(s);
      match MonthField(s[5..])
      case None => Err(BadDate(s))
      case Some((m, n)) =>
        match DayField(s[5 + n + 1..])
        case None => Err(BadDate(s))
        case Some(d) =>
          if ValidDate(y, m, d) then Ok(DateTime(y, m, d, 0)) else Err(BadDate(s))
  }

  /** `n` as two zero-padded decimal digits. */
  function TwoDigits(n: int): string
    requires 0 <= n < 100
  {
    [Digit(n / 10), Digit(n % 10)]
  }

  /** `n` as four zero-padded decimal digits. */
  function FourDigits(n: int): string
    requires 0 <= n < 10000
  {
    TwoDigits(n / 100) + TwoDigits(n % 100)
  }

  /** `t.strftime('%Y-%m-%d')`. */
  function FormatDate(t: DateTime): (r: string)
    requires Valid(t)
    ensures |r| == 10 && r[4] == '-' && r[7] == '-'
    ensures forall i :: 0 <= i < 10 && i != 4 && i != 7 ==> IsDigit(r[i])
  {
    FourDigits(t.year) + "-" + TwoDigits(t.month) + "-" + TwoDigits(t.day)
  }

  /** The month field reads back a zero-padded month. */
  lemma MonthFieldOfTwoDigits(m: int, rest: string)
    requires 1 <= m <= 12
    ensures MonthField(TwoDigits(m) + "-" + rest) == Some((m, 2))
  {
    var t := TwoDigits(m) + "-" + rest;
    assert t[0] == Digit(m / 10) && t[1] == Digit(m % 10) && t[2] == '-';
  }

  /** The day field reads back a zero-padded day. */
  lemma DayFieldOfTwoDigits(d: int)
    requires 1 <= d <= 31
    ensures DayField(TwoDigits(d)) == Some(d)
  {
  }

  lemma TwoDigitsValue(n: int)
    requires 0 <= n < 100
    ensures 10 * DigitValue(TwoDigits(n)[0]) + DigitValue(TwoDigits(n)[1]) == n
  {
  }

  /** The year field reads back a zero-padded year. */
  lemma YearFieldOfFourDigits(y: int, rest: string)
    requires 0 <= y < 10000
    ensures YearField(FourDigits(y) + rest) && YearValue(FourDigits(y) + rest) == y
  {
    var s := FourDigits(y) + rest;
    var hi, lo := TwoDigits(y / 100), TwoDigits(y % 100);
    assert s[0] == hi[0] && s[1] == hi[1] && s[2] == lo[0] && s[3] == lo[1];
    TwoDigitsValue(y / 100);
    TwoDigitsValue(y % 100);
  }

  /** `ParseDate` on a text whose three fields have been read. */
  lemma ParseDateOfFields(s: string, m: int, n: nat, d: int)
    requires |s| >= 5 + n + 1 && YearField(s) && s[4] == '-'
    requires MonthField(s[5..]) == Some((m, n)) && DayField(s[5 + n + 1..]) == Some(d)
    ensures ValidDate(YearValue(s), m, d) ==> ParseDate(s) == Ok(DateTime(YearValue(s), m, d, 0))
  {
  }

  /** Parsing what `FormatDate` writes gives back the day, at midnight. */
  lemma ParseFormatDate(t: DateTime)
    requires Valid(t)
    ensures ParseDate(FormatDate(t)) == Ok(Midnight(t))
  {
    var s := FormatDate(t);
    var rest := TwoDigits(t.month) + "-" + TwoDigits(t.day);
    assert s == FourDigits(t.year) + ("-" + rest);
    YearFieldOfFourDigits(t.year, "-" + rest);
    assert s[5..] == rest;
    MonthFieldOfTwoDigits(t.month, TwoDigits(t.day));
    assert s[8..] == TwoDigits(t.day);
    DayFieldOfTwoDigits(t.day);
    ParseDateOfFields(s, t.month, 2, t.day);
  }

  /** How `%m` may spell month `m`: two zero-padded digits, or one digit for
      the months before October. */
  ghost predicate MonthSpelling(text: string, m: int) {
    1 <= m <= 12 && (text == TwoDigits(m) || (m <= 9 && text == [Digit(m)]))
  }

  /** How `%d` may spell day `d`: two zero-padded digits, or for the first
      nine days one digit, alone or after a space. */
  ghost predicate DaySpelling(text: string, d: int) {
    1 <= d <= 31 && (text == TwoDigits(d) || (d <= 9 && (text == [Digit(d)] || text == [' ', Digit(d)])))
  }

  lemma DigitOfValue(c: char)
    requires IsDigit(c)
    ensures Digit(DigitValue(c)) == c
  {
  }

  lemma TwoDigitsOf(a: int, b: int)
    requires 0 <= a <= 9 && 0 <= b <= 9
    ensures TwoDigits(10 * a + b) == [Digit(a), Digit(b)]
  {
  }

  /** The year field is the four-digit spelling of the year it reads. */
  lemma FourDigitsOfYearField(s: string)
    requires YearField(s)
    ensures YearValue(s) < 10000 && FourDigits(YearValue(s)) == s[..4]
  {
    var a, b, c, d := DigitValue(s[0]), DigitValue(s[1]), DigitValue(s[2]), DigitValue(s[3]);
    var y := YearValue(s);
    assert y / 100 == 10 * a + b && y % 100 == 10 * c + d;
    TwoDigitsOf(a, b);
    TwoDigitsOf(c, d);
    DigitOfValue(s[0]);
    DigitOfValue(s[1]);
    DigitOfValue(s[2]);
    DigitOfValue(s[3]);
  }

  /** What the month field accepts is a spelling of the month it reads,
      followed by '-'. */
  lemma MonthFieldSpelling(t: string)
    requires MonthField(t).Some?
    ensures var (m, n) := MonthField(t).value;
      (n == 1 || n == 2) && n < |t| && MonthSpelling(t[..n], m) && t[n] == '-'
  {
    if |t| >= 3 && t[0] == '1' && '0' <= t[1] <= '2' && t[2] == '-' {
      TwoDigitsOf(1, DigitValue(t[1]));
      DigitOfValue(t[1]);
    } else if |t| >= 3 && t[0] == '0' && '1' <= t[1] <= '9' && t[2] == '-' {
      TwoDigitsOf(0, DigitValue(t[1]));
      DigitOfValue(t[1]);
    } else {
      DigitOfValue(t[0]);
    }
  }

  /** What the day field accepts is a spelling of the day it reads. */
  lemma DayFieldSpelling(t: string)
    requires DayField(t).Some?
    ensures DaySpelling(t, DayField(t).value)
  {
    if |t| == 2 && (t[0] == '3' || '1' <= t[0] <= '2' || t[0] == '0') && IsDigit(t[1]) {
      TwoDigitsOf(DigitValue(t[0]), DigitValue(t[1]));
      DigitOfValue(t[0]);
      DigitOfValue(t[1]);
    } else if |t| == 1 {
      DigitOfValue(t[0]);
    } else {
      DigitOfValue(t[1]);
    }
  }

  /** Every text `ParseDate` accepts is the four-digit year, '-', a spelling
      of the month, '-' and a spelling of the day it returns. */
  lemma ParseDateShape(s: string)
    requires ParseDate(s).Ok?
    ensures var t := ParseDate(s).value;
      exists ms, ds :: MonthSpelling(ms, t.month) && DaySpelling(ds, t.day)
        && s == FourDigits(t.year) + "-" + ms + "-" + ds
  {
    var t := ParseDate(s).value;
    var (m, n) := MonthField(s[5..]).value;
    MonthFieldSpelling(s[5..]);
    DayFieldSpelling(s[5 + n + 1..]);
    FourDigitsOfYearField(s);
    var ms, ds := s[5..5 + n], s[5 + n + 1..];
    assert s[5..][..n] == ms;
    assert s == s[..4] + "-" + ms + "-" + ds;
    assert MonthSpelling(ms, t.month) && DaySpelling(ds, t.day);
  }

  lemma MonthFieldOfSpelling(m: int, ms: string, rest: string)
    requires MonthSpelling(ms, m)
    ensures MonthField(ms + "-" + rest) == Some((m, |ms|))
  {
    var t := ms + "-" + rest;
    if ms == TwoDigits(m) {
      assert t[0] == Digit(m / 10) && t[1] == Digit(m % 10) && t[2] == '-';
    } else {
      assert t[0] == Digit(m) && t[1] == '-';
    }
  }

  lemma DayFieldOfSpelling(d: int, ds: string)
    requires DaySpelling(ds, d)
    ensures DayField(ds) == Some(d)
  {
  }

  /** Conversely, every such spelling of a real day parses to that day. */
  lemma ParseDateOfSpelling(y: int, m: int, d: int, ms: string, ds: string)
    requires ValidDate(y, m, d) && MonthSpelling(ms, m) && DaySpelling(ds, d)
    ensures ParseDate(FourDigits(y) + "-" + ms + "-" + ds) == Ok(DateTime(y, m, d, 0))
  {
    var rest := ms + "-" + ds;
    var s := FourDigits(y) + "-" + ms + "-" + ds;
    assert s == FourDigits(y) + ("-" + rest);
    YearFieldOfFourDigits(y, "-" + rest);
    assert s[5..] == rest;
    MonthFieldOfSpelling(m, ms, ds);
    assert s[5 + |ms| + 1..] == ds;
    DayFieldOfSpelling(d, ds);
    ParseDateOfFields(s, m, |ms|, d);
  }

  /** `strptime` takes one-digit months and days, and a day written as a
      space and a digit. */
  lemma ParseDateShortFields()
    ensures ParseDate("2024-1-5") == Ok(DateTime(2024, 1, 5, 0))
    ensures ParseDate("2024-01- 5") == Ok(DateTime(2024, 1, 5, 0))
  {
    assert "2024-1-5"[5..] == "1-5";
    assert "2024-1-5"[7..] == "5";
    assert "2024-01- 5"[5..] == "01- 5";
    assert "2024-01- 5"[8..] == " 5";
  }

  /** `strptime` refuses a day the month does not have and text after the day. */
  lemma ParseDateRejectsDays()
    ensures ParseDate("2023-02-29").Err?
    ensures ParseDate("2024-01-15x").Err?
  {
    assert "2023-02-29"[5..] == "02-29";
    assert "2023-02-29"[8..] == "29";
    assert "2024-01-15x"[5..] == "01-15x";
    assert "2024-01-15x"[8..] == "15x";
  }

  /** `strptime` refuses a thirteenth month and the year 0. */
  lemma ParseDateRejectsMonthAndYear()
    ensures ParseDate("2024-13-01").Err?
    ensures ParseDate("0000-01-01").Err?
  {
    assert "2024-13-01"[5..] == "13-01";
    assert "0000-01-01"[5..] == "01-01";
    assert "0000-01-01"[8..] == "01";
  }
}
