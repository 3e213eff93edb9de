/**
 * Calendar dates as both handlers see them: the `dd-MM-yyyy` text stored in
 * the calendar table, the strict (non-lenient) Gregorian validity check, and
 * the date-only ordering used to decide "in the future" and "today".
 */
module Calendar {
  import opened Wrappers

  /** A calendar date; meaningful only when ValidDate holds. */
  datatype Date = Date(day: int, month: int, year: int)

  /** The record kept in the calendar table: attribute `Date` and attribute `eventName`. */
  datatype CalendarEvent = CalendarEvent(date: string, eventName: string)

  /** Gregorian leap-year rule. */
  predicate IsLeapYear(y: int) {
    (y % 4 == 0 && y % 100 != 0) || y % 400 == 0
  }

  function DaysInMonth(m: int, y: int): (n: int)
    requires 1 <= m <= 12
    ensures 28 <= n <= 31
    ensures m == 2 ==> (n == 29 <==> IsLeapYear(y))
    ensures m != 2 ==> n >= 30
  {
    if m == 2 then (if IsLeapYear(y) then 29 else 28)
    else if m == 4 || m == 6 || m == 9 || m == 11 then 30
    else 31
  }

  /** A date that exists: no day 0, no day 31 in a 30-day month, no 29 February outside leap years, no year 0. */
  predicate ValidDate(d: Date) {
    1 <= d.year && 1 <= d.month <= 12 && 1 <= d.day <= DaysInMonth(d.month, d.year)
  }

  /** Date-only "strictly earlier than". */
  predicate Before(a: Date, b: Date)
    ensures Before(a, b) ==> a != b && a.year <= b.year
  {
    a.year < b.year
    || (a.year == b.year && (a.month < b.month || (a.month == b.month && a.day < b.day)))
  }

  /** Before is a strict total order on dates. */
  lemma BeforeStrictTotal(a: Date, b: Date, c: Date)
    ensures !Before(a, a)
    ensures Before(a, b) ==> !Before(b, a)
    ensures a == b || Before(a, b) || Before(b, a)
    ensures Before(a, b) && Before(b, c) ==> Before(a, c)
  {
  }

  // ---------------------------------------------------------------------------
  // The text form dd-MM-yyyy
  // ---------------------------------------------------------------------------

  predicate IsDigit(c: char) {
    '0' <= c <= '9'
  }

  function DigitValue(c: char): (v: int)
    requires IsDigit(c)
    ensures 0 <= v <= 9
  {
    c as int - '0' as int
  }

  function DigitChar(v: int): (c: char)
    requires 0 <= v <= 9
    ensures IsDigit(c) && DigitValue(c) == v
  {
    ('0' as int + v) as char
  }

  /** Two digits, '-', two digits, '-', four digits. */
  predicate WellFormed(s: string) {
    |s| == 10 && s[2] == '-' && s[5] == '-'
    && IsDigit(s[0]) && IsDigit(s[1]) && IsDigit(s[3]) && IsDigit(s[4])
    && IsDigit(s[6]) && IsDigit(s[7]) && IsDigit(s[8]) && IsDigit(s[9])
  }

  /** The day, month and year fields of a well-formed token, read as decimal numbers. */
  function Fields(s: string): (d: Date)
    requires WellFormed(s)
    ensures 0 <= d.day <= 99 && 0 <= d.month <= 99 && 0 <= d.year <= 9999
  {
    Date(10 * DigitValue(s[0]) + DigitValue(s[1]),
         10 * DigitValue(s[3]) + DigitValue(s[4]),
         1000 * DigitValue(s[6]) + 100 * DigitValue(s[7]) + 10 * DigitValue(s[8]) + DigitValue(s[9]))
  }

  /** Strict parse of a `dd-MM-yyyy` token: None for bad shape or a date that does not exist. */
  function ParseDate(s: string): (r: Option<Date>)
    ensures r.Some? ==> ValidDate(r.value) && r.value.year <= 9999
    ensures r.Some? ==> |s| == 10
  {
    if !WellFormed(s) then None
    else
      var d := Fields(s);
      if ValidDate(d) then Some(d) else None
  }

  /** The `dd-MM-yyyy` text of a date whose fields fit their widths. */
  function FormatDate(d: Date): (s: string)
    requires 0 <= d.day <= 99 && 0 <= d.month <= 99 && 0 <= d.year <= 9999
    ensures WellFormed(s)
  {
    [DigitChar(d.day / 10), DigitChar(d.day % 10), '-',
     DigitChar(d.month / 10), DigitChar(d.month % 10), '-',
     DigitChar(d.year / 10 / 10 / 10), DigitChar(d.year / 10 / 10 % 10),
     DigitChar(d.year / 10 % 10), DigitChar(d.year % 10)]
  }

  lemma FieldsOfFormat(d: Date)
    requires 0 <= d.day <= 99 && 0 <= d.month <= 99 && 0 <= d.year <= 9999
    ensures Fields(FormatDate(d)) == d
  {
    var s := FormatDate(d);
    assert 10 * DigitValue(s[0]) + DigitValue(s[1]) == d.day;
    assert 10 * DigitValue(s[3]) + DigitValue(s[4]) == d.month;
    var y := d.year;
    var q1 := y / 10;
    var q2 := q1 / 10;
    var q3 := q2 / 10;
    assert y == 10 * q1 + y % 10;
    assert q1 == 10 * q2 + q1 % 10;
    assert q2 == 10 * q3 + q2 % 10;
    assert 1000 * DigitValue(s[6]) + 100 * DigitValue(s[7]) + 10 * DigitValue(s[8]) + DigitValue(s[9]) == y;
  }

  /** Formatting a real date and parsing it back gives the date. */
  lemma ParseFormat(d: Date)
    requires ValidDate(d) && d.year <= 9999
    ensures ParseDate(FormatDate(d)) == Some(d)
  {
    FieldsOfFormat(d);
  }

  lemma DigitRoundTrip(c: char)
    requires IsDigit(c)
    ensures DigitChar(DigitValue(c)) == c
  {
  }

  lemma TwoDigits(a: int, b: int)
    requires 0 <= a <= 9 && 0 <= b <= 9
    ensures (10 * a + b) / 10 == a && (10 * a + b) % 10 == b
  {
  }

  lemma FourDigits(a: int, b: int, c: int, e: int)
    requires 0 <= a <= 9 && 0 <= b <= 9 && 0 <= c <= 9 && 0 <= e <= 9
    ensures var y := 1000 * a + 100 * b + 10 * c + e;
      y / 10 / 10 / 10 == a && y / 10 / 10 % 10 == b && y / 10 % 10 == c && y % 10 == e
  {
    var y := 1000 * a + 100 * b + 10 * c + e;
    assert y / 10 == 100 * a + 10 * b + c;
    assert y / 10 / 10 == 10 * a + b;
  }

  /** A token that parses is exactly the text of its date: one spelling per date. */
  lemma FormatParse(s: string)
    requires ParseDate(s).Some?
    ensures FormatDate(ParseDate(s).value) == s
  {
    var d := Fields(s);
    TwoDigits(DigitValue(s[0]), DigitValue(s[1]));
    TwoDigits(DigitValue(s[3]), DigitValue(s[4]));
    FourDigits(DigitValue(s[6]), DigitValue(s[7]), DigitValue(s[8]), DigitValue(s[9]));
    DigitRoundTrip(s[0]); DigitRoundTrip(s[1]); DigitRoundTrip(s[3]); DigitRoundTrip(s[4]);
    DigitRoundTrip(s[6]); DigitRoundTrip(s[7]); DigitRoundTrip(s[8]); DigitRoundTrip(s[9]);
    var t := FormatDate(d);
    assert t[0] == s[0] && t[1] == s[1] && t[3] == s[3] && t[4] == s[4];
    assert t[6] == s[6] && t[7] == s[7] && t[8] == s[8] && t[9] == s[9];
    assert t == s;
  }

  /**
   * Non-lenient parsing: a day/month/year triple written in the format is
   * accepted exactly when that date exists; nothing rolls over.
   */
  lemma NoRollover(d: Date)
    requires 0 <= d.day <= 99 && 1 <= d.month <= 12 && 0 <= d.year <= 9999
    ensures ParseDate(FormatDate(d)).Some? <==> ValidDate(d)
  {
    FieldsOfFormat(d);
  }

  /** 29 February is accepted exactly in leap years. */
  lemma LeapDay(y: int)
    requires 1 <= y <= 9999
    ensures ParseDate(FormatDate(Date(29, 2, y))).Some? <==> IsLeapYear(y)
  {
    NoRollover(Date(29, 2, y));
  }

  lemma ImpossibleDatesRejected()
    ensures ParseDate("31-02-2025") == None
    ensures ParseDate("32-01-2025") == None
    ensures ParseDate("31-04-2025") == None
    ensures ParseDate("00-01-2025") == None
    ensures ParseDate("01-13-2025") == None
    ensures ParseDate("01-01-0000") == None
    ensures ParseDate("29-02-1900") == None
    ensures ParseDate("29-02-2000") == Some(Date(29, 2, 2000))
  {
    assert Fields("31-02-2025") == Date(31, 2, 2025);
    assert Fields("32-01-2025") == Date(32, 1, 2025);
    assert Fields("31-04-2025") == Date(31, 4, 2025);
    assert Fields("00-01-2025") == Date(0, 1, 2025);
    assert Fields("01-13-2025") == Date(1, 13, 2025);
    assert Fields("01-01-0000") == Date(1, 1, 0);
    assert Fields("29-02-1900") == Date(29, 2, 1900);
    assert Fields("29-02-2000") == Date(29, 2, 2000);
  }

  // ---------------------------------------------------------------------------
  // Day numbers: an independent reading of the ordering
  // ---------------------------------------------------------------------------

  function YearLength(y: int): (n: int)
    ensures n == 365 || n == 366
  {
    if IsLeapYear(y) then 366 else 365
  }

  /** Days in the months of year y before month m. */
  function DaysBeforeMonth(m: int, y: int): (n: int)
    requires 1 <= m <= 13
    ensures n >= 0
  {
    if m == 1 then 0 else DaysBeforeMonth(m - 1, y) + DaysInMonth(m - 1, y)
  }

  /** Days in the years 1 .. y-1 of the proleptic Gregorian calendar. */
  function DaysBeforeYear(y: int): (n: int)
    requires y >= 1
    ensures n >= 0
  {
    if y == 1 then 0 else DaysBeforeYear(y - 1) + YearLength(y - 1)
  }

  /** Days from 1 January of year 1 to d; d's midnight is DayNumber(d) days after that epoch. */
  function DayNumber(d: Date): int
    requires ValidDate(d)
  {
    DaysBeforeYear(d.year) + DaysBeforeMonth(d.month, d.year) + d.day - 1
  }

  lemma {:induction false} MonthsFill(y: int)
    ensures DaysBeforeMonth(13, y) == YearLength(y)
  {
    assert DaysBeforeMonth(2, y) == 31;
    assert DaysBeforeMonth(3, y) == 31 + DaysInMonth(2, y);
    assert DaysBeforeMonth(4, y) == 62 + DaysInMonth(2, y);
    assert DaysBeforeMonth(5, y) == 92 + DaysInMonth(2, y);
    assert DaysBeforeMonth(6, y) == 123 + DaysInMonth(2, y);
    assert DaysBeforeMonth(7, y) == 153 + DaysInMonth(2, y);
    assert DaysBeforeMonth(8, y) == 184 + DaysInMonth(2, y);
    assert DaysBeforeMonth(9, y) == 215 + DaysInMonth(2, y);
    assert DaysBeforeMonth(10, y) == 245 + DaysInMonth(2, y);
    assert DaysBeforeMonth(11, y) == 276 + DaysInMonth(2, y);
    assert DaysBeforeMonth(12, y) == 306 + DaysInMonth(2, y);
  }

  lemma {:induction false} MonthsIncrease(m1: int, m2: int, y: int)
    requires 1 <= m1 < m2 <= 13
    ensures DaysBeforeMonth(m1, y) + DaysInMonth(m1, y) <= DaysBeforeMonth(m2, y)
    decreases m2
  {
    if m2 > m1 + 1 {
      MonthsIncrease(m1, m2 - 1, y);
    }
  }

  lemma {:induction false} YearsIncrease(y1: int, y2: int)
    requires 1 <= y1 < y2
    ensures DaysBeforeYear(y1) + YearLength(y1) <= DaysBeforeYear(y2)
    decreases y2
  {
    if y2 > y1 + 1 {
      YearsIncrease(y1, y2 - 1);
    }
  }

  /** A valid date lies inside its year. */
  lemma DayOfYearBound(d: Date)
    requires ValidDate(d)
    ensures DaysBeforeMonth(d.month, d.year) + d.day - 1 < YearLength(d.year)
  {
    if d.month < 12 {
      MonthsIncrease(d.month, 13, d.year);
    }
    MonthsFill(d.year);
  }

  lemma BeforeImpliesEarlierDay(a: Date, b: Date)
    requires ValidDate(a) && ValidDate(b) && Before(a, b)
    ensures DayNumber(a) < DayNumber(b)
  {
    if a.year < b.year {
      DayOfYearBound(a);
      YearsIncrease(a.year, b.year);
    } else if a.month < b.month {
      MonthsIncrease(a.month, b.month, a.year);
    }
  }

  /** Before agrees with counting days: the comparison of date fields is the order of the days themselves. */
  lemma BeforeIffEarlierDay(a: Date, b: Date)
    requires ValidDate(a) && ValidDate(b)
    ensures Before(a, b) <==> DayNumber(a) < DayNumber(b)
  {
    if Before(a, b) {
      BeforeImpliesEarlierDay(a, b);
    } else if a != b {
      BeforeImpliesEarlierDay(b, a);
    }
  }

  const MillisPerDay: int := 86_400_000

  /** The instant (milliseconds after the epoch) at which date d begins. */
  function Midnight(d: Date): int
    requires ValidDate(d)
  {
    DayNumber(d) * MillisPerDay
  }

  /**
   * A parsed date is compared with the current instant, not with today's date:
   * its midnight is after any instant `now` that falls during `today` exactly
   * when the date is strictly after today. Today's own midnight is never after now.
   */
  lemma AfterNowIffAfterToday(d: Date, today: Date, now: int)
    requires ValidDate(d) && ValidDate(today)
    requires Midnight(today) <= now < Midnight(today) + MillisPerDay
    ensures Midnight(d) > now <==> Before(today, d)
  {
    BeforeIffEarlierDay(today, d);
    var k := DayNumber(d) - DayNumber(today);
    assert Midnight(d) == Midnight(today) + k * MillisPerDay;
    if k >= 1 {
      assert k * MillisPerDay >= MillisPerDay;
    } else {
      assert k * MillisPerDay <= 0;
    }
  }
}
