/**
  Calendar dates as `YYYY-MM-DD` text: the check applied to a date taken from
  the address bar, and the rendering of a local date. A valid date is an RFC
  3339 `full-date` (section 5.6) naming a real day (section 5.7).
 */
module DateFormat {
  import opened Seqs
  import opened Strings
  import opened Numeric
  import SyncKeys

  /** A value read from the query string: text, or anything else (absent, repeated). */
  datatype QueryValue = Text(s: string) | NotText

  /** Leap years of the Gregorian calendar (RFC 3339 appendix C). */
  predicate IsLeapYear(y: int) {
    y % 4 == 0 && (y % 100 != 0 || y % 400 == 0)
  }

  /** The number of days in month `m` of year `y` (RFC 3339 section 5.7). */
  function DaysInMonth(y: int, m: int): (n: int)
    requires 1 <= m <= 12
    ensures 28 <= n <= 31
    ensures n == 29 <==> m == 2 && IsLeapYear(y)
  {
    if m == 2 then (if IsLeapYear(y) then 29 else 28)
    else if m == 4 || m == 6 || m == 9 || m == 11 then 30
    else 31
  }

  datatype Ymd = Ymd(year: int, month: int, day: int)

  /** A day that exists: month 1 to 12, day from 1 to the length of that month. */
  predicate IsCalendarDate(d: Ymd) {
    1 <= d.month <= 12 && 1 <= d.day <= DaysInMonth(d.year, d.month)
  }

  function Digit(s: string, i: nat): nat
    requires i < |s| && IsDigit(s[i])
  {
    DigitValue(s[i])
  }

  /** The three numbers written in a `dddd-dd-dd` string. */
  function Fields(s: string): (d: Ymd)
    requires SyncKeys.IsDateShape(s)
    ensures 0 <= d.year < 10000 && 0 <= d.month < 100 && 0 <= d.day < 100
  {
    Ymd(1000 * Digit(s, 0) + 100 * Digit(s, 1) + 10 * Digit(s, 2) + Digit(s, 3),
        10 * Digit(s, 5) + Digit(s, 6),
        10 * Digit(s, 8) + Digit(s, 9))
  }

  /**
    The date `new Date(s)` denotes for a `dddd-dd-dd` string: none (an
    invalid date) when the month is outside 1..12 or the day outside 1..31;
    otherwise the day counted from the first of the month, so that a day
    past the end of the month runs over into the next.
   */
  function ParseIsoDate(s: string): (r: Option<Ymd>)
    requires SyncKeys.IsDateShape(s)
    ensures r.None? <==> !(1 <= Fields(s).month <= 12 && 1 <= Fields(s).day <= 31)
  {
    var f := Fields(s);
    if !(1 <= f.month <= 12 && 1 <= f.day <= 31) then None
    else
      var len := DaysInMonth(f.year, f.month);
      if f.day <= len then Some(f)
      else if f.month < 12 then Some(Ymd(f.year, f.month + 1, f.day - len))
      else Some(Ymd(f.year + 1, 1, f.day - len))
  }

  /** `n` as exactly two digits. */
  function TwoDigits(n: nat): string
    requires n < 100
  {
    [DigitChar(n / 10), DigitChar(n % 10)]
  }

  /** `n` as exactly four digits. */
  function FourDigits(n: nat): string
    requires n < 10000
  {
    [DigitChar(n / 10 / 10 / 10), DigitChar(n / 10 / 10 % 10), DigitChar(n / 10 % 10), DigitChar(n % 10)]
  }

  /** `toISOString().slice(0, 10)` of a date whose year has at most four digits. */
  function IsoDate(d: Ymd): (s: string)
    requires 0 <= d.year < 10000 && 0 <= d.month < 100 && 0 <= d.day < 100
    ensures SyncKeys.IsDateShape(s)
  {
    FourDigits(d.year) + "-" + TwoDigits(d.month) + "-" + TwoDigits(d.day)
  }

  /** `isValidDate`: text of the shape `dddd-dd-dd` that survives a round trip through `Date`. */
  predicate IsValidDate(v: QueryValue) {
    && v.Text?
    && SyncKeys.IsDateShape(v.s)
    && var parsed := ParseIsoDate(v.s);
       && parsed.Some?
       && 0 <= parsed.value.year < 10000 && 0 <= parsed.value.day < 100
       && IsoDate(parsed.value) == v.s
  }

  lemma DigitRoundTrip(c: char)
    requires IsDigit(c)
    ensures DigitChar(DigitValue(c)) == c
  {
  }

  /** The last decimal digit and the rest of a number. */
  lemma Tens(q: int, r: int)
    requires 0 <= r < 10
    ensures (10 * q + r) / 10 == q && (10 * q + r) % 10 == r
  {
    QuotientOf(q, r, 10);
  }

  lemma DigitsOfFour(a: nat, b: nat, c: nat, d: nat)
    requires a < 10 && b < 10 && c < 10 && d < 10
    ensures var y := 1000 * a + 100 * b + 10 * c + d;
            y / 10 / 10 / 10 == a && y / 10 / 10 % 10 == b && y / 10 % 10 == c && y % 10 == d
  {
    Tens(100 * a + 10 * b + c, d);
    Tens(10 * a + b, c);
    Tens(a, b);
    Tens(0, a);
  }

  lemma DigitsOfTwo(a: nat, b: nat)
    requires a < 10 && b < 10
    ensures (10 * a + b) / 10 == a && (10 * a + b) % 10 == b
  {
    Tens(a, b);
  }

  /** A number below 10000 is the value of its four digits. */
  lemma FourDigitsValue(y: nat)
    requires y < 10000
    ensures y == 1000 * (y / 10 / 10 / 10) + 100 * (y / 10 / 10 % 10) + 10 * (y / 10 % 10) + y % 10
  {
  }

  /** Rendering the fields of a `dddd-dd-dd` string gives the string back. */
  lemma IsoDateOfFields(s: string)
    requires SyncKeys.IsDateShape(s)
    ensures IsoDate(Fields(s)) == s
  {
    var f := Fields(s);
    FourDigitsOfText(s);
    TwoDigitsOfText(s, 5);
    TwoDigitsOfText(s, 8);
    assert s == s[..4] + "-" + s[5..7] + "-" + s[8..];
  }

  lemma FourDigitsOfText(s: string)
    requires SyncKeys.IsDateShape(s)
    ensures FourDigits(Fields(s).year) == s[..4]
  {
    var a, b, c, d := Digit(s, 0), Digit(s, 1), Digit(s, 2), Digit(s, 3);
    DigitsOfFour(a, b, c, d);
    assert FourDigits(Fields(s).year) == [DigitChar(a), DigitChar(b), DigitChar(c), DigitChar(d)];
    DigitRoundTrip(s[0]);
    DigitRoundTrip(s[1]);
    DigitRoundTrip(s[2]);
    DigitRoundTrip(s[3]);
  }

  lemma TwoDigitsOfText(s: string, i: nat)
    requires i + 1 < |s| && IsDigit(s[i]) && IsDigit(s[i + 1])
    ensures TwoDigits(10 * Digit(s, i) + Digit(s, i + 1)) == s[i..i + 2]
  {
    DigitsOfTwo(Digit(s, i), Digit(s, i + 1));
    var r := TwoDigits(10 * Digit(s, i) + Digit(s, i + 1));
    assert r[0] == DigitChar(Digit(s, i)) == s[i];
    assert r[1] == DigitChar(Digit(s, i + 1)) == s[i + 1];
  }

  /** Reading back a rendered date gives the date. */
  lemma FieldsOfIsoDate(d: Ymd)
    requires 0 <= d.year < 10000 && 0 <= d.month < 100 && 0 <= d.day < 100
    ensures Fields(IsoDate(d)) == d
  {
    var s := IsoDate(d);
    var y, m, dd := FourDigits(d.year), TwoDigits(d.month), TwoDigits(d.day);
    assert s[0] == y[0] && s[1] == y[1] && s[2] == y[2] && s[3] == y[3];
    assert s[5] == m[0] && s[6] == m[1] && s[8] == dd[0] && s[9] == dd[1];
    ReadFourDigits(d.year);
    ReadTwoDigits(d.month);
    ReadTwoDigits(d.day);
  }

  lemma ReadFourDigits(n: nat)
    requires n < 10000
    ensures var t := FourDigits(n);
            1000 * DigitValue(t[0]) + 100 * DigitValue(t[1]) + 10 * DigitValue(t[2]) + DigitValue(t[3]) == n
  {
    FourDigitsValue(n);
  }

  lemma ReadTwoDigits(n: nat)
    requires n < 100
    ensures var t := TwoDigits(n);
            10 * DigitValue(t[0]) + DigitValue(t[1]) == n
  {
  }

  /**
    A value passes `isValidDate` exactly when it is text of the shape
    `dddd-dd-dd` naming a day of the calendar: month 01 to 12, and a day of
    the month that exists in that year, so 29 February only in leap years.
   */
  lemma IsValidDateIff(v: QueryValue)
    ensures IsValidDate(v) <==> v.Text? && SyncKeys.IsDateShape(v.s) && IsCalendarDate(Fields(v.s))
  {
    if v.Text? && SyncKeys.IsDateShape(v.s) {
      var s := v.s;
      var f := Fields(s);
      var parsed := ParseIsoDate(s);
      if IsCalendarDate(f) {
        IsoDateOfFields(s);
      } else if parsed.Some? && 0 <= parsed.value.year < 10000 && 0 <= parsed.value.day < 100 {
        assert parsed.value != f;
        if IsoDate(parsed.value) == s {
          FieldsOfIsoDate(parsed.value);
        }
      }
    }
  }

  /** `String(n).padStart(2, '0')` for a number below 100 is its two digits. */
  lemma PadTwo(n: nat)
    requires n < 100
    ensures PadStart(IntToString(n), 2, '0') == TwoDigits(n)
  {
    if n >= 10 {
      assert NatToString(n) == NatToString(n / 10) + [DigitChar(n % 10)];
    }
  }

  /** `String(y)` for a year of four digits. */
  lemma FourDigitYear(y: nat)
    requires 1000 <= y < 10000
    ensures IntToString(y) == FourDigits(y)
  {
    assert NatToString(y) == NatToString(y / 10) + [DigitChar(y % 10)];
    assert NatToString(y / 10) == NatToString(y / 10 / 10) + [DigitChar(y / 10 % 10)];
    assert NatToString(y / 10 / 10) == NatToString(y / 10 / 10 / 10) + [DigitChar(y / 10 / 10 % 10)];
  }

  /**
    `getLocalDateString` for the local year, month index (0 for January) and
    day of the month: the year as written, then the month number and the day,
    each padded to two digits.
   */
  function GetLocalDateString(year: int, monthIndex: int, day: int): (s: string) {
    IntToString(year) + "-" + PadStart(IntToString(monthIndex + 1), 2, '0') + "-" + PadStart(IntToString(day), 2, '0')
  }

  /**
    For a year of four digits the local date string is `dddd-dd-dd` and
    reads back as the year, the month number (index plus one) and the day;
    for a real calendar day it passes `isValidDate`.
   */
  lemma LocalDateStringRoundTrip(year: int, monthIndex: int, day: int)
    requires 1000 <= year < 10000 && 0 <= monthIndex < 12 && 1 <= day <= 31
    ensures SyncKeys.IsDateShape(GetLocalDateString(year, monthIndex, day))
    ensures Fields(GetLocalDateString(year, monthIndex, day)) == Ymd(year, monthIndex + 1, day)
    ensures IsCalendarDate(Ymd(year, monthIndex + 1, day)) ==> IsValidDate(Text(GetLocalDateString(year, monthIndex, day)))
  {
    var d := Ymd(year, monthIndex + 1, day);
    FourDigitYear(year);
    PadTwo(monthIndex + 1);
    PadTwo(day);
    assert GetLocalDateString(year, monthIndex, day) == IsoDate(d);
    FieldsOfIsoDate(d);
    IsValidDateIff(Text(IsoDate(d)));
  }

  /** A year below 1000 is written without padding, so the result is not `dddd-dd-dd`. */
  lemma ShortYearNotDateShape(year: int, monthIndex: int, day: int)
    requires 0 <= year < 1000 && 0 <= monthIndex < 12 && 1 <= day <= 31
    ensures !SyncKeys.IsDateShape(GetLocalDateString(year, monthIndex, day))
  {
    PadTwo(monthIndex + 1);
    PadTwo(day);
    ShortYearLength(year);
    assert |GetLocalDateString(year, monthIndex, day)| < 10;
  }

  lemma ShortYearLength(year: nat)
    requires year < 1000
    ensures |IntToString(year)| < 4
  {
    if year >= 10 {
      assert NatToString(year) == NatToString(year / 10) + [DigitChar(year % 10)];
      if year >= 100 {
        assert NatToString(year / 10) == NatToString(year / 10 / 10) + [DigitChar(year / 10 % 10)];
      }
    }
  }

  /**
    The date `useDate` starts from: the query's date when it is valid,
    otherwise today's. Starting from a valid today it is always valid.
   */
  function InitialDate(query: QueryValue, today: string): (date: string)
    ensures IsValidDate(query) ==> date == query.s
    ensures !IsValidDate(query) ==> date == today
    ensures IsValidDate(Text(today)) ==> IsValidDate(Text(date))
  {
    if IsValidDate(query) then query.s else today
  }
}
