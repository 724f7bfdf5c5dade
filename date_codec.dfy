/** The fixed due-date text format "%m/%d/%y %I:%M %p" used by both
    `datetime.strptime` and `datetime.strftime` in main.py, e.g.
    "05/20/24 03:00 PM": two-digit month, day and year, a 12-hour clock
    with minutes, and the meridiem. The conversion specifiers are those of
    the POSIX (XSH) `strptime` and `strftime` functions. Only the strict,
    zero-padded, upper-case form is accepted by `Parse`. */
module DateCodec {
  import opened Wrappers

  /** A wall-clock time at minute precision; seconds are always 0 for the
      values the format can express. */
  datatype DateTime = DateTime(year: int, month: int, day: int, hour: int, minute: int)

  /** The calendar date alone (Python's `datetime.date()`). */
  datatype CalendarDay = CalendarDay(year: int, month: int, day: int)

  /** The result of `datetime.now()`: a minute plus the seconds and
      microseconds already elapsed in it. */
  datatype Instant = Instant(at: DateTime, second: nat, microsecond: nat)

  predicate IsLeapYear(year: int) {
    year % 4 == 0 && (year % 100 != 0 || year % 400 == 0)
  }

  function DaysInMonth(year: int, month: int): (n: int)
    requires 1 <= month <= 12
    ensures 28 <= n <= 31
    ensures month == 2 ==> (n == 29 <==> IsLeapYear(year))
    ensures month == 4 || month == 6 || month == 9 || month == 11 ==> n == 30
    ensures month != 2 && month != 4 && month != 6 && month != 9 && month != 11 ==> n == 31
  {
    if month == 2 then (if IsLeapYear(year) then 29 else 28)
    else if month == 4 || month == 6 || month == 9 || month == 11 then 30
    else 31
  }

  /** The values Python's `datetime` can hold (years 1 to 9999). */
  predicate Valid(d: DateTime) {
    && 1 <= d.year <= 9999
    && 1 <= d.month <= 12
    && 1 <= d.day <= DaysInMonth(d.year, d.month)
    && 0 <= d.hour < 24
    && 0 <= d.minute < 60
  }

  function DateOf(d: DateTime): CalendarDay {
    CalendarDay(d.year, d.month, d.day)
  }

  /** Chronological order of two minute-precision times. */
  predicate Before(a: DateTime, b: DateTime) {
    || a.year < b.year
    || (a.year == b.year && a.month < b.month)
    || (a.year == b.year && a.month == b.month && a.day < b.day)
    || (a.year == b.year && a.month == b.month && a.day == b.day && a.hour < b.hour)
    || (a.year == b.year && a.month == b.month && a.day == b.day && a.hour == b.hour && a.minute < b.minute)
  }

  /** Python's `due < now` for a due date whose seconds and microseconds
      are zero: strictly earlier, so a due date equal to `now` is not past.
      Python orders `datetime`s as the tuples of their fields. */
  predicate IsPast(due: DateTime, now: Instant): (r: bool)
    ensures r <==> TupleLess(Fields(due, 0, 0), Fields(now.at, now.second, now.microsecond))
  {
    FieldsOrder(due, now);
    Before(due, now.at) || (due == now.at && (now.second > 0 || now.microsecond > 0))
  }

  /** A `datetime` as the tuple it is compared by. */
  function Fields(d: DateTime, second: int, microsecond: int): seq<int> {
    [d.year, d.month, d.day, d.hour, d.minute, second, microsecond]
  }

  /** Lexicographic "less than" on equally long tuples. */
  predicate TupleLess(a: seq<int>, b: seq<int>)
    requires |a| == |b|
  {
    |a| > 0 && (a[0] < b[0] || (a[0] == b[0] && TupleLess(a[1..], b[1..])))
  }

  lemma FieldsOrder(due: DateTime, now: Instant)
    ensures TupleLess(Fields(due, 0, 0), Fields(now.at, now.second, now.microsecond))
            <==> Before(due, now.at) || (due == now.at && (now.second > 0 || now.microsecond > 0))
  {
    var a := Fields(due, 0, 0);
    var b := Fields(now.at, now.second, now.microsecond);
    FieldsOrderFromMonth(due, now);
    assert TupleLess(a, b) <==> due.year < now.at.year || (due.year == now.at.year && TupleLess(a[1..], b[1..]));
  }

  /** The comparison of the fields after the year. */
  lemma FieldsOrderFromMonth(due: DateTime, now: Instant)
    ensures var (d, n) := (due, now.at);
      TupleLess(Fields(due, 0, 0)[1..], Fields(now.at, now.second, now.microsecond)[1..])
      <==> d.month < n.month || (d.month == n.month && (
           d.day < n.day || (d.day == n.day && (
           d.hour < n.hour || (d.hour == n.hour && (
           d.minute < n.minute || (d.minute == n.minute && (now.second > 0 || now.microsecond > 0))))))))
  {
    var a := Fields(due, 0, 0);
    var b := Fields(now.at, now.second, now.microsecond);
    var (d, n) := (due, now.at);
    var l6 := 0 < now.microsecond;
    var l5 := 0 < now.second || (now.second == 0 && l6);
    var l4 := d.minute < n.minute || (d.minute == n.minute && l5);
    var l3 := d.hour < n.hour || (d.hour == n.hour && l4);
    var l2 := d.day < n.day || (d.day == n.day && l3);
    assert TupleLess(a[6..], b[6..]) == l6 by {
      assert a[6..] == [0] && b[6..] == [now.microsecond];
      assert a[6..][1..] == [];
    }
    assert TupleLess(a[5..], b[5..]) == l5 by {
      assert a[5..][0] == 0 && b[5..][0] == now.second;
      assert a[5..][1..] == a[6..] && b[5..][1..] == b[6..];
    }
    assert TupleLess(a[4..], b[4..]) == l4 by {
      assert a[4..][0] == d.minute && b[4..][0] == n.minute;
      assert a[4..][1..] == a[5..] && b[4..][1..] == b[5..];
    }
    assert TupleLess(a[3..], b[3..]) == l3 by {
      assert a[3..][0] == d.hour && b[3..][0] == n.hour;
      assert a[3..][1..] == a[4..] && b[3..][1..] == b[4..];
    }
    assert TupleLess(a[2..], b[2..]) == l2 by {
      assert a[2..][0] == d.day && b[2..][0] == n.day;
      assert a[2..][1..] == a[3..] && b[2..][1..] == b[3..];
    }
    assert a[1..][1..] == a[2..] && b[1..][1..] == b[2..];
  }

  predicate IsDigit(c: char) {
    '0' <= c <= '9'
  }

  function DigitChar(k: nat): (c: char)
    requires k < 10
    ensures IsDigit(c)
  {
    ('0' as int + k) as char
  }

  /** A two-digit, zero-padded decimal field, as `%m`, `%d`, `%y`, `%I` and
      `%M` print it. */
  function Pad2(n: nat): (r: string)
    requires n < 100
    ensures |r| == 2 && IsDigit(r[0]) && IsDigit(r[1])
  {
    [DigitChar(n / 10), DigitChar(n % 10)]
  }

  /** The two-digit field at `s[i..i+2]`, if both characters are digits. */
  function Field(s: string, i: nat): (r: Option<nat>)
    requires i + 2 <= |s|
    ensures r.Some? ==> r.value < 100 && Pad2(r.value) == s[i..i + 2]
    ensures r.None? ==> !IsDigit(s[i]) || !IsDigit(s[i + 1])
  {
    if IsDigit(s[i]) && IsDigit(s[i + 1]) then
      Some((s[i] as int - '0' as int) * 10 + (s[i + 1] as int - '0' as int))
    else
      None
  }

  lemma FieldOfPad2(n: nat, s: string, i: nat)
    requires n < 100 && i + 2 <= |s| && s[i..i + 2] == Pad2(n)
    ensures Field(s, i) == Some(n)
  {
    assert s[i] == s[i..i + 2][0] && s[i + 1] == s[i..i + 2][1];
  }

  /** `%y`: two-digit years 00-68 are 2000-2068, 69-99 are 1969-1999. */
  function PivotYear(yy: nat): (year: int)
    requires yy < 100
    ensures 1969 <= year <= 2068 && year % 100 == yy
  {
    if yy <= 68 then 2000 + yy else 1900 + yy
  }

  /** `%I` with `%p`: 12 AM is hour 0, 12 PM is hour 12, any other PM hour
      gains 12. */
  function To24(hour12: int, pm: bool): (hour: int)
    requires 1 <= hour12 <= 12
    ensures 0 <= hour < 24 && (hour < 12 <==> !pm)
    ensures hour == hour12 || hour == hour12 + 12 || hour == hour12 - 12
  {
    if !pm then (if hour12 == 12 then 0 else hour12)
    else (if hour12 == 12 then 12 else hour12 + 12)
  }

  /** `%I` when printing: the hour on a 12-hour clock, where 0 and 12 read 12. */
  function To12(hour: int): (hour12: int)
    requires 0 <= hour < 24
    ensures 1 <= hour12 <= 12
    ensures hour12 == hour || hour12 == hour - 12 || hour12 == hour + 12
    ensures To24(hour12, hour >= 12) == hour
  {
    if hour % 12 == 0 then 12 else hour % 12
  }

  /** `strftime("%m/%d/%y %I:%M %p")`. */
  function Format(d: DateTime): (r: string)
    requires Valid(d)
    ensures |r| == 17
    ensures forall i | 0 <= i < |r| :: r[i] != '(' && r[i] != ')' && r[i] != '\n'
  {
    Pad2(d.month) + "/" + Pad2(d.day) + "/" + Pad2(d.year % 100) + " "
      + Pad2(To12(d.hour)) + ":" + Pad2(d.minute) + " "
      + (if d.hour < 12 then "AM" else "PM")
  }

  /** `strptime(s, "%m/%d/%y %I:%M %p")` on the strict canonical form:
      `None` where Python raises `ValueError` (a malformed field, a month,
      hour or minute out of range, or a day the month does not have). */
  function Parse(s: string): (r: Option<DateTime>)
    ensures r.Some? ==> Valid(r.value) && 1969 <= r.value.year <= 2068
    ensures r.Some? ==> |s| == 17
  {
    if |s| != 17 || s[2] != '/' || s[5] != '/' || s[8] != ' ' || s[11] != ':' || s[14] != ' '
       || !(s[15] in "AP") || s[16] != 'M'
    then None
    else
      match (Field(s, 0), Field(s, 3), Field(s, 6), Field(s, 9), Field(s, 12))
      case (Some(month), Some(day), Some(yy), Some(hour12), Some(minute)) =>
        var year := PivotYear(yy);
        if 1 <= month <= 12 && 1 <= day <= DaysInMonth(year, month) && 1 <= hour12 <= 12 && minute <= 59
        then Some(DateTime(year, month, day, To24(hour12, s[15] == 'P'), minute))
        else None
      case _ => None
  }

  /** Where each field sits in the formatted text. */
  lemma FormatLayout(d: DateTime)
    requires Valid(d)
    ensures var s := Format(d);
      && s[0..2] == Pad2(d.month) && s[2] == '/'
      && s[3..5] == Pad2(d.day) && s[5] == '/'
      && s[6..8] == Pad2(d.year % 100) && s[8] == ' '
      && s[9..11] == Pad2(To12(d.hour)) && s[11] == ':'
      && s[12..14] == Pad2(d.minute) && s[14] == ' '
      && s[15] == (if d.hour < 12 then 'A' else 'P') && s[16] == 'M'
  {
  }

  lemma PivotYearOfTwoDigits(year: int)
    requires 1969 <= year <= 2068
    ensures PivotYear(year % 100) == year
  {
    if year < 2000 {
      assert year % 100 == year - 1900;
    } else {
      assert year % 100 == year - 2000;
    }
  }

  /** Formatting and then parsing gives back the same time, for every time
      whose year the two-digit pivot can express. */
  lemma ParseFormat(d: DateTime)
    requires Valid(d) && 1969 <= d.year <= 2068
    ensures Parse(Format(d)) == Some(d)
  {
    var s := Format(d);
    FormatLayout(d);
    FieldOfPad2(d.month, s, 0);
    FieldOfPad2(d.day, s, 3);
    FieldOfPad2(d.year % 100, s, 6);
    FieldOfPad2(To12(d.hour), s, 9);
    FieldOfPad2(d.minute, s, 12);
    PivotYearOfTwoDigits(d.year);
  }

  /** Every text `Parse` accepts is exactly the text `Format` prints for the
      parsed value: the canonical form round-trips character for character. */
  lemma FormatParse(s: string)
    requires Parse(s).Some?
    ensures Format(Parse(s).value) == s
  {
    var d := Parse(s).value;
    var f := Format(d);
    FormatLayout(d);
    assert f[0..2] == s[0..2] && f[3..5] == s[3..5] && f[6..8] == s[6..8];
    assert f[9..11] == s[9..11] && f[12..14] == s[12..14];
    forall i | 0 <= i < 17 ensures f[i] == s[i] {
      if i < 2 { assert f[i] == f[0..2][i]; assert s[i] == s[0..2][i]; }
      else if 3 <= i < 5 { assert f[i] == f[3..5][i - 3]; assert s[i] == s[3..5][i - 3]; }
      else if 6 <= i < 8 { assert f[i] == f[6..8][i - 6]; assert s[i] == s[6..8][i - 6]; }
      else if 9 <= i < 11 { assert f[i] == f[9..11][i - 9]; assert s[i] == s[9..11][i - 9]; }
      else if 12 <= i < 14 { assert f[i] == f[12..14][i - 12]; assert s[i] == s[12..14][i - 12]; }
    }
  }
}
