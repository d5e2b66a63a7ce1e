/**
 * Calendar timestamps and the three `strftime`/`strptime` layouts the core uses:
 * `%Y%m%d%H%M%S` (upload filenames), `%Y-%m-%d %H:%M:%S` and `%Y-%m-%d`
 * (stored dates and the zip file name).
 */
module Dates {
  import opened Options
  import opened Numerals

  /** A naive `datetime` without microseconds (none of the layouts carries them). */
  datatype DateTime = DateTime(year: int, month: int, day: int, hour: int, minute: int, second: int)

  predicate IsLeapYear(y: int) {
    y % 4 == 0 && (y % 100 != 0 || y % 400 == 0)
  }

  function DaysInMonth(y: int, m: int): (n: int)
    requires 1 <= m <= 12
    ensures 28 <= n <= 31
  {
    if m == 2 then (if IsLeapYear(y) then 29 else 28)
    else if m == 4 || m == 6 || m == 9 || m == 11 then 30
    else 31
  }

  /** The values `datetime` accepts (years `MINYEAR` to `MAXYEAR`). */
  predicate Valid(t: DateTime) {
    && 1 <= t.year <= 9999
    && 1 <= t.month <= 12
    && 1 <= t.day <= DaysInMonth(t.year, t.month)
    && 0 <= t.hour < 24
    && 0 <= t.minute < 60
    && 0 <= t.second < 60
  }

  /** The values a Python `datetime` can hold. */
  type Timestamp = t: DateTime | Valid(t) witness DateTime(1, 1, 1, 0, 0, 0)

  /** The `datetime` that `strptime` builds from a date alone: the time fields are zero. */
  function Midnight(t: DateTime): DateTime {
    t.(hour := 0, minute := 0, second := 0)
  }

  function Year(t: DateTime): (s: string) requires Valid(t) { ZeroPad(t.year, 4) }
  function Two(n: nat): (s: string) { ZeroPad(n, 2) }

  /** `strftime('%Y%m%d%H%M%S')`. */
  function FormatCompact(t: DateTime): (s: string)
    requires Valid(t)
    ensures |s| == 14 && AllDigits(s)
  {
    FieldWidths(t);
    Year(t) + Two(t.month) + Two(t.day) + Two(t.hour) + Two(t.minute) + Two(t.second)
  }

  /** `strftime('%Y-%m-%d')`. */
  function FormatDate(t: DateTime): (s: string)
    requires Valid(t)
    ensures |s| == 10
  {
    FieldWidths(t);
    Year(t) + "-" + Two(t.month) + "-" + Two(t.day)
  }

  /** `strftime('%Y-%m-%d %H:%M:%S')`. */
  function FormatDateTime(t: DateTime): (s: string)
    requires Valid(t)
    ensures |s| == 19 && s[..10] == FormatDate(t)
  {
    FieldWidths(t);
    var s := FormatDate(t) + " " + TimeOfDay(t);
    assert s[..10] == FormatDate(t);
    s
  }

  /** `strftime('%H:%M:%S')`, the time part of the full layout. */
  function TimeOfDay(t: DateTime): (s: string)
    requires Valid(t)
  {
    Two(t.hour) + ":" + Two(t.minute) + ":" + Two(t.second)
  }

  lemma FieldWidths(t: DateTime)
    requires Valid(t)
    ensures |Year(t)| == 4 && DigitsValue(Year(t)) == t.year
    ensures |Two(t.month)| == 2 && DigitsValue(Two(t.month)) == t.month
    ensures |Two(t.day)| == 2 && DigitsValue(Two(t.day)) == t.day
    ensures |Two(t.hour)| == 2 && DigitsValue(Two(t.hour)) == t.hour
    ensures |Two(t.minute)| == 2 && DigitsValue(Two(t.minute)) == t.minute
    ensures |Two(t.second)| == 2 && DigitsValue(Two(t.second)) == t.second
  {
    assert Pow10(2) == 100 && Pow10(4) == 10000;
    ZeroPadRoundTrip(t.year, 4);
    ZeroPadRoundTrip(t.month, 2);
    ZeroPadRoundTrip(t.day, 2);
    ZeroPadRoundTrip(t.hour, 2);
    ZeroPadRoundTrip(t.minute, 2);
    ZeroPadRoundTrip(t.second, 2);
  }

  /** The digits `s[i..i + width]` as a number, or `None` when one of them is not a digit. */
  function Field(s: string, i: nat, width: nat): Option<nat>
    requires i + width <= |s|
  {
    if AllDigits(s[i..i + width]) then Some(DigitsValue(s[i..i + width])) else None
  }

  /** The date fields of `s` laid out as `YYYY-MM-DD`, before range checks. */
  function DateFields(s: string): Option<DateTime>
    requires |s| >= 10
  {
    if s[4] != '-' || s[7] != '-' then None
    else match (Field(s, 0, 4), Field(s, 5, 2), Field(s, 8, 2))
      case (Some(y), Some(m), Some(d)) => Some(DateTime(y, m, d, 0, 0, 0))
      case _ => None
  }

  /**
   * `datetime.strptime(s, '%Y-%m-%d %H:%M:%S')`, strict form: every field has its
   * full width of digits and the whole string must be consumed; `None` where
   * `strptime` raises `ValueError`.
   */
  function ParseDateTime(s: string): (r: Option<DateTime>)
    ensures r.Some? ==> Valid(r.value) && |s| == 19
  {
    if |s| != 19 || s[10] != ' ' || s[13] != ':' || s[16] != ':' then None
    else match (DateFields(s), Field(s, 11, 2), Field(s, 14, 2), Field(s, 17, 2))
      case (Some(date), Some(hh), Some(mm), Some(ss)) =>
        var t := date.(hour := hh, minute := mm, second := ss);
        if Valid(t) then Some(t) else None
      case _ => None
  }

  /** `datetime.strptime(s, '%Y-%m-%d')`, strict form. */
  function ParseDate(s: string): (r: Option<DateTime>)
    ensures r.Some? ==> Valid(r.value) && r.value == Midnight(r.value) && |s| == 10
  {
    if |s| != 10 then None
    else match DateFields(s)
      case Some(t) => if Valid(t) then Some(t) else None
      case None => None
  }

  lemma DateFieldsOfFormat(t: DateTime, s: string)
    requires Valid(t) && |s| >= 10 && s[..10] == FormatDate(t)
    ensures DateFields(s) == Some(Midnight(t))
  {
    FieldWidths(t);
    DashFields(Year(t), Two(t.month), Two(t.day), s);
  }

  /** Where the three parts of `y-m-d` lie in a string that starts with it. */
  lemma DashFields(y: string, m: string, d: string, s: string)
    requires |y| == 4 && |m| == 2 && |d| == 2 && |s| >= 10 && s[..10] == y + "-" + m + "-" + d
    ensures s[4] == '-' && s[7] == '-' && s[0..4] == y && s[5..7] == m && s[8..10] == d
  {
    var date := y + "-" + m + "-" + d;
    assert forall k :: 0 <= k < 10 ==> s[k] == date[k];
    assert s[0] == y[0] && s[1] == y[1] && s[2] == y[2] && s[3] == y[3];
    assert s[5] == m[0] && s[6] == m[1];
    assert s[8] == d[0] && s[9] == d[1];
  }

  /** A formatted timestamp parses back with the first layout. */
  lemma ParseFormatDateTime(t: DateTime)
    requires Valid(t)
    ensures ParseDateTime(FormatDateTime(t)) == Some(t)
  {
    FieldWidths(t);
    var s := FormatDateTime(t);
    var time := TimeOfDay(t);
    DateFieldsOfFormat(t, s);
    TimeOfDayFields(t);
    assert s == FormatDate(t) + " " + time;
    SpaceFields(FormatDate(t), time);
  }

  /** Where the fields of a time lie after a ten-character date and a space. */
  lemma SpaceFields(date: string, time: string)
    requires |date| == 10 && |time| == 8
    ensures var s := date + " " + time;
      && s[10] == ' ' && s[13] == time[2] && s[16] == time[5]
      && s[11..13] == time[0..2] && s[14..16] == time[3..5] && s[17..19] == time[6..8]
  {
    var s := date + " " + time;
    assert s[11..] == time;
  }

  lemma TimeOfDayFields(t: DateTime)
    requires Valid(t)
    ensures var time := TimeOfDay(t);
      && |time| == 8 && time[2] == ':' && time[5] == ':'
      && time[0..2] == Two(t.hour) && time[3..5] == Two(t.minute) && time[6..8] == Two(t.second)
  {
    FieldWidths(t);
    ColonFields(Two(t.hour), Two(t.minute), Two(t.second));
  }

  /** Where the three parts of `a:b:c` lie when each is two characters wide. */
  lemma ColonFields(a: string, b: string, c: string)
    requires |a| == 2 && |b| == 2 && |c| == 2
    ensures var s := a + ":" + b + ":" + c;
      && |s| == 8 && s[2] == ':' && s[5] == ':'
      && s[0..2] == a && s[3..5] == b && s[6..8] == c
  {
    var s := a + ":" + b + ":" + c;
    assert s[0] == a[0] && s[1] == a[1];
    assert s[3] == b[0] && s[4] == b[1];
    assert s[6] == c[0] && s[7] == c[1];
  }

  /** A formatted date parses back with the second layout, at midnight. */
  lemma ParseFormatDate(t: DateTime)
    requires Valid(t)
    ensures ParseDate(FormatDate(t)) == Some(Midnight(t))
  {
    var s := FormatDate(t);
    DateFieldsOfFormat(t, s);
  }
}
