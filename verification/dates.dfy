/** The calendar arithmetic the page gets from the JavaScript `Date`
    object, in the proleptic Gregorian calendar and local wall-clock time:
    month lengths, the weekday a month starts on, the day-of-month overflow
    of `new Date(y, m, d)` and `setMonth`, and the `YYYY-MM-DDTHH:mm` text
    the two date filters hold. */
module Dates {
  import opened Wrappers
  import opened Text

  /** A calendar day as the `Date` getters report it: the full year, the
      month counted from 0 (as `getMonth`) and the day of the month from 1. */
  datatype Date = Date(year: int, month: int, day: int)

  /** A local wall-clock time to the millisecond. */
  datatype DateTime = DateTime(date: Date, hour: int, minute: int, second: int, milli: int)

  predicate IsLeapYear(y: int) {
    (y % 4 == 0 && y % 100 != 0) || y % 400 == 0
  }

  function DaysInMonth(y: int, m: int): (n: int)
    requires 0 <= m < 12
    ensures 28 <= n <= 31
  {
    if m == 1 then (if IsLeapYear(y) then 29 else 28)
    else if m == 3 || m == 5 || m == 8 || m == 10 then 30
    else 31
  }

  predicate ValidDate(d: Date) {
    0 <= d.month < 12 && 1 <= d.day <= DaysInMonth(d.year, d.month)
  }

  /** Count of leap years in [0, y), negative for negative y. */
  function LeapYearsBefore(y: int): int {
    (y + 3) / 4 - (y + 99) / 100 + (y + 399) / 400
  }

  /** Days of year y before the first of month m. */
  function DaysBeforeMonth(y: int, m: int): int
    requires 0 <= m < 12
  {
    [0, 31, 59, 90, 120, 151, 181, 212, 243, 273, 304, 334][m]
      + (if m >= 2 && IsLeapYear(y) then 1 else 0)
  }

  /** Days from 1 January of year 0 to d. */
  function DayNumber(d: Date): int
    requires 0 <= d.month < 12
  {
    365 * d.year + LeapYearsBefore(d.year) + DaysBeforeMonth(d.year, d.month) + d.day - 1
  }

  /** `getDay()`: 0 for Sunday through 6 for Saturday; 1 January of year 0
      was a Saturday. */
  function Weekday(d: Date): (w: int)
    requires 0 <= d.month < 12
    ensures 0 <= w < 7
  {
    (DayNumber(d) + 6) % 7
  }

  /** The first day of the month after (y, m). */
  function FirstOfNextMonth(y: int, m: int): (r: Date)
    requires 0 <= m < 12
    ensures ValidDate(r) && r.day == 1
  {
    if m == 11 then Date(y + 1, 0, 1) else Date(y, m + 1, 1)
  }

  /** One more year passes one more leap year exactly when y is a leap year. */
  lemma LeapYearsStep(y: int)
    ensures LeapYearsBefore(y + 1) == LeapYearsBefore(y) + (if IsLeapYear(y) then 1 else 0)
  {
    var d4, d100, d400 := (y + 4) / 4 - (y + 3) / 4, (y + 100) / 100 - (y + 99) / 100, (y + 400) / 400 - (y + 399) / 400;
    StepOf4(y);
    StepOf100(y);
    StepOf400(y);
    assert LeapYearsBefore(y + 1) == LeapYearsBefore(y) + d4 - d100 + d400;
    DivisorsOf400(y);
  }

  /** A multiple of 400 is one of 100, and a multiple of 100 one of 4. */
  lemma DivisorsOf400(y: int)
    ensures y % 400 == 0 ==> y % 100 == 0
    ensures y % 100 == 0 ==> y % 4 == 0
  {
    var q4, q100, q400 := y / 4, y / 100, y / 400;
    var r4, r100, r400 := y % 4, y % 100, y % 400;
    assert y == 4 * q4 + r4 && 0 <= r4 < 4;
    assert y == 100 * q100 + r100 && 0 <= r100 < 100;
    assert y == 400 * q400 + r400 && 0 <= r400 < 400;
    if r400 == 0 {
      assert 100 * (q100 - 4 * q400) == - r100;
    }
    if r100 == 0 {
      assert 4 * (q4 - 25 * q100) == - r4;
    }
  }

  /** The count of multiples of 4 below y moves by one exactly at them. */
  lemma StepOf4(y: int)
    ensures (y + 4) / 4 - (y + 3) / 4 == (if y % 4 == 0 then 1 else 0)
  {
    var q, r := y / 4, y % 4;
    assert y == 4 * q + r;
    assert (y + 4) / 4 == q + 1;
    assert (y + 3) / 4 == if r == 0 then q else q + 1;
  }

  /** The count of multiples of 100 below y moves by one exactly at them. */
  lemma StepOf100(y: int)
    ensures (y + 100) / 100 - (y + 99) / 100 == (if y % 100 == 0 then 1 else 0)
  {
    var q, r := y / 100, y % 100;
    assert y == 100 * q + r;
    assert (y + 100) / 100 == q + 1;
    assert (y + 99) / 100 == if r == 0 then q else q + 1;
  }

  /** The count of multiples of 400 below y moves by one exactly at them. */
  lemma StepOf400(y: int)
    ensures (y + 400) / 400 - (y + 399) / 400 == (if y % 400 == 0 then 1 else 0)
  {
    var q, r := y / 400, y % 400;
    assert y == 400 * q + r;
    assert (y + 400) / 400 == q + 1;
    assert (y + 399) / 400 == if r == 0 then q else q + 1;
  }

  /** A month is as long as the distance to the next month's first day;
      this is what `new Date(y, m + 1, 0).getDate()` reads off. */
  lemma MonthLength(y: int, m: int)
    requires 0 <= m < 12
    ensures DayNumber(FirstOfNextMonth(y, m)) == DayNumber(Date(y, m, 1)) + DaysInMonth(y, m)
  {
    if m == 11 {
      LeapYearsStep(y);
    }
  }

  /** The weekday of the next month's first day follows from this month's
      first weekday and length. */
  lemma NextMonthWeekday(y: int, m: int)
    requires 0 <= m < 12
    ensures Weekday(FirstOfNextMonth(y, m)) == (Weekday(Date(y, m, 1)) + DaysInMonth(y, m)) % 7
  {
    MonthLength(y, m);
    var a := DayNumber(Date(y, m, 1)) + 6;
    ModSevenShift(a, DaysInMonth(y, m));
  }

  lemma ModSevenShift(a: int, b: int)
    ensures (a + b) % 7 == (a % 7 + b) % 7
  {
    var q := a / 7;
    assert a == 7 * q + a % 7;
    assert a + b == 7 * q + (a % 7 + b);
  }

  /** 1 January 1970, the epoch of `Date`, was a Thursday. */
  lemma EpochIsThursday()
    ensures Weekday(Date(1970, 0, 1)) == 4
  {
  }

  /** `new Date(y, m, d)` (and `setMonth(m)` on a date whose day is d) for a
      day between 1 and 31: a month outside 0..11 carries into the year, and
      a day past the end of the month runs on into the next month. The
      result is the day d - 1 days after the first of the normalised month. */
  function MakeDate(y: int, m: int, d: int): (r: Date)
    requires 1 <= d <= 31
    ensures ValidDate(r)
    ensures DayNumber(r) == DayNumber(Date(y + m / 12, m % 12, 1)) + d - 1
  {
    var y' := y + m / 12;
    var m' := m % 12;
    var n := DaysInMonth(y', m');
    if d <= n then Date(y', m', d)
    else
      MonthLength(y', m');
      var next := FirstOfNextMonth(y', m');
      Date(next.year, next.month, d - n)
  }

  /** The year `new Date(y, m, d)` counts from: a year 0..99 is read as
      1900 + y (section 21.4.2.1 of ECMA-262), any other year as itself. */
  function JsYear(y: int): (r: int)
    ensures 0 <= y <= 99 ==> r == 1900 + y
    ensures !(0 <= y <= 99) ==> r == y
  {
    if 0 <= y <= 99 then 1900 + y else y
  }

  /** `new Date(y, m, d)`: MakeDate on the year as the constructor reads it. */
  function NewDate(y: int, m: int, d: int): (r: Date)
    requires 1 <= d <= 31
    ensures ValidDate(r)
    ensures 0 <= m < 12 && d <= DaysInMonth(JsYear(y), m) ==> r == Date(JsYear(y), m, d)
    ensures DayNumber(r) == DayNumber(Date(JsYear(y) + m / 12, m % 12, 1)) + d - 1
  {
    var r := MakeDate(JsYear(y), m, d);
    if 0 <= m < 12 && d <= DaysInMonth(JsYear(y), m) then
      MakeDateOfValid(Date(JsYear(y), m, d));
      r
    else
      r
  }

  /** A valid date names itself: `new Date(y, m, d)` with in-range values is
      that day. */
  lemma MakeDateOfValid(d: Date)
    requires ValidDate(d)
    ensures MakeDate(d.year, d.month, d.day) == d
  {
  }

  /** `setMonth(m)`: the same day of the month in month m, running on into
      the month after when that month is shorter. */
  function SetMonth(d: Date, m: int): (r: Date)
    requires ValidDate(d)
    ensures ValidDate(r)
  {
    MakeDate(d.year, m, d.day)
  }

  // ------------------------------------------------------------------
  // Local ISO text: `new Date(t - offset).toISOString()` and `new Date(s)`
  // ------------------------------------------------------------------

  /** A wall-clock time within the four-digit years `toISOString` writes
      without a sign. */
  predicate ValidDateTime(t: DateTime) {
    ValidDate(t.date) && 0 <= t.date.year <= 9999
    && 0 <= t.hour < 24 && 0 <= t.minute < 60 && 0 <= t.second < 60 && 0 <= t.milli < 1000
  }

  /** `setHours(0, 0, 0, 0)`. */
  function StartOfDay(d: Date): DateTime {
    DateTime(d, 0, 0, 0, 0)
  }

  /** `setHours(23, 59, 59, 999)`. */
  function EndOfDay(d: Date): DateTime {
    DateTime(d, 23, 59, 59, 999)
  }

  /** The time with its seconds and milliseconds dropped. */
  function ToMinute(t: DateTime): DateTime {
    DateTime(t.date, t.hour, t.minute, 0, 0)
  }

  /** The local time as `YYYY-MM-DDTHH:mm` (the ISO text shifted by the
      zone offset, cut after the minutes). */
  function FormatMinutes(t: DateTime): (s: string)
    requires ValidDateTime(t)
    ensures |s| == 16
  {
    PadDigits(t.date.year, 4) + "-" + PadDigits(t.date.month + 1, 2) + "-" + PadDigits(t.date.day, 2)
      + "T" + PadDigits(t.hour, 2) + ":" + PadDigits(t.minute, 2)
  }

  /** The local time as `YYYY-MM-DDTHH:mm:ss.sss`, the full text before the
      zone designator. */
  function FormatMillis(t: DateTime): (s: string)
    requires ValidDateTime(t)
    ensures |s| == 23
  {
    FormatMinutes(t) + ":" + PadDigits(t.second, 2) + "." + PadDigits(t.milli, 3)
  }

  /** The number written by the w characters of s from i, when they are all digits. */
  function DigitField(s: string, i: nat, w: nat): (r: Option<nat>)
    requires i + w <= |s|
    ensures r.Some? <==> AllDigits(s[i..i + w])
  {
    if AllDigits(s[i..i + w]) then Some(ParseDigits(s[i..i + w])) else None
  }

  /** `new Date(s)` for the local date-time forms `YYYY-MM-DDTHH:mm`,
      `YYYY-MM-DDTHH:mm:ss` and `YYYY-MM-DDTHH:mm:ss.sss`; anything else,
      and out-of-range fields, give an invalid date (None). */
  function ParseLocal(s: string): (r: Option<DateTime>)
    ensures r.Some? ==> ValidDateTime(r.value)
    ensures r.Some? ==> |s| == 16 || |s| == 19 || |s| == 23
  {
    if !(|s| == 16 || |s| == 19 || |s| == 23) then None
    else if s[4] != '-' || s[7] != '-' || s[10] != 'T' || s[13] != ':' then None
    else if |s| >= 19 && s[16] != ':' then None
    else if |s| == 23 && s[19] != '.' then None
    else
      var year :- DigitField(s, 0, 4);
      var month :- DigitField(s, 5, 2);
      var day :- DigitField(s, 8, 2);
      var hour :- DigitField(s, 11, 2);
      var minute :- DigitField(s, 14, 2);
      var second :- if |s| >= 19 then DigitField(s, 17, 2) else Some(0);
      var milli :- if |s| == 23 then DigitField(s, 20, 3) else Some(0);
      var t := DateTime(Date(year, month - 1, day), hour, minute, second, milli);
      if ValidDateTime(t) then Some(t) else None
  }

  /** A field written with PadDigits reads back as its number. */
  lemma DigitFieldOfPad(s: string, i: nat, n: nat, w: nat)
    requires n < Pow10(w) && i + w <= |s| && s[i..i + w] == PadDigits(n, w)
    ensures DigitField(s, i, w) == Some(n)
  {
    ParsePadDigits(n, w);
  }

  /** Five fields joined by '-', '-', 'T' and ':' sit at fixed positions. */
  lemma MinutesLayoutOf(y: string, mo: string, d: string, h: string, mi: string)
    requires |y| == 4 && |mo| == 2 && |d| == 2 && |h| == 2 && |mi| == 2
    ensures var s := y + "-" + mo + "-" + d + "T" + h + ":" + mi;
      |s| == 16
      && s[0..4] == y && s[4] == '-' && s[5..7] == mo && s[7] == '-'
      && s[8..10] == d && s[10] == 'T' && s[11..13] == h && s[13] == ':' && s[14..16] == mi
  {
    var s := y + "-" + mo + "-" + d + "T" + h + ":" + mi;
    assert s[0..4] == y;
    assert s[5..7] == mo;
    assert s[8..10] == d;
    assert s[11..13] == h;
    assert s[14..16] == mi;
  }

  /** The fixed positions of the minute form. */
  lemma FormatMinutesLayout(t: DateTime)
    requires ValidDateTime(t)
    ensures var s := FormatMinutes(t);
      s[0..4] == PadDigits(t.date.year, 4) && s[4] == '-'
      && s[5..7] == PadDigits(t.date.month + 1, 2) && s[7] == '-'
      && s[8..10] == PadDigits(t.date.day, 2) && s[10] == 'T'
      && s[11..13] == PadDigits(t.hour, 2) && s[13] == ':'
      && s[14..16] == PadDigits(t.minute, 2)
  {
    MinutesLayoutOf(PadDigits(t.date.year, 4), PadDigits(t.date.month + 1, 2),
      PadDigits(t.date.day, 2), PadDigits(t.hour, 2), PadDigits(t.minute, 2));
  }

  /** The fields of the minute form, read in turn. */
  lemma ParseLocalOfMinuteFields(s: string, t: DateTime)
    requires ValidDateTime(t) && t.second == 0 && t.milli == 0
    requires |s| == 16 && s[4] == '-' && s[7] == '-' && s[10] == 'T' && s[13] == ':'
    requires DigitField(s, 0, 4) == Some(t.date.year) && DigitField(s, 5, 2) == Some(t.date.month + 1)
    requires DigitField(s, 8, 2) == Some(t.date.day) && DigitField(s, 11, 2) == Some(t.hour)
    requires DigitField(s, 14, 2) == Some(t.minute)
    ensures ParseLocal(s) == Some(t)
  {
  }

  /** Reading back the minute form loses the seconds and milliseconds. */
  lemma ParseFormatMinutes(t: DateTime)
    requires ValidDateTime(t)
    ensures ParseLocal(FormatMinutes(t)) == Some(ToMinute(t))
  {
    assert Pow10(2) == 100 && Pow10(4) == 10000;
    var s := FormatMinutes(t);
    FormatMinutesLayout(t);
    DigitFieldOfPad(s, 0, t.date.year, 4);
    DigitFieldOfPad(s, 5, t.date.month + 1, 2);
    DigitFieldOfPad(s, 8, t.date.day, 2);
    DigitFieldOfPad(s, 11, t.hour, 2);
    DigitFieldOfPad(s, 14, t.minute, 2);
    ParseLocalOfMinuteFields(s, ToMinute(t));
  }

  /** The minute form followed by ':', seconds, '.' and milliseconds. */
  lemma MillisLayoutOf(f: string, sec: string, ms: string)
    requires |f| == 16 && |sec| == 2 && |ms| == 3
    ensures var s := f + ":" + sec + "." + ms;
      |s| == 23 && s[..16] == f && s[16] == ':' && s[17..19] == sec && s[19] == '.' && s[20..23] == ms
      && s[0..4] == f[0..4] && s[4] == f[4] && s[5..7] == f[5..7] && s[7] == f[7]
      && s[8..10] == f[8..10] && s[10] == f[10] && s[11..13] == f[11..13] && s[13] == f[13]
      && s[14..16] == f[14..16]
  {
    var s := f + ":" + sec + "." + ms;
    assert s[..16] == f;
    assert s[17..19] == sec && s[20..23] == ms;
  }

  /** The fixed positions of the millisecond form. */
  lemma FormatMillisLayout(t: DateTime)
    requires ValidDateTime(t)
    ensures var s := FormatMillis(t);
      s[0..4] == PadDigits(t.date.year, 4) && s[4] == '-'
      && s[5..7] == PadDigits(t.date.month + 1, 2) && s[7] == '-'
      && s[8..10] == PadDigits(t.date.day, 2) && s[10] == 'T'
      && s[11..13] == PadDigits(t.hour, 2) && s[13] == ':'
      && s[14..16] == PadDigits(t.minute, 2) && s[16] == ':'
      && s[17..19] == PadDigits(t.second, 2) && s[19] == '.'
      && s[20..23] == PadDigits(t.milli, 3)
  {
    FormatMinutesLayout(t);
    MillisLayoutOf(FormatMinutes(t), PadDigits(t.second, 2), PadDigits(t.milli, 3));
  }

  /** The fields of the millisecond form, read in turn. */
  lemma ParseLocalOfMilliFields(s: string, t: DateTime)
    requires ValidDateTime(t)
    requires |s| == 23 && s[4] == '-' && s[7] == '-' && s[10] == 'T' && s[13] == ':' && s[16] == ':' && s[19] == '.'
    requires DigitField(s, 0, 4) == Some(t.date.year) && DigitField(s, 5, 2) == Some(t.date.month + 1)
    requires DigitField(s, 8, 2) == Some(t.date.day) && DigitField(s, 11, 2) == Some(t.hour)
    requires DigitField(s, 14, 2) == Some(t.minute) && DigitField(s, 17, 2) == Some(t.second)
    requires DigitField(s, 20, 3) == Some(t.milli)
    ensures ParseLocal(s) == Some(t)
  {
  }

  /** Reading back the millisecond form gives the time exactly. */
  lemma ParseFormatMillis(t: DateTime)
    requires ValidDateTime(t)
    ensures ParseLocal(FormatMillis(t)) == Some(t)
  {
    assert Pow10(2) == 100 && Pow10(3) == 1000 && Pow10(4) == 10000;
    var s := FormatMillis(t);
    FormatMillisLayout(t);
    DigitFieldOfPad(s, 0, t.date.year, 4);
    DigitFieldOfPad(s, 5, t.date.month + 1, 2);
    DigitFieldOfPad(s, 8, t.date.day, 2);
    DigitFieldOfPad(s, 11, t.hour, 2);
    DigitFieldOfPad(s, 14, t.minute, 2);
    DigitFieldOfPad(s, 17, t.second, 2);
    DigitFieldOfPad(s, 20, t.milli, 3);
    ParseLocalOfMilliFields(s, t);
  }
}
