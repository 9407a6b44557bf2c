/** js/components/calendarComponent.js: the date filters, the "today"
    button, the month grid with its day clicks, and month navigation. The
    clock reading (`new Date()`) is an input. */
module Calendar {
  import opened Wrappers
  import opened Dates
  import opened AppState

  // ------------------------------------------------------------------
  // Filter text
  // ------------------------------------------------------------------

  /** `setFilterDates(start, end)`: each input gets its local time as
      `toISOString().slice(0, 16)`, that is, cut after the minutes. */
  function SetFilterDates(s: State, start: DateTime, end: DateTime): (r: State)
    requires ValidDateTime(start) && ValidDateTime(end)
    ensures ParseLocal(r.filterStart) == Some(ToMinute(start))
    ensures ParseLocal(r.filterEnd) == Some(ToMinute(end))
    ensures r.(filterStart := s.filterStart, filterEnd := s.filterEnd) == s
  {
    ParseFormatMinutes(start);
    ParseFormatMinutes(end);
    s.(filterStart := FormatMinutes(start), filterEnd := FormatMinutes(end))
  }

  /** The end of a day, written by SetFilterDates, reads back as 23:59:00.000:
      the last minute of the day falls outside the window the page asks for. */
  lemma EndOfDayFilterLosesLastMinute(s: State, d: Date)
    requires ValidDate(d) && 0 <= d.year <= 9999
    ensures var r := SetFilterDates(s, StartOfDay(d), EndOfDay(d));
      && ParseLocal(r.filterStart) == Some(StartOfDay(d))
      && ParseLocal(r.filterEnd) == Some(DateTime(d, 23, 59, 0, 0))
      && ParseLocal(r.filterEnd) != Some(EndOfDay(d))
  {
  }

  /** The filter text written to the millisecond, so that it reads back as
      exactly the time given. */
  function SetFilterDatesExact(s: State, start: DateTime, end: DateTime): (r: State)
    requires ValidDateTime(start) && ValidDateTime(end)
    ensures ParseLocal(r.filterStart) == Some(start)
    ensures ParseLocal(r.filterEnd) == Some(end)
    ensures r.(filterStart := s.filterStart, filterEnd := s.filterEnd) == s
  {
    ParseFormatMillis(start);
    ParseFormatMillis(end);
    s.(filterStart := FormatMillis(start), filterEnd := FormatMillis(end))
  }

  /** The two writers agree wherever the seconds and milliseconds are zero,
      so only the end-of-day bound is affected. */
  lemma ExactAgreesOnWholeMinutes(s: State, start: DateTime, end: DateTime)
    requires ValidDateTime(start) && ValidDateTime(end)
    ensures ParseLocal(SetFilterDatesExact(s, start, end).filterStart)
      == (if start.second == 0 && start.milli == 0 then ParseLocal(SetFilterDates(s, start, end).filterStart) else Some(start))
    ensures ParseLocal(SetFilterDatesExact(s, start, end).filterEnd)
      == (if end.second == 0 && end.milli == 0 then ParseLocal(SetFilterDates(s, start, end).filterEnd) else Some(end))
  {
  }

  // ------------------------------------------------------------------
  // Today and day clicks
  // ------------------------------------------------------------------

  /** The state after a calendar action, and whether it fetches the
      recordings afterwards. */
  datatype Step = Step(state: State, refresh: bool)

  /** `setToday()`: the window becomes the whole of today and today becomes
      the selected day; the recordings are fetched when a channel is
      current. The month the calendar shows does not change. */
  function SetToday(s: State, now: DateTime): (r: Step)
    requires ValidDateTime(now)
    ensures r.state.selectedDate == now.date
    ensures ParseLocal(r.state.filterStart) == Some(StartOfDay(now.date))
    ensures ParseLocal(r.state.filterEnd) == Some(DateTime(now.date, 23, 59, 0, 0))
    ensures r.state.calendarDate == s.calendarDate
    ensures r.refresh <==> s.currentChannel.Some?
    ensures r.state.(filterStart := s.filterStart, filterEnd := s.filterEnd, selectedDate := s.selectedDate) == s
  {
    var t := SetFilterDates(s, StartOfDay(now.date), EndOfDay(now.date));
    Step(t.(selectedDate := now.date), s.currentChannel.Some?)
  }

  /** A click on day `day` of the month shown: `new Date(year, month, day)`
      becomes selected and the window becomes the whole of it. Only the
      days of the grid have a cell to click. For a shown year 0..99 the
      constructor reads the year as 1900 + year, so the day selected lies
      in that later year. */
  function DayClick(s: State, day: int): (r: Step)
    requires ValidDate(s.calendarDate) && 0 <= s.calendarDate.year <= 9999
    requires 1 <= day <= DaysInMonth(JsYear(s.calendarDate.year), s.calendarDate.month)
    ensures r.state.selectedDate == Date(JsYear(s.calendarDate.year), s.calendarDate.month, day)
    ensures 100 <= s.calendarDate.year ==> r.state.selectedDate == Date(s.calendarDate.year, s.calendarDate.month, day)
    ensures ParseLocal(r.state.filterStart) == Some(StartOfDay(r.state.selectedDate))
    ensures ParseLocal(r.state.filterEnd) == Some(DateTime(r.state.selectedDate, 23, 59, 0, 0))
    ensures r.refresh <==> s.currentChannel.Some?
    ensures r.state.(filterStart := s.filterStart, filterEnd := s.filterEnd, selectedDate := s.selectedDate) == s
  {
    var c := s.calendarDate;
    var d := NewDate(c.year, c.month, day);
    var t := SetFilterDates(s, StartOfDay(d), EndOfDay(d));
    Step(t.(selectedDate := d), s.currentChannel.Some?)
  }

  /** Clicking the day that "today" selected gives the same window and
      selection as the "today" button. */
  lemma DayClickOnTodayIsSetToday(s: State, now: DateTime)
    requires ValidDateTime(now) && now.date.year >= 100
    requires s.calendarDate.year == now.date.year && s.calendarDate.month == now.date.month
    requires ValidDate(s.calendarDate)
    ensures DayClick(s, now.date.day) == SetToday(s, now)
  {
  }

  /** In a year 0..99 the cell marked today selects another day than the
      "today" button: the same day and month 1900 years later. */
  lemma DayClickTwoDigitYear(s: State, now: DateTime)
    requires ValidDateTime(now) && now.date.year <= 99
    requires s.calendarDate.year == now.date.year && s.calendarDate.month == now.date.month
    requires ValidDate(s.calendarDate)
    requires now.date.day <= DaysInMonth(1900 + now.date.year, now.date.month)
    ensures DayClick(s, now.date.day).state.selectedDate == Date(1900 + now.date.year, now.date.month, now.date.day)
    ensures DayClick(s, now.date.day).state.selectedDate != SetToday(s, now).state.selectedDate
  {
  }

  // ------------------------------------------------------------------
  // The month grid
  // ------------------------------------------------------------------

  /** A grid cell: a blank before the first, or a day with its marks. */
  datatype Cell = Blank | Day(day: int, today: bool, active: bool)

  /** `renderCalendar()`: as many blanks as the weekday of the first, then
      every day of the month; a day is marked as today and as active when
      it is that date. The first and the length come from
      `new Date(year, month, ...)`, which reads a year 0..99 as 1900 +
      year; the marks compare with the year as shown. */
  function Grid(shown: Date, today: Date, selected: Date): (cells: seq<Cell>)
    requires 0 <= shown.month < 12
    ensures var first := Weekday(Date(JsYear(shown.year), shown.month, 1));
      var n := DaysInMonth(JsYear(shown.year), shown.month);
      && |cells| == first + n
      && (forall i | 0 <= i < first :: cells[i] == Blank)
      && forall i | first <= i < |cells| ::
        && cells[i].Day? && cells[i].day == i - first + 1
        && (cells[i].active <==> selected == Date(shown.year, shown.month, cells[i].day))
        && (cells[i].today <==> today == Date(shown.year, shown.month, cells[i].day))
  {
    var first := Weekday(Date(JsYear(shown.year), shown.month, 1));
    var n := DaysInMonth(JsYear(shown.year), shown.month);
    seq(first, _ => Blank)
      + seq(n, k requires 0 <= k < n =>
          Day(k + 1, today == Date(shown.year, shown.month, k + 1), selected == Date(shown.year, shown.month, k + 1)))
  }

  /** Every day sits in the column of its weekday (Sunday first), at most
      one day is active, and the grid never needs more than six rows. */
  lemma GridColumns(shown: Date, today: Date, selected: Date)
    requires 0 <= shown.month < 12
    ensures var cells := Grid(shown, today, selected);
      var y := JsYear(shown.year);
      var first := Weekday(Date(y, shown.month, 1));
      && (forall i | first <= i < |cells| :: i % 7 == Weekday(Date(y, shown.month, cells[i].day)))
      && (forall i, j | 0 <= i < j < |cells| :: !(cells[i].Day? && cells[i].active && cells[j].Day? && cells[j].active))
      && |cells| <= 42
  {
    var cells := Grid(shown, today, selected);
    var y := JsYear(shown.year);
    var first := Weekday(Date(y, shown.month, 1));
    forall i | first <= i < |cells| ensures i % 7 == Weekday(Date(y, shown.month, cells[i].day)) {
      var k := i - first;
      var a := DayNumber(Date(y, shown.month, 1)) + 6;
      assert DayNumber(Date(y, shown.month, k + 1)) + 6 == a + k;
      ModSevenShift(a, k);
      assert a % 7 == first;
    }
    forall i, j | 0 <= i < j < |cells| ensures !(cells[i].Day? && cells[i].active && cells[j].Day? && cells[j].active) {
      if cells[i].Day? && cells[j].Day? {
        assert cells[i].day == i - first + 1 && cells[j].day == j - first + 1;
      }
    }
  }

  // ------------------------------------------------------------------
  // Month navigation
  // ------------------------------------------------------------------

  /** Months counted from January of year 0. */
  function MonthIndex(d: Date): int {
    12 * d.year + d.month
  }

  /** `prevMonth()`: `setMonth(getMonth() - 1)` on the date shown. */
  function PrevMonth(d: Date): (r: Date)
    requires ValidDate(d)
    ensures ValidDate(r)
    ensures d.day <= 28 ==> MonthIndex(r) == MonthIndex(d) - 1 && r.day == d.day
  {
    MakeDateOfTargetMonth(d, d.month - 1);
    SetMonth(d, d.month - 1)
  }

  /** `nextMonth()`: `setMonth(getMonth() + 1)` on the date shown. */
  function NextMonth(d: Date): (r: Date)
    requires ValidDate(d)
    ensures ValidDate(r)
    ensures d.day <= 28 ==> MonthIndex(r) == MonthIndex(d) + 1 && r.day == d.day
  {
    MakeDateOfTargetMonth(d, d.month + 1);
    SetMonth(d, d.month + 1)
  }

  /** The "previous month" button: only the month shown moves; the
      selected day, the filter window and everything else stay, and
      nothing is fetched. */
  function PrevMonthStep(s: State): (r: Step)
    requires ValidDate(s.calendarDate)
    ensures r.state == s.(calendarDate := PrevMonth(s.calendarDate)) && !r.refresh
    ensures r.state.selectedDate == s.selectedDate
    ensures s.calendarDate.day <= 28 ==> MonthIndex(r.state.calendarDate) == MonthIndex(s.calendarDate) - 1
  {
    Step(s.(calendarDate := PrevMonth(s.calendarDate)), false)
  }

  /** The "next month" button: only the month shown moves, and nothing is
      fetched. */
  function NextMonthStep(s: State): (r: Step)
    requires ValidDate(s.calendarDate)
    ensures r.state == s.(calendarDate := NextMonth(s.calendarDate)) && !r.refresh
    ensures r.state.selectedDate == s.selectedDate
    ensures s.calendarDate.day <= 28 ==> MonthIndex(r.state.calendarDate) == MonthIndex(s.calendarDate) + 1
  {
    Step(s.(calendarDate := NextMonth(s.calendarDate)), false)
  }

  /** setMonth(m) lands in month m itself when the day fits there, and in
      the month after it when it does not. */
  lemma MakeDateOfTargetMonth(d: Date, m: int)
    requires ValidDate(d)
    ensures var t := Date(d.year + m / 12, m % 12, 1);
      var r := MakeDate(d.year, m, d.day);
      && MonthIndex(t) == 12 * d.year + m
      && (d.day <= DaysInMonth(t.year, t.month) ==> r == Date(t.year, t.month, d.day))
      && (d.day > DaysInMonth(t.year, t.month) ==> MonthIndex(r) == MonthIndex(t) + 1 && r.day == d.day - DaysInMonth(t.year, t.month))
  {
  }

  /** On the 31st of January the "next" button skips February: it shows
      March, on day 3 of a common year. */
  lemma NextMonthSkipsFebruary()
    ensures NextMonth(Date(2025, 0, 31)) == Date(2025, 2, 3)
  {
    assert DaysInMonth(2025, 1) == 28 && FirstOfNextMonth(2025, 1) == Date(2025, 2, 1);
    assert SetMonth(Date(2025, 0, 31), 1) == MakeDate(2025, 1, 31) == Date(2025, 2, 3);
  }

  /** On the 31st of March the "previous" button stays in March. */
  lemma PrevMonthStaysInMarch()
    ensures PrevMonth(Date(2025, 2, 31)) == Date(2025, 2, 3)
  {
    assert DaysInMonth(2025, 1) == 28 && FirstOfNextMonth(2025, 1) == Date(2025, 2, 1);
    assert SetMonth(Date(2025, 2, 31), 1) == MakeDate(2025, 1, 31) == Date(2025, 2, 3);
  }

  /** The month before, on its first day. */
  function PrevMonthFirst(d: Date): (r: Date)
    requires 0 <= d.month < 12
    ensures ValidDate(r) && r.day == 1
    ensures MonthIndex(r) == MonthIndex(d) - 1
  {
    if d.month == 0 then Date(d.year - 1, 11, 1) else Date(d.year, d.month - 1, 1)
  }

  /** The month after, on its first day. */
  function NextMonthFirst(d: Date): (r: Date)
    requires 0 <= d.month < 12
    ensures ValidDate(r) && r.day == 1
    ensures MonthIndex(r) == MonthIndex(d) + 1
  {
    FirstOfNextMonth(d.year, d.month)
  }

  /** The two corrected steps undo each other. */
  lemma PrevNextInverse(d: Date)
    requires 0 <= d.month < 12
    ensures PrevMonthFirst(NextMonthFirst(d)) == Date(d.year, d.month, 1)
    ensures NextMonthFirst(PrevMonthFirst(d)) == Date(d.year, d.month, 1)
  {
  }
}
