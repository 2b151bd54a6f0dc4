/** `DailyTasksFragment`: the six-week month grid, month and year navigation and the count line
    under the day's task list. */
module DailyTasks {

  import opened Wrappers
  import opened IntMath
  import opened CivilTime
  import opened Text
  import opened Lists
  import opened TaskModel
  import opened DayAdapter

  /** `isSameDay`: equal YEAR, MONTH and DAY_OF_MONTH. */
  predicate IsSameDay(date1: int, date2: int)
  {
    var c1, c2 := CivilOf(date1), CivilOf(date2);
    c1.year == c2.year && c1.month == c2.month && c1.day == c2.day
  }

  /** Two instants are on the same day exactly when their day numbers agree, so `isSameDay` is
      an equivalence whose classes are the days. */
  lemma IsSameDayIffSameDayNumber(date1: int, date2: int)
    ensures IsSameDay(date1, date2) <==> DayNumber(date1) == DayNumber(date2)
  {
    SameDateIffSameDay(date1, date2);
  }

  // ---------------------------------------------------------------------------------------------
  // The month grid as a specification

  /** The first day of the month before the month of (y, m). */
  function PrevMonthFirst(y: int, m: int): (d: Date)
    requires 1 <= m <= 12
    ensures ValidDate(d) && d.day == 1 && NextMonthFirst(d.year, d.month) == Date(y, m, 1)
  {
    if m == 1 then Date(y - 1, 12, 1) else Date(y, m - 1, 1)
  }

  /** What `generateCalendarDays` works from: the first days of the previous, the selected and the
      next month, the number of cells before the 1st, the two month lengths and the time of day. */
  datatype MonthGrid = MonthGrid(prev: Date, month: Date, next: Date, lead: int, prevLength: int,
                                 length: int, tod: int)

  predicate WellShaped(g: MonthGrid)
  {
    1 <= g.prev.month <= 12 && 1 <= g.month.month <= 12 && 1 <= g.next.month <= 12 &&
    0 <= g.lead < 7 && 28 <= g.length <= 31 && 28 <= g.prevLength <= 31 && 0 <= g.tod < 86_400_000
  }

  /** The grid of the selected date's month; the leading cells are DAY_OF_WEEK of the 1st minus
      SUNDAY. */
  function GridOf(selectedDate: int): (g: MonthGrid)
    ensures WellShaped(g)
  {
    var c := CivilOf(selectedDate);
    var p := PrevMonthFirst(c.year, c.month);
    var first := Date(c.year, c.month, 1);
    MonthGrid(p, first, NextMonthFirst(c.year, c.month), Weekday(DaysFromCivil(first)),
              DaysInMonth(p.year, p.month), DaysInMonth(c.year, c.month), TimeOfDay(selectedDate))
  }

  /** The date in cell `k`: the last `lead` days of the previous month, the days of the month,
      then the first days of the next month. */
  function CellDay(g: MonthGrid, k: int): (d: Date)
    requires WellShaped(g)
    ensures 1 <= d.month <= 12
  {
    if k < g.lead then g.prev.(day := g.prevLength - g.lead + k + 1)
    else if k < g.lead + g.length then g.month.(day := k - g.lead + 1)
    else g.next.(day := k - g.lead - g.length + 1)
  }

  /** The cell at index `k` of a grid. */
  function GridCell(g: MonthGrid, now: int, hasTask: int -> bool, k: int): CalendarDay
    requires WellShaped(g)
  {
    var date := AtDate(CellDay(g, k), g.tod);
    CalendarDay(Some(date), g.lead <= k < g.lead + g.length, IsSameDay(date, now), hasTask(date))
  }

  /** The instant shown in cell `k` for a selected date. */
  function CellDate(selectedDate: int, k: int): int
  {
    AtDate(CellDay(GridOf(selectedDate), k), TimeOfDay(selectedDate))
  }

  /** The cell `generateCalendarDays` puts at index `k`. */
  function ExpectedCell(selectedDate: int, now: int, hasTask: int -> bool, k: int): CalendarDay
  {
    GridCell(GridOf(selectedDate), now, hasTask, k)
  }

  /** The day number of the 1st of the selected month. */
  function FirstDay(selectedDate: int): int
  {
    DaysFromCivil(CivilOf(selectedDate).(day := 1))
  }

  // ---------------------------------------------------------------------------------------------
  // Facts about the cells

  /** Going back by a day's weekday lands on a Sunday. */
  lemma SundayOnOrBefore(z: int)
    ensures Weekday(z - Weekday(z)) == 0
  {
    var w := Weekday(z);
    WeekdayShift(z - w, w);
  }

  /** Day `prevLength - i + 1` of the month before (y, m) is `i` days before its 1st. */
  lemma PreviousMonthDay(y: int, m: int, i: int, d: int)
    requires 1 <= m <= 12 && d == DaysInMonth(PrevMonthFirst(y, m).year, PrevMonthFirst(y, m).month) - i + 1
    ensures var p := PrevMonthFirst(y, m);
      DaysFromCivil(Date(p.year, p.month, d)) == DaysFromCivil(Date(y, m, 1)) - i
  {
    var p := PrevMonthFirst(y, m);
    FirstOfNextMonth(p.year, p.month);
    DaysFromCivilShift(p.year, p.month, d, i - 1);
  }

  /** Day `d` of the month after (y, m) is `length + d - 1` days after the 1st of (y, m). */
  lemma NextMonthDay(y: int, m: int, d: int)
    requires 1 <= m <= 12
    ensures var n := NextMonthFirst(y, m);
      DaysFromCivil(Date(n.year, n.month, d)) == DaysFromCivil(Date(y, m, 1)) + DaysInMonth(y, m) + d - 1
  {
    var n := NextMonthFirst(y, m);
    FirstOfNextMonth(y, m);
    DaysFromCivilShift(y, m, 1, DaysInMonth(y, m) - 1);
    DaysFromCivilShift(n.year, n.month, 1, d - 1);
  }

  /** A leading cell: day `d` of the previous month. */
  lemma PreviousCellConsecutive(selectedDate: int, k: int, d: int)
    requires 0 <= k < GridOf(selectedDate).lead
    requires d == GridOf(selectedDate).prevLength - GridOf(selectedDate).lead + k + 1
    ensures var g := GridOf(selectedDate);
      CellDay(g, k) == g.prev.(day := d) &&
      ValidDate(CellDay(g, k)) && DaysFromCivil(CellDay(g, k)) == FirstDay(selectedDate) - g.lead + k
  {
    var c := CivilOf(selectedDate);
    PreviousMonthDay(c.year, c.month, GridOf(selectedDate).lead - k, d);
  }

  /** A cell of the month itself: day `d`. */
  lemma MonthCellConsecutive(selectedDate: int, k: int, d: int)
    requires GridOf(selectedDate).lead <= k < GridOf(selectedDate).lead + GridOf(selectedDate).length
    requires d == k - GridOf(selectedDate).lead + 1
    ensures var g := GridOf(selectedDate);
      CellDay(g, k) == g.month.(day := d) &&
      ValidDate(CellDay(g, k)) && DaysFromCivil(CellDay(g, k)) == FirstDay(selectedDate) - g.lead + k
  {
    var c := CivilOf(selectedDate);
    DaysFromCivilShift(c.year, c.month, 1, d - 1);
  }

  /** A trailing cell: day `d` of the next month. */
  lemma NextCellConsecutive(selectedDate: int, k: int, d: int)
    requires GridOf(selectedDate).lead + GridOf(selectedDate).length <= k < 42
    requires d == k - GridOf(selectedDate).lead - GridOf(selectedDate).length + 1
    ensures var g := GridOf(selectedDate);
      CellDay(g, k) == g.next.(day := d) &&
      ValidDate(CellDay(g, k)) && DaysFromCivil(CellDay(g, k)) == FirstDay(selectedDate) - g.lead + k
  {
    var c := CivilOf(selectedDate);
    NextMonthDay(c.year, c.month, d);
  }

  /** The dates of the 42 cells are valid and consecutive: cell `k` is `k` days after the Sunday
      on or before the 1st of the month. */
  lemma CellDayConsecutive(selectedDate: int, k: int)
    requires 0 <= k < 42
    ensures var g := GridOf(selectedDate);
      ValidDate(CellDay(g, k)) &&
      DaysFromCivil(CellDay(g, k)) == FirstDay(selectedDate) - g.lead + k
  {
    var g := GridOf(selectedDate);
    if k < g.lead {
      PreviousCellConsecutive(selectedDate, k, g.prevLength - g.lead + k + 1);
    } else if k < g.lead + g.length {
      MonthCellConsecutive(selectedDate, k, k - g.lead + 1);
    } else {
      NextCellConsecutive(selectedDate, k, k - g.lead - g.length + 1);
    }
  }

  /** Each cell is on its cell date at the selected time of day, and the 42 cells are 42
      consecutive days. */
  lemma CellDateFields(selectedDate: int, k: int)
    requires 0 <= k < 42
    ensures CivilOf(CellDate(selectedDate, k)) == CellDay(GridOf(selectedDate), k)
    ensures DayNumber(CellDate(selectedDate, k)) == FirstDay(selectedDate) - GridOf(selectedDate).lead + k
    ensures TimeOfDay(CellDate(selectedDate, k)) == TimeOfDay(selectedDate)
  {
    CellDayConsecutive(selectedDate, k);
    AtDateFields(CellDay(GridOf(selectedDate), k), TimeOfDay(selectedDate));
  }

  /** The first cell is a Sunday, on or before the 1st of the month and less than a week before. */
  lemma GridStartsOnSunday(selectedDate: int)
    ensures Weekday(DayNumber(CellDate(selectedDate, 0))) == 0
    ensures FirstDay(selectedDate) - 6 <= DayNumber(CellDate(selectedDate, 0)) <= FirstDay(selectedDate)
  {
    CellDateFields(selectedDate, 0);
    SundayOnOrBefore(FirstDay(selectedDate));
  }

  /** Consecutive cells are consecutive days. */
  lemma NextCellIsNextDay(selectedDate: int, k: int)
    requires 0 <= k < 41
    ensures DayNumber(CellDate(selectedDate, k + 1)) == DayNumber(CellDate(selectedDate, k)) + 1
    ensures TimeOfDay(CellDate(selectedDate, k + 1)) == TimeOfDay(CellDate(selectedDate, k))
  {
    CellDateFields(selectedDate, k);
    CellDateFields(selectedDate, k + 1);
  }

  /** A cell is marked as in the current month exactly when its date is in the selected year
      and month. */
  lemma CurrentMonthExactly(selectedDate: int, now: int, hasTask: int -> bool, k: int)
    requires 0 <= k < 42
    ensures var d := CivilOf(CellDate(selectedDate, k));
      ExpectedCell(selectedDate, now, hasTask, k).isCurrentMonth <==>
        d.year == CivilOf(selectedDate).year && d.month == CivilOf(selectedDate).month
  {
    CellDateFields(selectedDate, k);
  }

  /** The selected date is shown in exactly one cell, the one of its day of month. */
  lemma SelectedDateCell(selectedDate: int, k: int)
    requires 0 <= k < 42
    ensures CivilOf(CellDate(selectedDate, k)) == CivilOf(selectedDate) <==>
      k == GridOf(selectedDate).lead + CivilOf(selectedDate).day - 1
  {
    var c := CivilOf(selectedDate);
    DaysFromCivilShift(c.year, c.month, 1, c.day - 1);
    CellDateFields(selectedDate, k);
    SameDateIffSameDay(CellDate(selectedDate, k), selectedDate);
  }

  /** Selecting the selected date in the generated grid picks its cell of the current month. */
  lemma SelectionInGrid(selectedDate: int, now: int, hasTask: int -> bool, days: seq<CalendarDay>)
    requires |days| == 42 && forall k :: 0 <= k < 42 ==> days[k] == ExpectedCell(selectedDate, now, hasTask, k)
    ensures FirstMatch(days, selectedDate) == GridOf(selectedDate).lead + CivilOf(selectedDate).day - 1
  {
    var target := GridOf(selectedDate).lead + CivilOf(selectedDate).day - 1;
    SelectedDateCell(selectedDate, target);
    assert ShowsDate(days[target], selectedDate);
    var r := FirstMatch(days, selectedDate);
    SelectedDateCell(selectedDate, r);
  }

  // ---------------------------------------------------------------------------------------------
  // Building the grid

  /** `add(MONTH, -1)` on the 1st of a month is the 1st of the previous month. */
  lemma PreviousMonthOfFirst(first: int)
    requires CivilOf(first).day == 1
    ensures CivilOf(AddMonthsTo(first, -1)) == PrevMonthFirst(CivilOf(first).year, CivilOf(first).month)
  {
    var c := CivilOf(first);
    var total := c.year * 12 + c.month - 2;
    if c.month == 1 {
      DivModUnique(total, 12, c.year - 1, 11);
    } else {
      DivModUnique(total, 12, c.year, c.month - 2);
    }
  }

  /** `add(MONTH, 1)` lands in the next month. */
  lemma NextMonthOf(t: int)
    ensures var c := CivilOf(t); var n := NextMonthFirst(c.year, c.month);
      CivilOf(AddMonthsTo(t, 1)).year == n.year && CivilOf(AddMonthsTo(t, 1)).month == n.month
  {
    var c := CivilOf(t);
    var total := c.year * 12 + c.month;
    if c.month == 12 {
      DivModUnique(total, 12, c.year + 1, 0);
    } else {
      DivModUnique(total, 12, c.year, c.month);
    }
  }

  /** `set(DAY_OF_MONTH, day)` with a day the month has keeps the year and the month. */
  lemma SetDayKeepsMonth(t: int, day: int)
    requires 1 <= day <= DaysInMonth(CivilOf(t).year, CivilOf(t).month)
    ensures CivilOf(SetDayOfMonth(t, day)) == CivilOf(t).(day := day)
  {
    var c := CivilOf(t);
    CivilOfDay(SetDayOfMonth(t, day), Date(c.year, c.month, day));
  }

  /** The 1st of the selected month, at the selected time of day, whose DAY_OF_WEEK counts the
      leading cells. */
  lemma MonthFirstFields(selectedDate: int)
    ensures var first := SetDayOfMonth(selectedDate, 1);
      CivilOf(first) == CivilOf(selectedDate).(day := 1) && TimeOfDay(first) == TimeOfDay(selectedDate) &&
      DayOfWeekField(first) - CalendarSunday == GridOf(selectedDate).lead
  {
    SetDayKeepsMonth(selectedDate, 1);
  }

  /** `set(DAY_OF_MONTH, d)` on an instant of a month that has day `d`: the instant of that day
      at the same time of day, still in that month. */
  lemma SetDayIsCell(t: int, y: int, m: int, d: int)
    requires CivilOf(t).year == y && CivilOf(t).month == m && 1 <= d <= DaysInMonth(y, m)
    ensures SetDayOfMonth(t, d) == AtDate(Date(y, m, d), TimeOfDay(t))
    ensures CivilOf(SetDayOfMonth(t, d)).year == y && CivilOf(SetDayOfMonth(t, d)).month == m
    ensures TimeOfDay(SetDayOfMonth(t, d)) == TimeOfDay(t)
  {
    SetDayKeepsMonth(t, d);
  }

  /** Step `i` of the loop over the previous month fills cell `lead - i`. */
  lemma PreviousMonthCell(g: MonthGrid, k: int, day: int)
    requires WellShaped(g) && 0 <= k < g.lead && day == g.prevLength - g.lead + k + 1
    ensures CellDay(g, k) == Date(g.prev.year, g.prev.month, day)
  {
  }

  /** Step `day` of the loop over the month fills cell `lead + day - 1`. */
  lemma MonthCell(g: MonthGrid, k: int, day: int)
    requires WellShaped(g) && 1 <= day <= g.length && k == g.lead + day - 1
    ensures CellDay(g, k) == Date(g.month.year, g.month.month, day)
  {
  }

  /** Step `day` of the loop over the next month fills cell `lead + length + day - 1`. */
  lemma NextMonthCell(g: MonthGrid, k: int, day: int)
    requires WellShaped(g) && 1 <= day && k == g.lead + g.length + day - 1
    ensures CellDay(g, k) == Date(g.next.year, g.next.month, day)
  {
  }

  /** One turn of the loop over the previous month: day `prevLength - i + 1` becomes cell `lead - i`. */
  lemma PreviousDayStep(g: MonthGrid, now: int, hasTask: int -> bool, days: seq<CalendarDay>, t: int, i: int, d: int)
    requires WellShaped(g) && g.prevLength == DaysInMonth(g.prev.year, g.prev.month)
    requires 1 <= i <= g.lead && |days| == g.lead - i && d == g.prevLength - i + 1
    requires forall k :: 0 <= k < |days| ==> days[k] == GridCell(g, now, hasTask, k)
    requires CivilOf(t).year == g.prev.year && CivilOf(t).month == g.prev.month && TimeOfDay(t) == g.tod
    ensures var r := SetDayOfMonth(t, d);
      CivilOf(r).year == g.prev.year && CivilOf(r).month == g.prev.month && TimeOfDay(r) == g.tod &&
      forall k :: 0 <= k < |days| + 1 ==>
        (days + [CalendarDay(Some(r), false, IsSameDay(r, now), hasTask(r))])[k] == GridCell(g, now, hasTask, k)
  {
    SetDayIsCell(t, g.prev.year, g.prev.month, d);
    PreviousMonthCell(g, |days|, d);
    AppendCell(g, now, hasTask, days, SetDayOfMonth(t, d), false);
  }

  /** Appending the instant of the next cell extends a correct prefix of the grid. */
  lemma AppendCell(g: MonthGrid, now: int, hasTask: int -> bool, days: seq<CalendarDay>, date: int, inMonth: bool)
    requires WellShaped(g)
    requires forall k :: 0 <= k < |days| ==> days[k] == GridCell(g, now, hasTask, k)
    requires date == AtDate(CellDay(g, |days|), g.tod) && inMonth == (g.lead <= |days| < g.lead + g.length)
    ensures var cell := CalendarDay(Some(date), inMonth, IsSameDay(date, now), hasTask(date));
      forall k :: 0 <= k < |days| + 1 ==> (days + [cell])[k] == GridCell(g, now, hasTask, k)
  {
  }

  /** The 1st of the selected month counts the leading cells, and a month before it is in the
      previous month at the same time of day. */
  lemma PreviousMonthStart(selectedDate: int)
    ensures var g := GridOf(selectedDate);
      var calendar := SetDayOfMonth(selectedDate, 1);
      var p := AddMonthsTo(calendar, -1);
      DayOfWeekField(calendar) - CalendarSunday == g.lead &&
      CivilOf(p).year == g.prev.year && CivilOf(p).month == g.prev.month && TimeOfDay(p) == g.tod &&
      DaysInMonth(CivilOf(p).year, CivilOf(p).month) == g.prevLength
  {
    MonthFirstFields(selectedDate);
    PreviousMonthOfFirst(SetDayOfMonth(selectedDate, 1));
  }

  /** The first part of `generateCalendarDays`: with the 1st of the month after SUNDAY, the last
      `firstDayOfWeek - SUNDAY` days of the previous month. */
  method AddPreviousMonthDays(ghost selectedDate: int, calendar: int, firstDayOfWeek: int, now: int,
                              hasTask: int -> bool) returns (days: seq<CalendarDay>)
    requires calendar == SetDayOfMonth(selectedDate, 1) && firstDayOfWeek == DayOfWeekField(calendar)
    ensures |days| == GridOf(selectedDate).lead
    ensures forall k :: 0 <= k < |days| ==> days[k] == ExpectedCell(selectedDate, now, hasTask, k)
  {
    ghost var g := GridOf(selectedDate);
    PreviousMonthStart(selectedDate);
    days := [];
    if firstDayOfWeek > CalendarSunday {
      var prevCalendar := AddMonthsTo(calendar, -1);
      var daysInPrevMonth := DaysInMonth(CivilOf(prevCalendar).year, CivilOf(prevCalendar).month);
      var daysToAdd := firstDayOfWeek - CalendarSunday;
      for i := daysToAdd + 1 downto 1
        invariant |days| == daysToAdd - i + 1
        invariant forall k :: 0 <= k < |days| ==> days[k] == GridCell(g, now, hasTask, k)
        invariant CivilOf(prevCalendar).year == g.prev.year && CivilOf(prevCalendar).month == g.prev.month
        invariant TimeOfDay(prevCalendar) == g.tod
      {
        var day := daysInPrevMonth - i + 1;
        PreviousDayStep(g, now, hasTask, days, prevCalendar, i, day);
        prevCalendar := SetDayOfMonth(prevCalendar, day);
        days := days + [CalendarDay(Some(prevCalendar), false, IsSameDay(prevCalendar, now), hasTask(prevCalendar))];
      }
    }
  }

  /** The second part: every day of the month, the calendar left on the last one. */
  method AddCurrentMonthDays(ghost selectedDate: int, calendar: int, today: int, hasTask: int -> bool,
                             days: seq<CalendarDay>) returns (result: seq<CalendarDay>, last: int)
    requires calendar == SetDayOfMonth(selectedDate, 1) && |days| == GridOf(selectedDate).lead
    requires forall k :: 0 <= k < |days| ==> days[k] == ExpectedCell(selectedDate, today, hasTask, k)
    ensures |result| == GridOf(selectedDate).lead + GridOf(selectedDate).length
    ensures forall k :: 0 <= k < |result| ==> result[k] == ExpectedCell(selectedDate, today, hasTask, k)
    ensures CivilOf(last).year == CivilOf(selectedDate).year && CivilOf(last).month == CivilOf(selectedDate).month
    ensures TimeOfDay(last) == TimeOfDay(selectedDate)
  {
    ghost var g := GridOf(selectedDate);
    MonthFirstFields(selectedDate);
    result, last := days, calendar;
    var daysInMonth := DaysInMonth(CivilOf(last).year, CivilOf(last).month);
    for day := 1 to daysInMonth + 1
      invariant |result| == g.lead + day - 1
      invariant forall k :: 0 <= k < |result| ==> result[k] == GridCell(g, today, hasTask, k)
      invariant CivilOf(last).year == g.month.year && CivilOf(last).month == g.month.month
      invariant TimeOfDay(last) == g.tod
    {
      SetDayIsCell(last, g.month.year, g.month.month, day);
      MonthCell(g, |result|, day);
      last := SetDayOfMonth(last, day);
      AppendCell(g, today, hasTask, result, last, true);
      result := result + [CalendarDay(Some(last), true, IsSameDay(last, today), hasTask(last))];
    }
  }

  /** The last part: `add(MONTH, 1)`, `set(DAY_OF_MONTH, 1)`, then the first days of the next month
      up to 42 cells. */
  method AddNextMonthDays(ghost selectedDate: int, calendar: int, today: int, hasTask: int -> bool,
                          days: seq<CalendarDay>) returns (result: seq<CalendarDay>)
    requires |days| == GridOf(selectedDate).lead + GridOf(selectedDate).length
    requires forall k :: 0 <= k < |days| ==> days[k] == ExpectedCell(selectedDate, today, hasTask, k)
    requires CivilOf(calendar).year == CivilOf(selectedDate).year && CivilOf(calendar).month == CivilOf(selectedDate).month
    requires TimeOfDay(calendar) == TimeOfDay(selectedDate)
    ensures |result| == 42
    ensures forall k :: 0 <= k < 42 ==> result[k] == ExpectedCell(selectedDate, today, hasTask, k)
  {
    ghost var g := GridOf(selectedDate);
    result := days;
    var totalDaysAdded := |result|;
    var remainingCells := 42 - totalDaysAdded;
    if remainingCells > 0 {
      var next := calendar;
      NextMonthOf(next);
      next := AddMonthsTo(next, 1);
      SetDayKeepsMonth(next, 1);
      next := SetDayOfMonth(next, 1);
      for day := 1 to remainingCells + 1
        invariant |result| == totalDaysAdded + day - 1
        invariant forall k :: 0 <= k < |result| ==> result[k] == GridCell(g, today, hasTask, k)
        invariant CivilOf(next).year == g.next.year && CivilOf(next).month == g.next.month
        invariant TimeOfDay(next) == g.tod
      {
        SetDayIsCell(next, g.next.year, g.next.month, day);
        NextMonthCell(g, |result|, day);
        next := SetDayOfMonth(next, day);
        AppendCell(g, today, hasTask, result, next, false);
        result := result + [CalendarDay(Some(next), false, IsSameDay(next, today), hasTask(next))];
      }
    }
  }

  /** `generateCalendarDays`: the trailing days of the previous month, the days of the month and
      the leading days of the next month, 42 cells in all. */
  method CalendarDays(selectedDate: int, now: int, hasTask: int -> bool) returns (days: seq<CalendarDay>)
    ensures |days| == 42
    ensures forall k :: 0 <= k < 42 ==> days[k] == ExpectedCell(selectedDate, now, hasTask, k)
  {
    var calendar := SetDayOfMonth(selectedDate, 1);
    var firstDayOfWeek := DayOfWeekField(calendar);
    days := AddPreviousMonthDays(selectedDate, calendar, firstDayOfWeek, now, hasTask);
    var today := now;
    days, calendar := AddCurrentMonthDays(selectedDate, calendar, today, hasTask, days);
    days := AddNextMonthDays(selectedDate, calendar, today, hasTask, days);
  }

  // ---------------------------------------------------------------------------------------------
  // The count line

  function TaskWord(n: int): string
  {
    if n == 1 then "task" else "tasks"
  }

  function HabitWord(n: int): string
  {
    if n == 1 then "habit" else "habits"
  }

  /** The habit part of the count line: " & M habit(s)" when there are habits, else nothing. */
  function HabitPart(habitsCount: nat): string
  {
    if habitsCount > 0 then " & " + (IntToString(habitsCount) + (" " + HabitWord(habitsCount))) else ""
  }

  /** What follows the number of tasks: " task(s)" and the habit part. */
  function CountTail(tasksCount: nat, habitsCount: nat): string
  {
    " " + TaskWord(tasksCount) + HabitPart(habitsCount)
  }

  /** "N task(s)", followed by " & M habit(s)" only when M > 0. */
  function CountText(tasksCount: nat, habitsCount: nat): string
  {
    IntToString(tasksCount) + CountTail(tasksCount, habitsCount)
  }

  /** The count line of a day's tasks: regular tasks and habits counted apart. */
  function TaskCountText(tasks: seq<Task>): string
  {
    CountText(Count(tasks, (t: Task) => !t.isHabit), Count(tasks, (t: Task) => t.isHabit))
  }

  /** Without habits the text is the task count alone, singular for one. */
  lemma CountTextWithoutHabits()
    ensures CountText(1, 0) == "1 task" && CountText(0, 0) == "0 tasks"
  {
    assert IntToString(1) == "1" && IntToString(0) == "0";
  }

  /** With habits both counts are shown, joined by " & ". */
  lemma CountTextWithHabits()
    ensures CountText(3, 1) == "3 tasks & 1 habit" && CountText(1, 2) == "1 task & 2 habits"
  {
    assert IntToString(1) == "1" && IntToString(3) == "3" && IntToString(2) == "2";
  }

  /** The habit part determines the number of habits. */
  lemma HabitPartInjective(m1: nat, m2: nat)
    requires HabitPart(m1) == HabitPart(m2)
    ensures m1 == m2
  {
    if m1 > 0 && m2 > 0 {
      var g1, g2 := " " + HabitWord(m1), " " + HabitWord(m2);
      DropPrefix(" & ", IntToString(m1) + g1);
      DropPrefix(" & ", IntToString(m2) + g2);
      NatDigits(m1);
      NatDigits(m2);
      DigitsBefore(IntToString(m1), IntToString(m2), g1, g2);
      IntToStringInjective(m1, m2);
    }
  }

  /** The count line determines both counts. */
  lemma CountTextInjective(n1: nat, m1: nat, n2: nat, m2: nat)
    requires CountText(n1, m1) == CountText(n2, m2)
    ensures n1 == n2 && m1 == m2
  {
    var tail1, tail2 := CountTail(n1, m1), CountTail(n2, m2);
    NatDigits(n1);
    NatDigits(n2);
    DigitsBefore(IntToString(n1), IntToString(n2), tail1, tail2);
    IntToStringInjective(n1, n2);
    var w := " " + TaskWord(n1);
    DropPrefix(w, HabitPart(m1));
    DropPrefix(w, HabitPart(m2));
    HabitPartInjective(m1, m2);
  }

  // ---------------------------------------------------------------------------------------------
  // The fragment

  class DailyTasksFragment {
    var selectedDate: int
    var taskCountText: string
    const calendarDayAdapter: CalendarDayAdapter

    /** The fragment opens on the current instant with an empty grid. */
    constructor (now: int, calendarDayAdapter: CalendarDayAdapter)
      ensures selectedDate == now && taskCountText == "" && this.calendarDayAdapter == calendarDayAdapter
    {
      selectedDate := now;
      taskCountText := "";
      this.calendarDayAdapter := calendarDayAdapter;
    }

    /** `generateCalendarDays`: the grid handed to the adapter, then the selected date selected,
        which lands on its own cell of the current month. */
    method GenerateCalendarDays(now: int, hasTask: int -> bool)
      modifies calendarDayAdapter
      ensures |calendarDayAdapter.days| == 42
      ensures forall k :: 0 <= k < 42 ==> calendarDayAdapter.days[k] == ExpectedCell(selectedDate, now, hasTask, k)
      ensures calendarDayAdapter.selectedDayPosition == GridOf(selectedDate).lead + CivilOf(selectedDate).day - 1
    {
      var calendarDays := CalendarDays(selectedDate, now, hasTask);
      calendarDayAdapter.UpdateDays(calendarDays);
      SelectionInGrid(selectedDate, now, hasTask, calendarDays);
      calendarDayAdapter.SelectDay(selectedDate);
    }

    /** `loadTasksForSelectedDate`, given the tasks the repository returns for the date. */
    method LoadTasksForSelectedDate(dayTasks: seq<Task>)
      modifies this
      ensures taskCountText == TaskCountText(dayTasks) && selectedDate == old(selectedDate)
    {
      taskCountText := TaskCountText(dayTasks);
    }

    /** `updateCalendarMonth`. */
    method UpdateCalendarMonth(date: int, now: int, hasTask: int -> bool, dayTasks: seq<Task>)
      modifies this, calendarDayAdapter
      ensures selectedDate == date && taskCountText == TaskCountText(dayTasks)
      ensures |calendarDayAdapter.days| == 42
      ensures forall k :: 0 <= k < 42 ==> calendarDayAdapter.days[k] == ExpectedCell(date, now, hasTask, k)
      ensures calendarDayAdapter.selectedDayPosition == GridOf(date).lead + CivilOf(date).day - 1
    {
      selectedDate := date;
      GenerateCalendarDays(now, hasTask);
      LoadTasksForSelectedDate(dayTasks);
    }

    /** `navigateToPreviousMonth`: one calendar month back, the day clamped to the month. */
    method NavigateToPreviousMonth(now: int, hasTask: int -> bool, dayTasks: seq<Task>)
      modifies this, calendarDayAdapter
      ensures selectedDate == AddMonthsTo(old(selectedDate), -1)
      ensures CivilOf(selectedDate) == AddMonths(CivilOf(old(selectedDate)), -1)
      ensures TimeOfDay(selectedDate) == TimeOfDay(old(selectedDate))
      ensures |calendarDayAdapter.days| == 42 && taskCountText == TaskCountText(dayTasks)
      ensures forall k :: 0 <= k < 42 ==> calendarDayAdapter.days[k] == ExpectedCell(selectedDate, now, hasTask, k)
    {
      UpdateCalendarMonth(AddMonthsTo(selectedDate, -1), now, hasTask, dayTasks);
    }

    /** `navigateToNextMonth`: one calendar month on, the day clamped to the month. */
    method NavigateToNextMonth(now: int, hasTask: int -> bool, dayTasks: seq<Task>)
      modifies this, calendarDayAdapter
      ensures selectedDate == AddMonthsTo(old(selectedDate), 1)
      ensures CivilOf(selectedDate) == AddMonths(CivilOf(old(selectedDate)), 1)
      ensures TimeOfDay(selectedDate) == TimeOfDay(old(selectedDate))
      ensures |calendarDayAdapter.days| == 42 && taskCountText == TaskCountText(dayTasks)
      ensures forall k :: 0 <= k < 42 ==> calendarDayAdapter.days[k] == ExpectedCell(selectedDate, now, hasTask, k)
    {
      UpdateCalendarMonth(AddMonthsTo(selectedDate, 1), now, hasTask, dayTasks);
    }

    /** `navigateToYear`: nothing happens when the year is already shown; otherwise only the
        year of the selected date changes (lenient, so February 29 may roll to March 1). */
    method NavigateToYear(year: int, now: int, hasTask: int -> bool, dayTasks: seq<Task>)
      modifies this, calendarDayAdapter
      ensures CivilOf(old(selectedDate)).year == year ==>
        selectedDate == old(selectedDate) && taskCountText == old(taskCountText) &&
        calendarDayAdapter.days == old(calendarDayAdapter.days) &&
        calendarDayAdapter.selectedDayPosition == old(calendarDayAdapter.selectedDayPosition)
      ensures CivilOf(old(selectedDate)).year != year ==>
        selectedDate == SetYear(old(selectedDate), year) && taskCountText == TaskCountText(dayTasks) &&
        |calendarDayAdapter.days| == 42 &&
        forall k :: 0 <= k < 42 ==> calendarDayAdapter.days[k] == ExpectedCell(selectedDate, now, hasTask, k)
    {
      if CivilOf(selectedDate).year == year {
        return;
      }
      selectedDate := SetYear(selectedDate, year);
      UpdateCalendarMonth(selectedDate, now, hasTask, dayTasks);
    }
  }

  /** Setting the year keeps month, day and time whenever that day exists in the new year. */
  lemma SetYearKeepsDate(t: int, year: int)
    requires CivilOf(t).day <= DaysInMonth(year, CivilOf(t).month)
    ensures CivilOf(SetYear(t, year)) == CivilOf(t).(year := year)
    ensures TimeOfDay(SetYear(t, year)) == TimeOfDay(t)
  {
    CivilOfDay(SetYear(t, year), CivilOf(t).(year := year));
  }

  /** February 29 moved to a common year becomes March 1. */
  lemma SetYearLeapDay(t: int, year: int)
    requires CivilOf(t).month == 2 && CivilOf(t).day == 29 && !IsLeapYear(year)
    ensures CivilOf(SetYear(t, year)) == Date(year, 3, 1)
  {
    FirstOfNextMonth(year, 2);
    DaysFromCivilShift(year, 2, 28, 1);
    CivilOfDay(SetYear(t, year), Date(year, 3, 1));
  }
}
