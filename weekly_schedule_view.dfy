/** The seven-day grid of `WeeklyScheduleView`: tasks filed into (day, hour) buckets from a week
    start, the tap lookup and the hour labels down the side. */
module ScheduleView {

  import opened Wrappers
  import opened IntMath
  import opened CivilTime
  import opened Text
  import opened TaskModel

  // ---------------------------------------------------------------------------------------------
  // Whole days between two dates

  /** `dayDifference`: both instants cut to midnight, the millisecond difference divided by a day
      with Kotlin's truncating `/`, and the Long narrowed by `toInt()`. */
  function DayDifference(date1: int, date2: int): (r: int)
    ensures IsInt32(r)
  {
    ToInt32(TruncDiv(Midnight(date2) - Midnight(date1), 86_400_000))
  }

  lemma TruncDivOfMultiple(k: int)
    ensures TruncDiv(k * 86_400_000, 86_400_000) == k
  {
    if k >= 0 {
      DivModUnique(k * 86_400_000, 86_400_000, k, 0);
    } else {
      DivModUnique(-k * 86_400_000, 86_400_000, -k, 0);
    }
  }

  /** Away from Int overflow the result is the number of calendar days from `date1` to `date2`,
      whatever the times of day. */
  lemma DayDifferenceCountsDays(date1: int, date2: int)
    requires IsInt32(DayNumber(date2) - DayNumber(date1))
    ensures DayDifference(date1, date2) == DayNumber(date2) - DayNumber(date1)
  {
    var k := DayNumber(date2) - DayNumber(date1);
    assert Midnight(date2) - Midnight(date1) == k * 86_400_000;
    TruncDivOfMultiple(k);
  }

  lemma DayDifferenceSelf(date: int)
    ensures DayDifference(date, date) == 0
  {
    DayDifferenceCountsDays(date, date);
  }

  /** Swapping the dates negates the count. */
  lemma DayDifferenceAntisymmetric(date1: int, date2: int)
    requires IsInt32(DayNumber(date2) - DayNumber(date1)) && IsInt32(DayNumber(date1) - DayNumber(date2))
    ensures DayDifference(date2, date1) == -DayDifference(date1, date2)
  {
    DayDifferenceCountsDays(date1, date2);
    DayDifferenceCountsDays(date2, date1);
  }

  // ---------------------------------------------------------------------------------------------
  // The start of a week

  /** `setWeekStartDate`: DAY_OF_WEEK set to SUNDAY in a Sunday-first week, then the time of day
      cleared. */
  function WeekStart(date: int): (r: int)
    ensures Weekday(DayNumber(r)) == 0 && TimeOfDay(r) == 0
    ensures DayNumber(date) - 6 <= DayNumber(r) <= DayNumber(date) && r <= date
  {
    var z := DayNumber(date);
    DayNumberOfDayStart(z - Weekday(z), 0);
    InstantOfDay(date);
    DayStart(z - Weekday(z))
  }

  /** The week start is the only Sunday midnight in the six days up to the date. */
  lemma WeekStartUnique(date: int, r: int)
    requires Weekday(DayNumber(r)) == 0 && TimeOfDay(r) == 0
    requires DayNumber(date) - 6 <= DayNumber(r) <= DayNumber(date)
    ensures r == WeekStart(date)
  {
    var w := WeekStart(date);
    var z, zr, zw := DayNumber(date), DayNumber(r), DayNumber(w);
    WeekdayShift(zw, zr - zw);
    assert zr == zw;
    InstantOfDay(r);
    InstantOfDay(w);
  }

  lemma WeekStartIdempotent(date: int)
    ensures WeekStart(WeekStart(date)) == WeekStart(date)
  {
    var w := WeekStart(date);
    WeekStartUnique(w, w);
  }

  /** A Sunday's week starts at that Sunday's midnight. */
  lemma WeekStartOfSunday(date: int)
    requires Weekday(DayNumber(date)) == 0
    ensures WeekStart(date) == Midnight(date)
  {
    WeekStartUnique(date, Midnight(date));
  }

  // ---------------------------------------------------------------------------------------------
  // Filing a task

  /** The hour a task is drawn in: that of `dueTime` when set, else that of `dueDate`. */
  function TaskHour(task: Task): (h: int)
    ensures 0 <= h < 24
    ensures task.dueTime.Some? ==> h == HourOf(task.dueTime.value)
    ensures task.dueTime.None? ==> h == HourOf(task.dueDate)
  {
    match task.dueTime
    case Some(time) => HourOf(time)
    case None => HourOf(task.dueDate)
  }

  /** The (day, hour) bucket `organizeTasks` files a task under; None when it is skipped, that is
      before the start, after the start plus seven days, or with a day index outside 0..6. */
  function Slot(startDate: int, task: Task): (r: Option<(int, int)>)
    ensures r.Some? ==> 0 <= r.value.0 < 7 && 0 <= r.value.1 < 24
  {
    if task.dueDate < startDate || task.dueDate > AddDays(startDate, 7) then None
    else
      var dayDiff := DayDifference(startDate, task.dueDate);
      if dayDiff < 0 || dayDiff > 6 then None else Some((dayDiff, TaskHour(task)))
  }

  lemma DayNumberMonotonic(a: int, b: int)
    requires a <= b
    ensures DayNumber(a) <= DayNumber(b)
  {
    InstantOfDay(a);
    InstantOfDay(b);
  }

  /** A task is filed exactly when it is due no earlier than the start and at most six calendar
      days later, under its calendar-day offset and its hour. */
  lemma SlotWindow(startDate: int, task: Task)
    ensures Slot(startDate, task).Some? <==>
      startDate <= task.dueDate && DayNumber(task.dueDate) <= DayNumber(startDate) + 6
    ensures Slot(startDate, task).Some? ==>
      Slot(startDate, task).value == (DayNumber(task.dueDate) - DayNumber(startDate), TaskHour(task))
  {
    var due, z0, z := task.dueDate, DayNumber(startDate), DayNumber(task.dueDate);
    var end := AddDays(startDate, 7);
    if startDate <= due {
      DayNumberMonotonic(startDate, due);
      if due <= end {
        DayNumberMonotonic(due, end);
        DayDifferenceCountsDays(startDate, due);
      }
      if z <= z0 + 6 {
        InstantOfDay(due);
        InstantOfDay(startDate);
        assert due < end;
      }
    }
  }

  /** From a midnight start the filter is exactly the seven-day window. */
  lemma SlotOfMidnightStart(startDate: int, task: Task)
    requires TimeOfDay(startDate) == 0
    ensures Slot(startDate, task).Some? <==> startDate <= task.dueDate < AddDays(startDate, 7)
  {
    SlotWindow(startDate, task);
    var due := task.dueDate;
    InstantOfDay(startDate);
    InstantOfDay(due);
    if startDate <= due < AddDays(startDate, 7) {
      assert DayNumber(due) < DayNumber(startDate) + 7;
    }
  }

  /** The tasks of `tasks` filed under (day, hour), in input order. */
  function Bucket(tasks: seq<Task>, startDate: int, day: int, hour: int): seq<Task>
  {
    if |tasks| == 0 then []
    else
      var last := tasks[|tasks| - 1];
      Bucket(tasks[..|tasks| - 1], startDate, day, hour) +
        (if Slot(startDate, last) == Some((day, hour)) then [last] else [])
  }

  /** A bucket holds exactly the tasks filed there. */
  lemma {:induction false} BucketMembers(tasks: seq<Task>, startDate: int, day: int, hour: int, x: Task)
    ensures x in Bucket(tasks, startDate, day, hour) <==> x in tasks && Slot(startDate, x) == Some((day, hour))
  {
    if |tasks| > 0 {
      var init := tasks[..|tasks| - 1];
      BucketMembers(init, startDate, day, hour, x);
      assert tasks == init + [tasks[|tasks| - 1]];
    }
  }

  /** Cells outside the week's 7 x 24 grid receive nothing. */
  lemma {:induction false} BucketOutsideEmpty(tasks: seq<Task>, startDate: int, day: int, hour: int)
    requires !(0 <= day < 7 && 0 <= hour < 24)
    ensures Bucket(tasks, startDate, day, hour) == []
  {
    if |tasks| > 0 {
      BucketOutsideEmpty(tasks[..|tasks| - 1], startDate, day, hour);
    }
  }

  /** Filing works task by task, so a bucket keeps the input order. */
  lemma {:induction false} BucketAppend(a: seq<Task>, b: seq<Task>, startDate: int, day: int, hour: int)
    ensures Bucket(a + b, startDate, day, hour) == Bucket(a, startDate, day, hour) + Bucket(b, startDate, day, hour)
  {
    if |b| > 0 {
      var init := b[..|b| - 1];
      BucketAppend(a, init, startDate, day, hour);
      assert (a + b)[..|a + b| - 1] == a + init;
      assert (a + b)[|a + b| - 1] == b[|b| - 1];
    } else {
      assert a + b == a;
    }
  }

  /** No task is filed under two different buckets. */
  lemma FiledOnce(tasks: seq<Task>, startDate: int, x: Task, d1: int, h1: int, d2: int, h2: int)
    requires x in Bucket(tasks, startDate, d1, h1) && x in Bucket(tasks, startDate, d2, h2)
    ensures d1 == d2 && h1 == h2
  {
    BucketMembers(tasks, startDate, d1, h1, x);
    BucketMembers(tasks, startDate, d2, h2, x);
  }

  /** The first task of a bucket is the earliest input task filed there. */
  lemma {:induction false} BucketFirst(tasks: seq<Task>, startDate: int, day: int, hour: int) returns (i: nat)
    requires Bucket(tasks, startDate, day, hour) != []
    ensures i < |tasks| && tasks[i] == Bucket(tasks, startDate, day, hour)[0]
    ensures Slot(startDate, tasks[i]) == Some((day, hour))
    ensures forall j :: 0 <= j < i ==> Slot(startDate, tasks[j]) != Some((day, hour))
  {
    var init := tasks[..|tasks| - 1];
    var before := Bucket(init, startDate, day, hour);
    var last := tasks[|tasks| - 1];
    assert Bucket(tasks, startDate, day, hour) ==
      before + (if Slot(startDate, last) == Some((day, hour)) then [last] else []);
    if before != [] {
      i := BucketFirst(init, startDate, day, hour);
      assert forall j :: 0 <= j <= i ==> tasks[j] == init[j];
    } else {
      i := |tasks| - 1;
      forall j | 0 <= j < i
        ensures Slot(startDate, tasks[j]) != Some((day, hour))
      {
        if Slot(startDate, tasks[j]) == Some((day, hour)) {
          BucketMembers(init, startDate, day, hour, init[j]);
        }
      }
    }
  }

  /** The grid `organizeTasks` builds: every (day 0..6, hour 0..23) bucket present. */
  predicate IsGridOf(grid: seq<seq<seq<Task>>>, tasks: seq<Task>, startDate: int)
  {
    |grid| == 7 &&
    forall d :: 0 <= d < 7 ==>
      |grid[d]| == 24 && forall h :: 0 <= h < 24 ==> grid[d][h] == Bucket(tasks, startDate, d, h)
  }

  /** Adding the next task to the one bucket it is filed under extends the grid by one task. */
  lemma OrganizeStep(grid: seq<seq<seq<Task>>>, tasks: seq<Task>, startDate: int, i: nat)
    requires i < |tasks| && IsGridOf(grid, tasks[..i], startDate)
    ensures Slot(startDate, tasks[i]).None? ==> IsGridOf(grid, tasks[..i + 1], startDate)
    ensures Slot(startDate, tasks[i]).Some? ==>
      var (d, h) := Slot(startDate, tasks[i]).value;
      IsGridOf(grid[d := grid[d][h := grid[d][h] + [tasks[i]]]], tasks[..i + 1], startDate)
  {
    assert tasks[..i + 1][..i] == tasks[..i];
  }

  // ---------------------------------------------------------------------------------------------
  // Taps

  /** Pixel sizes of the grid; the header is 50 high. */
  datatype Layout = Layout(timeColumnWidth: real, dayWidth: real, dayGap: real, hourHeight: real, scaleFactor: real)

  /** Resource dimensions are positive and the zoom is kept within 0.5..3. */
  predicate ValidLayout(layout: Layout)
  {
    layout.dayWidth + layout.dayGap > 0.0 && layout.hourHeight > 0.0 && 0.5 <= layout.scaleFactor <= 3.0
  }

  /** The width of one day column, gap included. */
  function ColumnWidth(layout: Layout): real
  {
    layout.dayWidth + layout.dayGap
  }

  /** The height of one hour row at the current zoom. */
  function RowHeight(layout: Layout): (r: real)
    requires ValidLayout(layout)
    ensures r > 0.0
  {
    assert layout.hourHeight * layout.scaleFactor >= layout.hourHeight * 0.5;
    layout.hourHeight * layout.scaleFactor
  }

  /** The (day, hour) cell under a tap, None on the header or in the time column; `toInt()` of a
      non-negative quotient is its floor. */
  function CellAt(layout: Layout, x: real, y: real): (r: Option<(int, int)>)
    requires ValidLayout(layout)
    ensures y < 50.0 || x < layout.timeColumnWidth ==> r.None?
  {
    if y < 50.0 then None
    else
      var adjustedX := x - layout.timeColumnWidth;
      if adjustedX < 0.0 then None
      else Some(((adjustedX / ColumnWidth(layout)).Floor, ((y - 50.0) / RowHeight(layout)).Floor))
  }

  lemma FractionOfWidth(d: real, w: real)
    requires 0.0 <= d < 1.0 && w > 0.0
    ensures 0.0 <= d * w < w
  {
    assert w - d * w == (1.0 - d) * w;
  }

  lemma QuotientTimesDivisor(a: real, w: real, kr: real)
    requires w > 0.0
    ensures (a / w - kr) * w == a - kr * w
  {
  }

  lemma FloorBounds(a: real, w: real, k: int)
    requires a >= 0.0 && w > 0.0 && k == (a / w).Floor
    ensures 0 <= k && (k as real) * w <= a < (k as real) * w + w
  {
    var kr := k as real;
    assert kr <= a / w < kr + 1.0;
    var d := a / w - kr;
    FractionOfWidth(d, w);
    QuotientTimesDivisor(a, w, kr);
    assert d * w == a - kr * w;
    assert d * w < w;
    assert a - kr * w < w;
    assert a / w >= 0.0;
  }

  /** A tap lands in the cell whose rectangle contains it. */
  lemma CellContainsTap(layout: Layout, x: real, y: real)
    requires ValidLayout(layout) && CellAt(layout, x, y).Some?
    ensures var (d, h) := CellAt(layout, x, y).value;
      0 <= d && 0 <= h &&
      layout.timeColumnWidth + (d as real) * ColumnWidth(layout) <= x <
        layout.timeColumnWidth + (d as real) * ColumnWidth(layout) + ColumnWidth(layout) &&
      50.0 + (h as real) * RowHeight(layout) <= y < 50.0 + (h as real) * RowHeight(layout) + RowHeight(layout)
  {
    var (d, h) := CellAt(layout, x, y).value;
    FloorBounds(x - layout.timeColumnWidth, ColumnWidth(layout), d);
    FloorBounds(y - 50.0, RowHeight(layout), h);
  }

  /** `tasksByDayAndHour[dayIndex]?.get(hour)` then the first task, null when a bucket is
      missing or empty or the indices are outside 0..6 and 0..23. */
  function FirstInBucket(grid: seq<seq<seq<Task>>>, dayIndex: int, hour: int): (r: Option<Task>)
    ensures r.Some? ==> 0 <= dayIndex < 7 && 0 <= hour < 24 && dayIndex < |grid| && hour < |grid[dayIndex]|
                        && grid[dayIndex][hour] != [] && r.value == grid[dayIndex][hour][0]
  {
    if dayIndex < 0 || dayIndex > 6 || hour < 0 || hour > 23 then None
    else if dayIndex >= |grid| || hour >= |grid[dayIndex]| then None
    else if |grid[dayIndex][hour]| == 0 then None
    else Some(grid[dayIndex][hour][0])
  }

  // ---------------------------------------------------------------------------------------------
  // Hour labels

  /** The label `drawTimeLabels` writes for an hour of the day. */
  function HourLabel(hour: int): string
    requires 0 <= hour < 24
  {
    if hour == 0 then "12 AM"
    else if hour < 12 then IntToString(hour) + " AM"
    else if hour == 12 then "12 PM"
    else IntToString(hour - 12) + " PM"
  }

  /** The hour on a twelve-hour clock face. */
  function ClockHour(hour: int): (c: int)
    requires 0 <= hour < 24
    ensures 1 <= c <= 12 && (c == hour || c == hour + 12 || c == hour - 12)
  {
    if hour == 0 || hour == 12 then 12 else if hour < 12 then hour else hour - 12
  }

  /** A label is a clock number 1..12 followed by " AM" for the morning and " PM" from noon. */
  lemma HourLabelShape(hour: int)
    requires 0 <= hour < 24
    ensures HourLabel(hour) == IntToString(ClockHour(hour)) + (if hour < 12 then " AM" else " PM")
  {
    assert IntToString(12) == "12";
  }

  lemma SuffixCancel(a: string, b: string, s: string, t: string)
    requires |s| == |t| && a + s == b + t
    ensures a == b && s == t
  {
    assert a == (a + s)[..|a|];
    assert b == (b + t)[..|b|];
    assert s == (a + s)[|a|..];
    assert t == (b + t)[|b|..];
  }

  /** No two hours share a label. */
  lemma HourLabelInjective(a: int, b: int)
    requires 0 <= a < 24 && 0 <= b < 24 && HourLabel(a) == HourLabel(b)
    ensures a == b
  {
    HourLabelShape(a);
    HourLabelShape(b);
    var ca, cb := ClockHour(a), ClockHour(b);
    var sa: string := if a < 12 then " AM" else " PM";
    var sb: string := if b < 12 then " AM" else " PM";
    SuffixCancel(IntToString(ca), IntToString(cb), sa, sb);
    assert (a < 12) == (b < 12) by { assert sa[1] == sb[1]; }
    IntToStringInjective(ca, cb);
  }

  lemma HourLabelExamples()
    ensures HourLabel(0) == "12 AM" && HourLabel(9) == "9 AM" && HourLabel(12) == "12 PM"
    ensures HourLabel(13) == "1 PM" && HourLabel(23) == "11 PM"
  {
    assert IntToString(9) == "9" && IntToString(1) == "1" && IntToString(11) == "11";
  }

  // ---------------------------------------------------------------------------------------------
  // The view

  class WeeklyScheduleView {
    const layout: Layout
    var startDate: int
    var tasks: seq<Task>
    var tasksByDayAndHour: seq<seq<seq<Task>>>

    /** The grid is filed from the current tasks and week start. */
    predicate Organized()
      reads this
    {
      IsGridOf(tasksByDayAndHour, tasks, startDate)
    }

    /** A new view starts at the current instant with no tasks and no buckets. */
    constructor (layout: Layout, now: int)
      requires ValidLayout(layout)
      ensures this.layout == layout && startDate == now && tasks == [] && tasksByDayAndHour == []
    {
      this.layout := layout;
      startDate := now;
      tasks := [];
      tasksByDayAndHour := [];
    }

    /** `organizeTasks`: empty buckets for every day and hour, then each task appended to the
        bucket it is filed under. */
    method OrganizeTasks()
      modifies this
      ensures tasks == old(tasks) && startDate == old(startDate) && Organized()
    {
      var result: seq<seq<seq<Task>>> := [];
      for day := 0 to 7
        invariant |result| == day
        invariant forall d :: 0 <= d < day ==> |result[d]| == 24 && forall h :: 0 <= h < 24 ==> result[d][h] == []
      {
        var hours: seq<seq<Task>> := [];
        for hour := 0 to 24
          invariant |hours| == hour && forall h :: 0 <= h < hour ==> hours[h] == []
        {
          hours := hours + [[]];
        }
        result := result + [hours];
      }
      var all, start := tasks, startDate;
      assert IsGridOf(result, all[..0], start);
      var end := AddDays(start, 7);
      for i := 0 to |all|
        invariant IsGridOf(result, all[..i], start)
        invariant tasks == all && startDate == start
      {
        var task := all[i];
        OrganizeStep(result, all, start, i);
        if !(task.dueDate < start || task.dueDate > end) {
          var dayDiff := DayDifference(start, task.dueDate);
          if 0 <= dayDiff <= 6 {
            var hour := TaskHour(task);
            result := result[dayDiff := result[dayDiff][hour := result[dayDiff][hour] + [task]]];
          }
        }
      }
      assert all[..|all|] == all;
      tasksByDayAndHour := result;
    }

    /** `setWeekStartDate`: the Sunday midnight of the date's week, then the grid refiled. */
    method SetWeekStartDate(date: int)
      modifies this
      ensures startDate == WeekStart(date) && tasks == old(tasks) && Organized()
    {
      startDate := WeekStart(date);
      OrganizeTasks();
    }

    /** `setTasks`: the tasks replaced, then the grid refiled. */
    method SetTasks(tasks: seq<Task>)
      modifies this
      ensures this.tasks == tasks && startDate == old(startDate) && Organized()
    {
      this.tasks := tasks;
      OrganizeTasks();
    }

    /** `findTaskAtPosition`: on an organized grid, the earliest task filed in the tapped cell. */
    function FindTaskAtPosition(x: real, y: real): (r: Option<Task>)
      reads this
      requires ValidLayout(layout)
      ensures y < 50.0 || x < layout.timeColumnWidth ==> r.None?
      ensures Organized() && r.Some? ==> r.value in tasks && Slot(startDate, r.value) == CellAt(layout, x, y)
      ensures Organized() ==>
        (r.Some? <==> CellAt(layout, x, y).Some? &&
                      Bucket(tasks, startDate, CellAt(layout, x, y).value.0, CellAt(layout, x, y).value.1) != [])
    {
      match CellAt(layout, x, y)
      case None => None
      case Some((d, h)) =>
        var r := FirstInBucket(tasksByDayAndHour, d, h);
        if Organized() then
          if r.Some? then
            BucketMembers(tasks, startDate, d, h, r.value);
            r
          else if 0 <= d < 7 && 0 <= h < 24 then r
          else
            BucketOutsideEmpty(tasks, startDate, d, h);
            r
        else r
    }
  }

  /** The task a tap finds on an organized grid is the earliest input task filed in that cell. */
  lemma FoundTaskIsEarliest(view: WeeklyScheduleView, x: real, y: real) returns (i: nat)
    requires ValidLayout(view.layout) && view.Organized() && view.FindTaskAtPosition(x, y).Some?
    ensures i < |view.tasks| && view.tasks[i] == view.FindTaskAtPosition(x, y).value
    ensures forall j :: 0 <= j < i ==> Slot(view.startDate, view.tasks[j]) != CellAt(view.layout, x, y)
  {
    var (d, h) := CellAt(view.layout, x, y).value;
    i := BucketFirst(view.tasks, view.startDate, d, h);
  }
}
