/** TaskRepository: the in-memory store of users, categories and tasks, with habit expansion,
    the queries the screens use and the operations that change the store. */
module Repository {

  import opened Wrappers
  import opened IntMath
  import opened CivilTime
  import opened Text
  import opened Lists
  import opened StableSort
  import opened TaskModel

  // ---------------------------------------------------------------------------------------------
  // Sample data

  /** The built-in users; the first is the current user. */
  const SampleUsers: seq<User> :=
    [User("1", "Matt"), User("2", "John"), User("3", "Sarah"), User("4", "Emily"), User("5", "Alex")]

  /** The built-in categories. */
  const SampleCategories: seq<TaskCategory> := [
    TaskCategory("1", "Myself", [SampleUsers[0]], 2),
    TaskCategory("2", "Sweet Home", [SampleUsers[0], SampleUsers[1]], 2),
    TaskCategory("3", "Work", SampleUsers, 3)
  ]

  const InvalidCategory: string := "Invalid category ID"

  // ---------------------------------------------------------------------------------------------
  // Lookups

  /** `taskCategories.find { it.id == categoryId }`: the first category with the id. */
  function FindCategory(categories: seq<TaskCategory>, id: string): (r: Option<TaskCategory>)
    ensures r.None? <==> forall i :: 0 <= i < |categories| ==> categories[i].id != id
    ensures r.Some? ==> r.value in categories && r.value.id == id
    ensures r.Some? ==> exists i :: 0 <= i < |categories| && categories[i] == r.value &&
                                    forall j :: 0 <= j < i ==> categories[j].id != id
  {
    if categories == [] then None
    else if categories[0].id == id then Some(categories[0])
    else
      var r := FindCategory(categories[1..], id);
      assert forall i :: 1 <= i < |categories| ==> categories[i] == categories[1..][i - 1];
      if r.Some? then
        var i :| 0 <= i < |categories[1..]| && categories[1..][i] == r.value &&
                 forall j :: 0 <= j < i ==> categories[1..][j].id != id;
        assert categories[i + 1] == r.value && forall j :: 0 <= j < i + 1 ==> categories[j].id != id;
        r
      else r
  }

  /** The predicate `it.id == taskId`. */
  function HasId(id: string): Task -> bool
  {
    (t: Task) => t.id == id
  }

  /** `getTaskById`: the first task with the id. */
  function TaskById(tasks: seq<Task>, id: string): (r: Option<Task>)
    ensures r.None? <==> forall i :: 0 <= i < |tasks| ==> tasks[i].id != id
    ensures r.Some? ==> r.value.id == id
    ensures r.Some? ==> exists i :: 0 <= i < |tasks| && tasks[i] == r.value && (forall j :: 0 <= j < i ==> tasks[j].id != id)
  {
    var i := IndexOfFirst(tasks, HasId(id));
    if i < 0 then None else Some(tasks[i])
  }

  /** `users.filter { assigneeIds.contains(it.id) }`: the chosen users in the order of `users`. */
  function UsersWithIds(users: seq<User>, ids: seq<string>): (r: seq<User>)
    ensures forall i :: 0 <= i < |r| ==> r[i] in users && r[i].id in ids
    ensures forall i :: 0 <= i < |users| && users[i].id in ids ==> users[i] in r
  {
    Filter(users, (u: User) => u.id in ids)
  }

  /** Assignees keep the order of the user list: the order, and any repetition, of the ids
      asked for makes no difference. */
  lemma {:induction false} AssigneesIgnoreIdOrder(users: seq<User>, a: seq<string>, b: seq<string>)
    requires forall x :: x in a <==> x in b
    ensures UsersWithIds(users, a) == UsersWithIds(users, b)
  {
    if users != [] {
      AssigneesIgnoreIdOrder(users[1..], a, b);
    }
  }

  // ---------------------------------------------------------------------------------------------
  // Normalised dates and the tasks of a day

  /** `getNormalizedDate`: the same instant with the time of day cleared. */
  function NormalizedDate(date: int): (r: int)
    ensures r <= date < r + 86_400_000 && TimeOfDay(r) == 0 && DayNumber(r) == DayNumber(date)
  {
    Midnight(date)
  }

  /** `it.dueTime ?: Long.MAX_VALUE`. */
  function DueTimeOrMax(t: Task): int
  {
    match t.dueTime
    case None => Int64Max
    case Some(x) => x
  }

  /** The comparator of `getTasksForDate`: `dueTime` ascending, then priority ordinal descending. */
  function DayOrder(t: Task): SortKey
  {
    SortKey(0, DueTimeOrMax(t), -(Ordinal(t.priority) as int))
  }

  /** The comparator of `getTasksForCategorySorted`: `dueDate` first, then as `DayOrder`. */
  function CategoryOrder(t: Task): SortKey
  {
    SortKey(t.dueDate, DueTimeOrMax(t), -(Ordinal(t.priority) as int))
  }

  /** Not completed and due in [start, start + one day). */
  function ActiveIn(start: int): Task -> bool
  {
    (t: Task) => !t.isCompleted && start <= t.dueDate < start + 86_400_000
  }

  /** `getTasksForDate`: the active tasks due between the date's midnight and the next, ordered
      stably by due time (none last) and then by priority (HIGH first). */
  function TasksForDate(tasks: seq<Task>, date: int): seq<Task>
  {
    Sort(Filter(tasks, ActiveIn(NormalizedDate(date))), DayOrder)
  }

  /** The day's list is ordered by `DayOrder`, holds exactly the chosen tasks, and keeps the
      store order among tasks with equal keys. */
  lemma TasksForDateSorted(tasks: seq<Task>, date: int)
    ensures var chosen := Filter(tasks, ActiveIn(NormalizedDate(date)));
      var r := TasksForDate(tasks, date);
      SortedBy(r, DayOrder) && multiset(r) == multiset(chosen) &&
      forall k :: WithKey(r, DayOrder, k) == WithKey(chosen, DayOrder, k)
  {
    SortCorrect(Filter(tasks, ActiveIn(NormalizedDate(date))), DayOrder);
  }

  /** A task is listed for a date exactly when it is stored, not completed and due that day. */
  lemma TasksForDateMembers(tasks: seq<Task>, date: int, t: Task)
    ensures t in TasksForDate(tasks, date) <==> t in tasks && !t.isCompleted && DayNumber(t.dueDate) == DayNumber(date)
  {
    var start := NormalizedDate(date);
    var chosen := Filter(tasks, ActiveIn(start));
    var r := TasksForDate(tasks, date);
    TasksForDateSorted(tasks, date);
    assert t in r <==> t in multiset(r);
    assert t in chosen <==> t in multiset(chosen);
    if t in tasks && DayNumber(t.dueDate) == DayNumber(date) {
      assert start <= t.dueDate < start + 86_400_000;
    }
    if t in chosen {
      DayNumberOfDayStart(DayNumber(date), t.dueDate - start);
    }
  }

  /** Tasks with a due time (below Long.MAX_VALUE) come before those without. */
  lemma DayOrderTimedFirst(a: Task, b: Task)
    requires a.dueTime.Some? && a.dueTime.value < Int64Max && b.dueTime.None?
    ensures KeyLe(DayOrder(a), DayOrder(b)) && !KeyLe(DayOrder(b), DayOrder(a))
  {
  }

  /** At equal due times the higher priority comes first. */
  lemma DayOrderPriority(a: Task, b: Task)
    requires a.dueTime == b.dueTime
    ensures KeyLe(DayOrder(a), DayOrder(b)) <==> Ordinal(a.priority) >= Ordinal(b.priority)
  {
  }

  /** `getTasksForCategorySorted`: the category's active tasks ordered stably by due date, due
      time and priority. */
  function TasksForCategorySorted(tasks: seq<Task>, categoryId: string): (r: seq<Task>)
    ensures var chosen := Filter(tasks, InCategory(categoryId));
      SortedBy(r, CategoryOrder) && multiset(r) == multiset(chosen) &&
      forall k :: WithKey(r, CategoryOrder, k) == WithKey(chosen, CategoryOrder, k)
  {
    var chosen := Filter(tasks, InCategory(categoryId));
    SortCorrect(chosen, CategoryOrder);
    Sort(chosen, CategoryOrder)
  }

  /** Not completed and in the category. */
  function InCategory(categoryId: string): Task -> bool
  {
    (t: Task) => t.category.id == categoryId && !t.isCompleted
  }

  /** `getTasksForCategory`. */
  function TasksForCategory(tasks: seq<Task>, categoryId: string): (r: seq<Task>)
    ensures forall i :: 0 <= i < |r| ==> r[i] in tasks && r[i].category.id == categoryId && !r[i].isCompleted
    ensures forall i :: 0 <= i < |tasks| && tasks[i].category.id == categoryId && !tasks[i].isCompleted ==> tasks[i] in r
  {
    Filter(tasks, InCategory(categoryId))
  }

  /** `getAllTasks`: the tasks not completed. */
  function AllTasks(tasks: seq<Task>): (r: seq<Task>)
    ensures forall i :: 0 <= i < |r| ==> r[i] in tasks && !r[i].isCompleted
    ensures forall i :: 0 <= i < |tasks| && !tasks[i].isCompleted ==> tasks[i] in r
  {
    Filter(tasks, (t: Task) => !t.isCompleted)
  }

  /** `getCompletedTasks`. */
  function CompletedTasks(tasks: seq<Task>): (r: seq<Task>)
    ensures forall i :: 0 <= i < |r| ==> r[i] in tasks && r[i].isCompleted
    ensures forall i :: 0 <= i < |tasks| && tasks[i].isCompleted ==> tasks[i] in r
  {
    Filter(tasks, (t: Task) => t.isCompleted)
  }

  /** `getTasksByPriority`. */
  function TasksByPriority(tasks: seq<Task>, priority: TaskPriority): (r: seq<Task>)
    ensures forall i :: 0 <= i < |r| ==> r[i] in tasks && !r[i].isCompleted && r[i].priority == priority
    ensures forall i :: 0 <= i < |tasks| && !tasks[i].isCompleted && tasks[i].priority == priority ==> tasks[i] in r
  {
    Filter(tasks, (t: Task) => !t.isCompleted && t.priority == priority)
  }

  /** The reminder-due condition: active, reminder on, and a due time not after `timestamp`. */
  predicate ReminderDue(t: Task, timestamp: int)
  {
    !t.isCompleted && t.reminderSet && t.dueTime.Some? && t.dueTime.value <= timestamp
  }

  /** `getTasksForReminder`. */
  function TasksForReminder(tasks: seq<Task>, timestamp: int): (r: seq<Task>)
    ensures forall i :: 0 <= i < |r| ==> r[i] in tasks && ReminderDue(r[i], timestamp)
    ensures forall i :: 0 <= i < |tasks| && ReminderDue(tasks[i], timestamp) ==> tasks[i] in r
  {
    Filter(tasks, (t: Task) => ReminderDue(t, timestamp))
  }

  /** A reminder due at some instant is still due later. */
  lemma ReminderDueMonotonic(tasks: seq<Task>, a: int, b: int)
    requires a <= b
    ensures forall t :: t in TasksForReminder(tasks, a) ==> t in TasksForReminder(tasks, b)
  {
    forall t | t in TasksForReminder(tasks, a)
      ensures t in TasksForReminder(tasks, b)
    {
      var r := TasksForReminder(tasks, a);
      var i :| 0 <= i < |r| && r[i] == t;
      var j :| 0 <= j < |tasks| && tasks[j] == t;
    }
  }

  /** `hasTasksOnDate`. */
  function HasTasksOnDate(tasks: seq<Task>, date: int): bool
  {
    |TasksForDate(tasks, date)| > 0
  }

  lemma HasTasksOnDateExactly(tasks: seq<Task>, date: int)
    ensures HasTasksOnDate(tasks, date) <==>
      exists i :: 0 <= i < |tasks| && !tasks[i].isCompleted && DayNumber(tasks[i].dueDate) == DayNumber(date)
  {
    var r := TasksForDate(tasks, date);
    if |r| > 0 {
      TasksForDateMembers(tasks, date, r[0]);
    }
    if i :| 0 <= i < |tasks| && !tasks[i].isCompleted && DayNumber(tasks[i].dueDate) == DayNumber(date) {
      TasksForDateMembers(tasks, date, tasks[i]);
    }
  }

  // ---------------------------------------------------------------------------------------------
  // Counts and scores

  function IsHabitIn(categoryId: string): Task -> bool
  {
    (t: Task) => t.category.id == categoryId && !t.isCompleted && t.isHabit
  }

  function IsRegularIn(categoryId: string): Task -> bool
  {
    (t: Task) => t.category.id == categoryId && !t.isCompleted && !t.isHabit
  }

  /** `getHabitTasksCountForCategory`. */
  function HabitTasksCount(tasks: seq<Task>, categoryId: string): (n: nat)
    ensures n <= |tasks|
    ensures n == |Filter(tasks, IsHabitIn(categoryId))|
  {
    CountIsFilterLength(tasks, IsHabitIn(categoryId));
    Count(tasks, IsHabitIn(categoryId))
  }

  /** `getRegularTasksCountForCategory`. */
  function RegularTasksCount(tasks: seq<Task>, categoryId: string): (n: nat)
    ensures n <= |tasks|
    ensures n == |Filter(tasks, IsRegularIn(categoryId))|
  {
    CountIsFilterLength(tasks, IsRegularIn(categoryId));
    Count(tasks, IsRegularIn(categoryId))
  }

  /** Habit and regular tasks together are the category's active tasks. */
  lemma CountsPartitionCategory(tasks: seq<Task>, categoryId: string)
    ensures HabitTasksCount(tasks, categoryId) + RegularTasksCount(tasks, categoryId) ==
      |TasksForCategory(tasks, categoryId)|
  {
    CountSplit(tasks, InCategory(categoryId), IsHabitIn(categoryId), IsRegularIn(categoryId));
    CountIsFilterLength(tasks, InCategory(categoryId));
  }

  function DueOn(day: int): Task -> bool
  {
    (t: Task) => NormalizedDate(t.dueDate) == day
  }

  function CompletedOn(day: int): Task -> bool
  {
    (t: Task) => NormalizedDate(t.dueDate) == day && t.isCompleted
  }

  /** `getCompletionScoreForDate`: (completed, total) over every task due that day. */
  function CompletionScore(tasks: seq<Task>, date: int): (r: (int, int))
    ensures 0 <= r.0 <= r.1 <= |tasks|
  {
    var due := Filter(tasks, DueOn(NormalizedDate(date)));
    (Count(due, (t: Task) => t.isCompleted), |due|)
  }

  /** The score counts the completed tasks of the day and all tasks of the day; the difference
      is the number of tasks `getTasksForDate` lists for that day. */
  lemma CompletionScoreCounts(tasks: seq<Task>, date: int)
    ensures CompletionScore(tasks, date).0 == Count(tasks, CompletedOn(NormalizedDate(date)))
    ensures CompletionScore(tasks, date).1 == Count(tasks, DueOn(NormalizedDate(date)))
    ensures CompletionScore(tasks, date).1 - CompletionScore(tasks, date).0 == |TasksForDate(tasks, date)|
  {
    var day := NormalizedDate(date);
    var isDone := (t: Task) => t.isCompleted;
    CountFilter(tasks, DueOn(day), isDone, CompletedOn(day));
    CountIsFilterLength(tasks, DueOn(day));
    forall t: Task
      ensures ActiveIn(day)(t) == (DueOn(day)(t) && !t.isCompleted)
    {
      MidnightWindow(day, t.dueDate);
    }
    CountSplit(tasks, DueOn(day), CompletedOn(day), ActiveIn(day));
    CountIsFilterLength(tasks, ActiveIn(day));
    var chosen := Filter(tasks, ActiveIn(day));
    TasksForDateSorted(tasks, date);
    assert |multiset(TasksForDate(tasks, date))| == |multiset(chosen)|;
  }

  /** An instant normalises to a midnight exactly when it lies in the day that midnight starts. */
  lemma MidnightWindow(day: int, x: int)
    requires TimeOfDay(day) == 0
    ensures NormalizedDate(x) == day <==> day <= x < day + 86_400_000
  {
    if day <= x < day + 86_400_000 {
      DayNumberOfDayStart(DayNumber(day), x - day);
    }
  }

  /** A day with no tasks scores (0, 0). */
  lemma EmptyDayScore(date: int)
    ensures CompletionScore([], date) == (0, 0)
  {
  }

  // ---------------------------------------------------------------------------------------------
  // Remaining time

  /** `getRemainingTime`: Long divisions truncate toward zero, so an overdue task shows a
      negative number of minutes. */
  function RemainingTime(dueDate: int, now: int): string
  {
    var diff := dueDate - now;
    var seconds := TruncDiv(diff, 1000);
    var minutes := TruncDiv(seconds, 60);
    var hours := TruncDiv(minutes, 60);
    var days := TruncDiv(hours, 24);
    if days > 0 then IntToString(days) + "d " + IntToString(TruncRem(hours, 24)) + "h"
    else if hours > 0 then IntToString(hours) + "h " + IntToString(TruncRem(minutes, 60)) + "m"
    else IntToString(minutes) + "m"
  }

  /** The three shapes of the remaining-time text, by how far away the due date is. */
  lemma RemainingTimeCases(dueDate: int, now: int)
    ensures var diff := dueDate - now;
      (diff >= 86_400_000 ==>
        RemainingTime(dueDate, now) == IntToString(diff / 86_400_000) + "d " + IntToString(diff / 3_600_000 % 24) + "h") &&
      (3_600_000 <= diff < 86_400_000 ==>
        RemainingTime(dueDate, now) == IntToString(diff / 3_600_000) + "h " + IntToString(diff / 60_000 % 60) + "m") &&
      (diff < 3_600_000 ==> RemainingTime(dueDate, now) == IntToString(TruncDiv(diff, 60_000)) + "m")
  {
    var diff := dueDate - now;
    var seconds := TruncDiv(diff, 1000);
    var minutes := TruncDiv(seconds, 60);
    var hours := TruncDiv(minutes, 60);
    var days := TruncDiv(hours, 24);
    assert minutes == TruncDiv(diff, 60_000) by { TruncDivTwice(diff, 1000, 60); }
    assert hours == TruncDiv(diff, 3_600_000) by { TruncDivTwice(diff, 60_000, 60); }
    assert days == TruncDiv(diff, 86_400_000) by { TruncDivTwice(diff, 3_600_000, 24); }
    if diff >= 0 {
      assert minutes == diff / 60_000 && hours == diff / 3_600_000 && days == diff / 86_400_000;
    }
  }

  /** Ninety seconds overdue reads "-1m"; a day, an hour and a minute ahead reads "1d 1h". */
  lemma RemainingTimeExamples(now: int)
    ensures RemainingTime(now - 90_000, now) == "-1m"
    ensures RemainingTime(now + 90_060_000, now) == "1d 1h"
    ensures RemainingTime(now + 3_660_000, now) == "1h 1m"
  {
    RemainingTimeCases(now - 90_000, now);
    RemainingTimeCases(now + 90_060_000, now);
    RemainingTimeCases(now + 3_660_000, now);
    assert IntToString(-1) == "-1" && IntToString(1) == "1";
  }

  // ---------------------------------------------------------------------------------------------
  // Habit end date and expansion

  /** `calculateHabitEndDate`: weeks win over months; with neither positive the end is the due
      date itself. */
  function HabitEndDate(h: Task): (r: int)
    ensures h.habitDurationWeeks > 0 ==> DayNumber(r) == DayNumber(h.dueDate) + 7 * h.habitDurationWeeks
    ensures h.habitDurationWeeks <= 0 && h.habitDurationMonths > 0 ==>
      CivilOf(r) == AddMonths(CivilOf(h.dueDate), h.habitDurationMonths)
    ensures TimeOfDay(r) == TimeOfDay(h.dueDate)
    ensures r == h.dueDate <==> h.habitDurationWeeks <= 0 && h.habitDurationMonths <= 0
    ensures r >= h.dueDate
  {
    if h.habitDurationWeeks > 0 then AddDays(h.dueDate, 7 * h.habitDurationWeeks)
    else if h.habitDurationMonths > 0 then
      AddMonthsToLater(h.dueDate, h.habitDurationMonths);
      AddMonthsTo(h.dueDate, h.habitDurationMonths)
    else h.dueDate
  }

  /** Without weeks, the end date is the due date moved on by the months. */
  lemma HabitEndDateOfMonths(h: Task)
    requires h.habitDurationWeeks <= 0 && h.habitDurationMonths > 0
    ensures HabitEndDate(h) == AddMonthsTo(h.dueDate, h.habitDurationMonths)
  {
  }

  /** Day `j` after the due date is an occurrence: not the due date itself, and its weekday
      is one of the habit days. */
  predicate IsOccurrenceDay(h: Task, j: int)
  {
    j >= 1 && DayOfWeekAt(AddDays(h.dueDate, j)) in h.habitDays
  }

  /** The occurrence instants among the first `n` days from the due date, in order. */
  function DatesUpTo(h: Task, n: nat): (r: seq<int>)
    ensures |r| <= n
  {
    if n == 0 then []
    else DatesUpTo(h, n - 1) + (if IsOccurrenceDay(h, n - 1) then [AddDays(h.dueDate, n - 1)] else [])
  }

  /** The number of days `start + j` (j = 0, 1, ..) that begin before `end`. */
  function DaysBefore(start: int, end: int): (n: nat)
  {
    if end <= start then 0 else (end - start + 86_399_999) / 86_400_000
  }

  /** Day `j` begins before `end` exactly when `j` is below `DaysBefore`. */
  lemma DaysBeforeExact(start: int, end: int, j: nat)
    ensures AddDays(start, j) < end <==> j < DaysBefore(start, end)
  {
    if end > start {
      var x := end - start + 86_399_999;
      var q := x / 86_400_000;
      assert q * 86_400_000 <= x < q * 86_400_000 + 86_400_000;
      if j < q {
        assert j * 86_400_000 <= q * 86_400_000 - 86_400_000;
      } else {
        assert j * 86_400_000 >= q * 86_400_000;
      }
    }
  }

  /** Between instants at the same time of day, `n` days apart, `n` days begin. */
  lemma DaysBeforeWhole(start: int, end: int, n: nat)
    requires TimeOfDay(start) == TimeOfDay(end) && DayNumber(end) == DayNumber(start) + n
    ensures DaysBefore(start, end) == n
  {
    InstantOfDay(start);
    InstantOfDay(end);
    assert end - start == n * 86_400_000;
  }

  /** The days on which `addHabitToSchedule` adds an occurrence, in chronological order. */
  function HabitDates(h: Task): seq<int>
  {
    DatesUpTo(h, DaysBefore(h.dueDate, HabitEndDate(h)))
  }

  lemma {:induction false} DatesUpToMembers(h: Task, n: nat, x: int)
    ensures x in DatesUpTo(h, n) <==> exists j :: 1 <= j < n && x == AddDays(h.dueDate, j) && IsOccurrenceDay(h, j)
  {
    if n > 0 {
      DatesUpToMembers(h, n - 1, x);
      if x == AddDays(h.dueDate, n - 1) && IsOccurrenceDay(h, n - 1) {
        assert 1 <= n - 1 < n;
      }
      if j :| 1 <= j < n && x == AddDays(h.dueDate, j) && IsOccurrenceDay(h, j) {
        if j == n - 1 {
        } else {
          assert 1 <= j < n - 1;
        }
      }
    }
  }

  /** Habit expansion emits exactly the days after the due date, stepping one day, that begin
      before the end date and fall on a habit weekday. */
  lemma HabitDatesExact(h: Task, x: int)
    ensures x in HabitDates(h) <==>
      (exists j :: j >= 1 && x == AddDays(h.dueDate, j) && x < HabitEndDate(h) && DayOfWeekAt(x) in h.habitDays)
  {
    var end := HabitEndDate(h);
    var n := DaysBefore(h.dueDate, end);
    DatesUpToMembers(h, n, x);
    if j :| j >= 1 && x == AddDays(h.dueDate, j) && x < end && DayOfWeekAt(x) in h.habitDays {
      DaysBeforeExact(h.dueDate, end, j);
      assert IsOccurrenceDay(h, j);
    }
    if j :| 1 <= j < n && x == AddDays(h.dueDate, j) && IsOccurrenceDay(h, j) {
      DaysBeforeExact(h.dueDate, end, j);
    }
  }

  /** The emitted days are in chronological order. */
  lemma {:induction false} DatesUpToIncreasing(h: Task, n: nat)
    ensures forall i, k :: 0 <= i < k < |DatesUpTo(h, n)| ==> DatesUpTo(h, n)[i] < DatesUpTo(h, n)[k]
    ensures forall i :: 0 <= i < |DatesUpTo(h, n)| ==> DatesUpTo(h, n)[i] < AddDays(h.dueDate, n)
  {
    if n > 0 {
      DatesUpToIncreasing(h, n - 1);
    }
  }

  /** Without a positive duration no occurrence is added, also for negative inputs. */
  lemma NoDurationNoOccurrences(h: Task)
    requires h.habitDurationWeeks <= 0 && h.habitDurationMonths <= 0
    ensures HabitDates(h) == []
  {
  }

  /** A generated occurrence: a copy on `date` that is not a habit, with the other fields at
      their defaults (not completed, no subtasks, no habit days). */
  function Occurrence(h: Task, date: int, id: string): (t: Task)
    ensures t.id == id && t.dueDate == date && !t.isHabit && !t.isCompleted && t.subtasks == []
    ensures t.title == h.title && t.description == h.description && t.category == h.category
    ensures t.dueTime == h.dueTime && t.createdDate == h.createdDate && t.createdBy == h.createdBy
    ensures t.assignees == h.assignees && t.priority == h.priority && t.reminderSet == h.reminderSet
    ensures t.durationMinutes == h.durationMinutes && t.taskColor == h.taskColor
    ensures t.habitDays == {} && t.habitDurationWeeks == 0 && t.habitDurationMonths == 0
  {
    var base := NewTask(id, h.title, h.description, h.category, date, h.createdDate, h.createdBy, h.assignees);
    base.(dueTime := h.dueTime, priority := h.priority, reminderSet := h.reminderSet,
          durationMinutes := h.durationMinutes, taskColor := h.taskColor)
  }

  /** One occurrence per date, the ids drawn in order from `freshId` starting at `first`. */
  function Occurrences(h: Task, dates: seq<int>, freshId: nat -> string, first: nat): (r: seq<Task>)
    ensures |r| == |dates|
    ensures forall i :: 0 <= i < |dates| ==> r[i] == Occurrence(h, dates[i], freshId(first + i))
  {
    seq(|dates|, i requires 0 <= i < |dates| => Occurrence(h, dates[i], freshId(first + i)))
  }

  /** A habit of one month from the first of a month runs for the days of that month. */
  lemma OneMonthLength(h: Task)
    requires h.habitDurationWeeks <= 0 && h.habitDurationMonths == 1 && CivilOf(h.dueDate).day == 1
    ensures DaysBefore(h.dueDate, HabitEndDate(h)) == DaysInMonth(CivilOf(h.dueDate).year, CivilOf(h.dueDate).month)
  {
    var d := h.dueDate;
    HabitEndDateOfMonths(h);
    MonthAfterFirstInstant(d);
    DaysBeforeWhole(d, AddMonthsTo(d, 1), DaysInMonth(CivilOf(d).year, CivilOf(d).month));
  }

  /** A Monday and Wednesday habit for one month, from a Monday that is the first of a month of
      31 days, occurs 2, 7, 9, 14, 16, 21, 23, 28 and 30 days after its due date. */
  lemma MondayWednesdayMonth(h: Task)
    requires Weekday(DayNumber(h.dueDate)) == 1 && CivilOf(h.dueDate).day == 1
    requires DaysInMonth(CivilOf(h.dueDate).year, CivilOf(h.dueDate).month) == 31
    requires h.habitDays == {Monday, Wednesday} && h.habitDurationWeeks == 0 && h.habitDurationMonths == 1
    ensures HabitDates(h) == [AddDays(h.dueDate, 2), AddDays(h.dueDate, 7), AddDays(h.dueDate, 9), AddDays(h.dueDate, 14), AddDays(h.dueDate, 16), AddDays(h.dueDate, 21), AddDays(h.dueDate, 23), AddDays(h.dueDate, 28), AddDays(h.dueDate, 30)]
  {
    OneMonthLength(h);
    MondayWednesday31(h);
  }

  /** The example of a habit on Mondays and Wednesdays for one month, starting on Monday,
      January 1, 2024 (day 19723) at any time: its occurrences are 2, 7, 9, .. 30 days later,
      which `JanuaryDate` places on January 3, 8, 10, 15, 17, 22, 24, 29 and 31. */
  lemma HabitExampleJanuary2024(h: Task)
    requires DayNumber(h.dueDate) == 19723
    requires h.habitDays == {Monday, Wednesday} && h.habitDurationWeeks == 0 && h.habitDurationMonths == 1
    ensures HabitDates(h) == [AddDays(h.dueDate, 2), AddDays(h.dueDate, 7), AddDays(h.dueDate, 9), AddDays(h.dueDate, 14), AddDays(h.dueDate, 16), AddDays(h.dueDate, 21), AddDays(h.dueDate, 23), AddDays(h.dueDate, 28), AddDays(h.dueDate, 30)]
  {
    NewYear2024();
    NewYear2024Month(h.dueDate);
    MondayWednesdayMonth(h);
  }

  /** Day `k` of January 2024 counted from the first. */
  lemma JanuaryDate(t: int, k: int)
    requires DayNumber(t) == 19723 && 0 <= k < 31
    ensures CivilOf(AddDays(t, k)) == Date(2024, 1, 1 + k)
  {
    NewYear2024();
    DaysFromCivilShift(2024, 1, 1, k);
    CivilOfDay(AddDays(t, k), Date(2024, 1, 1 + k));
  }

  /** Which days a Monday and Wednesday habit whose due date is a Monday hits. */
  lemma MondayWednesdayDay(h: Task, j: int)
    requires Weekday(DayNumber(h.dueDate)) == 1 && h.habitDays == {Monday, Wednesday} && 0 <= j
    ensures IsOccurrenceDay(h, j) <==> j >= 1 && (j % 7 == 0 || j % 7 == 2)
  {
    var z := DayNumber(h.dueDate);
    assert DayNumber(AddDays(h.dueDate, j)) == z + j;
    WeekdayShift(z, j);
  }

  /** One more day of expansion appends that day when it is an occurrence. */
  lemma DatesUpToStep(h: Task, n: nat, s: seq<int>)
    requires DatesUpTo(h, n) == s
    ensures IsOccurrenceDay(h, n) ==> DatesUpTo(h, n + 1) == s + [AddDays(h.dueDate, n)]
    ensures !IsOccurrenceDay(h, n) ==> DatesUpTo(h, n + 1) == s
  {
  }

  /** Days that are not occurrences add nothing. */
  lemma {:induction false} DatesUpToSkip(h: Task, a: nat, b: nat, s: seq<int>)
    requires a <= b && DatesUpTo(h, a) == s
    requires forall j :: a <= j < b ==> !IsOccurrenceDay(h, j)
    ensures DatesUpTo(h, b) == s
    decreases b - a
  {
    if a < b {
      DatesUpToSkip(h, a, b - 1, s);
    }
  }

  /** In the week of days `n` to `n + 6` after a Monday habit start, with day `n` a Tuesday, the
      Wednesday `n + 1` and the Monday `n + 6` are the occurrences. */
  lemma MondayWednesdayInWeek(h: Task, n: nat, j: int)
    requires Weekday(DayNumber(h.dueDate)) == 1 && h.habitDays == {Monday, Wednesday}
    requires n % 7 == 1 && n <= j < n + 7
    ensures IsOccurrenceDay(h, j) <==> j == n + 1 || j == n + 6
  {
    assert n == 7 * (n / 7) + 1;
    MondayWednesdayDay(h, j);
    assert j % 7 == j - n + 1 - (if j == n + 6 then 7 else 0);
  }

  /** A week of a Monday and Wednesday habit from a Monday: the Wednesday and the next Monday. */
  lemma MondayWednesdayWeek(h: Task, n: nat, s: seq<int>)
    requires Weekday(DayNumber(h.dueDate)) == 1 && h.habitDays == {Monday, Wednesday}
    requires n % 7 == 1 && DatesUpTo(h, n) == s
    ensures DatesUpTo(h, n + 7) == s + [AddDays(h.dueDate, n + 1), AddDays(h.dueDate, n + 6)]
  {
    var d := h.dueDate;
    var s1 := s + [AddDays(d, n + 1)];
    var s2 := s1 + [AddDays(d, n + 6)];
    forall j | n <= j < n + 7
      ensures IsOccurrenceDay(h, j) <==> j == n + 1 || j == n + 6
    {
      MondayWednesdayInWeek(h, n, j);
    }
    assert DatesUpTo(h, n + 1) == s by {
      DatesUpToSkip(h, n, n + 1, s);
    }
    assert DatesUpTo(h, n + 6) == s1 by {
      assert DatesUpTo(h, n + 2) == s1;
      DatesUpToSkip(h, n + 2, n + 6, s1);
    }
    assert DatesUpTo(h, n + 7) == s2;
    assert s2 == s + [AddDays(d, n + 1), AddDays(d, n + 6)];
  }

  /** The occurrences of a Monday and Wednesday habit from a Monday within its first 31 days. */
  lemma MondayWednesday31(h: Task)
    requires Weekday(DayNumber(h.dueDate)) == 1 && h.habitDays == {Monday, Wednesday}
    ensures DatesUpTo(h, 31) == [AddDays(h.dueDate, 2), AddDays(h.dueDate, 7), AddDays(h.dueDate, 9), AddDays(h.dueDate, 14), AddDays(h.dueDate, 16), AddDays(h.dueDate, 21), AddDays(h.dueDate, 23), AddDays(h.dueDate, 28), AddDays(h.dueDate, 30)]
  {
    var d := h.dueDate;
    var s1 := [AddDays(d, 2), AddDays(d, 7)];
    var s2 := s1 + [AddDays(d, 9), AddDays(d, 14)];
    var s3 := s2 + [AddDays(d, 16), AddDays(d, 21)];
    var s4 := s3 + [AddDays(d, 23), AddDays(d, 28)];
    assert DatesUpTo(h, 1) == [] by {
      MondayWednesdayDay(h, 0);
      DatesUpToStep(h, 0, []);
    }
    assert DatesUpTo(h, 8) == s1 by {
      MondayWednesdayWeek(h, 1, []);
    }
    assert DatesUpTo(h, 15) == s2 by {
      MondayWednesdayWeek(h, 8, s1);
    }
    assert DatesUpTo(h, 22) == s3 by {
      MondayWednesdayWeek(h, 15, s2);
    }
    assert DatesUpTo(h, 29) == s4 by {
      MondayWednesdayWeek(h, 22, s3);
    }
    assert DatesUpTo(h, 30) == s4 by {
      MondayWednesdayDay(h, 29);
      DatesUpToStep(h, 29, s4);
    }
    assert DatesUpTo(h, 31) == s4 + [AddDays(d, 30)] by {
      MondayWednesdayDay(h, 30);
      DatesUpToStep(h, 30, s4);
    }
  }

}
