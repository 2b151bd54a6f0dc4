/** The `TaskRepository` object as a store whose task and category lists change in place: adding
    tasks (with habit expansion), completing them, subtask and category operations, and the two
    queries that build their results in a loop. Fresh UUIDs come from `freshId`, drawn in order;
    `idsUsed` counts the ids drawn so far. */
module TaskStore {

  import opened Wrappers
  import opened Lists
  import opened CivilTime
  import opened TaskModel
  import opened Repository

  // ---------------------------------------------------------------------------------------------
  // The arguments of addTask and the task it builds

  /** The parameters of `addTask`, with the defaults the caller may leave out. */
  datatype NewTaskRequest = NewTaskRequest(
    title: string,
    description: string,
    categoryId: string,
    dueDate: int,
    dueTime: Option<int>,
    assigneeIds: seq<string>,
    priority: TaskPriority,
    reminderSet: bool,
    durationMinutes: int,
    taskColor: string,
    isHabit: bool,
    habitDays: set<DayOfWeek>,
    habitDurationWeeks: int,
    habitDurationMonths: int)

  /** The task `addTask` builds: created now by the current user (the first of `users`), assigned
      to the users whose ids were asked for, not completed and without subtasks. */
  function CreatedTask(req: NewTaskRequest, users: seq<User>, category: TaskCategory, id: string, now: int): (t: Task)
    requires |users| > 0
    ensures t.id == id && t.category == category && t.createdDate == now && t.createdBy == users[0]
    ensures t.assignees == UsersWithIds(users, req.assigneeIds)
    ensures !t.isCompleted && t.subtasks == []
    ensures t.title == req.title && t.description == req.description && t.dueDate == req.dueDate
    ensures t.dueTime == req.dueTime && t.priority == req.priority && t.reminderSet == req.reminderSet
    ensures t.durationMinutes == req.durationMinutes && t.taskColor == req.taskColor
    ensures t.isHabit == req.isHabit && t.habitDays == req.habitDays
    ensures t.habitDurationWeeks == req.habitDurationWeeks && t.habitDurationMonths == req.habitDurationMonths
  {
    var base := NewTask(id, req.title, req.description, category, req.dueDate, now, users[0],
                        UsersWithIds(users, req.assigneeIds));
    base.(dueTime := req.dueTime, priority := req.priority, reminderSet := req.reminderSet,
          durationMinutes := req.durationMinutes, taskColor := req.taskColor, isHabit := req.isHabit,
          habitDays := req.habitDays, habitDurationWeeks := req.habitDurationWeeks,
          habitDurationMonths := req.habitDurationMonths)
  }

  /** Only a habit with at least one day is expanded. */
  predicate Expands(t: Task)
  {
    t.isHabit && t.habitDays != {}
  }

  /** The tasks `addTask` appends: the task, then its occurrences when it expands, with ids
      drawn after the task's own. */
  function AddedTasks(t: Task, freshId: nat -> string, next: nat): seq<Task>
  {
    [t] + (if Expands(t) then Occurrences(t, HabitDates(t), freshId, next) else [])
  }

  lemma AppendAdded(before: seq<Task>, t: Task, freshId: nat -> string, next: nat, occurrences: seq<Task>)
    requires occurrences == if Expands(t) then Occurrences(t, HabitDates(t), freshId, next) else []
    ensures before + [t] + occurrences == before + AddedTasks(t, freshId, next)
    ensures |AddedTasks(t, freshId, next)| == 1 + |occurrences|
  {
  }

  /** Every added occurrence is a non-habit copy of the task on one of its habit dates, and there
      is none unless the task is a habit with days. */
  lemma AddedTasksShape(t: Task, freshId: nat -> string, next: nat)
    ensures AddedTasks(t, freshId, next)[0] == t
    ensures !Expands(t) ==> AddedTasks(t, freshId, next) == [t]
    ensures Expands(t) ==> |AddedTasks(t, freshId, next)| == 1 + |HabitDates(t)|
    ensures Expands(t) ==> forall i :: 1 <= i < |AddedTasks(t, freshId, next)| ==>
      AddedTasks(t, freshId, next)[i] == Occurrence(t, HabitDates(t)[i - 1], freshId(next + i - 1)) &&
      !AddedTasks(t, freshId, next)[i].isHabit
  {
  }

  // ---------------------------------------------------------------------------------------------
  // Completing a task

  /** `completeTask` on a list: the first task with the id is marked completed. */
  function MarkCompleted(tasks: seq<Task>, id: string): (r: seq<Task>)
    ensures |r| == |tasks|
  {
    var i := IndexOfFirst(tasks, HasId(id));
    if i < 0 then tasks else tasks[i := tasks[i].(isCompleted := true)]
  }

  /** Completing changes only the first task with the id, and only its completion flag; with no
      such task nothing changes. */
  lemma MarkCompletedEffect(tasks: seq<Task>, id: string)
    ensures TaskById(tasks, id).None? ==> MarkCompleted(tasks, id) == tasks
    ensures TaskById(tasks, id).Some? ==>
      TaskById(MarkCompleted(tasks, id), id) == Some(TaskById(tasks, id).value.(isCompleted := true))
    ensures forall k :: 0 <= k < |tasks| ==>
      MarkCompleted(tasks, id)[k] ==
        if tasks[k].id == id && (forall j :: 0 <= j < k ==> tasks[j].id != id)
        then tasks[k].(isCompleted := true) else tasks[k]
  {
    var i := IndexOfFirst(tasks, HasId(id));
    var r := MarkCompleted(tasks, id);
    if i >= 0 {
      IndexOfFirstCongruent(tasks, r, HasId(id));
      forall k | 0 <= k < |tasks|
        ensures r[k] == if tasks[k].id == id && (forall j :: 0 <= j < k ==> tasks[j].id != id)
                        then tasks[k].(isCompleted := true) else tasks[k]
      {
        if k > i {
          assert tasks[i].id == id;
        }
      }
    }
  }

  /** Completing the same task twice is completing it once. */
  lemma MarkCompletedIdempotent(tasks: seq<Task>, id: string)
    ensures MarkCompleted(MarkCompleted(tasks, id), id) == MarkCompleted(tasks, id)
  {
    var r := MarkCompleted(tasks, id);
    IndexOfFirstCongruent(tasks, r, HasId(id));
  }

  // ---------------------------------------------------------------------------------------------
  // Subtasks

  function AppendSubtask(t: Task, s: SubTask): (r: Task)
    ensures r.subtasks == t.subtasks + [s] && r == t.(subtasks := r.subtasks)
  {
    t.(subtasks := t.subtasks + [s])
  }

  function HasSubtaskId(id: string): SubTask -> bool
  {
    (s: SubTask) => s.id == id
  }

  function LacksSubtaskId(id: string): SubTask -> bool
  {
    (s: SubTask) => s.id != id
  }

  /** `toggleSubtaskStatus` on a subtask list: the first subtask with the id flips. */
  function ToggleFirst(subs: seq<SubTask>, id: string): (r: seq<SubTask>)
    ensures |r| == |subs|
    ensures forall k :: 0 <= k < |subs| ==> r[k].id == subs[k].id && r[k].title == subs[k].title
  {
    var i := IndexOfFirst(subs, HasSubtaskId(id));
    if i < 0 then subs else subs[i := subs[i].(isCompleted := !subs[i].isCompleted)]
  }

  /** Exactly the first subtask with the id changes, and toggling twice restores the list. */
  lemma ToggleFirstEffect(subs: seq<SubTask>, id: string)
    ensures var i := IndexOfFirst(subs, HasSubtaskId(id));
      forall k :: 0 <= k < |subs| ==>
        (ToggleFirst(subs, id)[k].isCompleted != subs[k].isCompleted <==> k == i)
    ensures ToggleFirst(ToggleFirst(subs, id), id) == subs
  {
    var r := ToggleFirst(subs, id);
    IndexOfFirstCongruent(subs, r, HasSubtaskId(id));
  }

  /** `removeIf { it.id == subtaskId }` reports a removal exactly when a subtask had the id. */
  lemma RemoveSubtasksEffect(subs: seq<SubTask>, id: string)
    ensures forall k :: 0 <= k < |Filter(subs, LacksSubtaskId(id))| ==> Filter(subs, LacksSubtaskId(id))[k].id != id
    ensures (|Filter(subs, LacksSubtaskId(id))| < |subs|) <==> exists k :: 0 <= k < |subs| && subs[k].id == id
  {
    FilterShorter(subs, LacksSubtaskId(id));
  }

  // ---------------------------------------------------------------------------------------------
  // Categories

  function HasCategoryId(id: string): TaskCategory -> bool
  {
    (c: TaskCategory) => c.id == id
  }

  function OutsideCategory(id: string): Task -> bool
  {
    (t: Task) => t.category.id != id
  }

  /** After a category is deleted no task refers to it, and every other task stays, in order. */
  lemma DeleteCategoryCascade(tasks: seq<Task>, id: string)
    ensures forall k :: 0 <= k < |Filter(tasks, OutsideCategory(id))| ==> Filter(tasks, OutsideCategory(id))[k].category.id != id
    ensures forall k :: 0 <= k < |tasks| && tasks[k].category.id != id ==> tasks[k] in Filter(tasks, OutsideCategory(id))
    ensures (forall k :: 0 <= k < |tasks| ==> tasks[k].category.id != id) ==> Filter(tasks, OutsideCategory(id)) == tasks
  {
    if forall k :: 0 <= k < |tasks| ==> tasks[k].category.id != id {
      FilterAll(tasks, OutsideCategory(id));
    }
  }

  // ---------------------------------------------------------------------------------------------
  // Completed tasks grouped by day

  /** The key of `getCompletedTasksByDate`: the normalised due date. */
  function DueDay(t: Task): int
  {
    NormalizedDate(t.dueDate)
  }

  /** One step of `getCompletedTasksByDate`'s loop is one step of the grouping. */
  lemma GroupByDayStep(s: seq<Task>, i: nat)
    requires i < |s|
    ensures GroupBy(s[..i + 1], DueDay) == AddToGroup(GroupBy(s[..i], DueDay), DueDay(s[i]), s[i])
  {
    assert s[..i + 1][..i] == s[..i];
  }

  /** The completed tasks by day: one group per day, each holding that day's completed tasks in
      store order, and a group for every completed task. */
  lemma CompletedByDayCorrect(tasks: seq<Task>)
    ensures var groups := GroupBy(CompletedTasks(tasks), DueDay);
      (forall i, j :: 0 <= i < j < |groups| ==> groups[i].0 != groups[j].0) &&
      (forall i :: 0 <= i < |groups| ==> groups[i].1 == Filter(CompletedTasks(tasks), HasKey(DueDay, groups[i].0))) &&
      (forall t :: t in CompletedTasks(tasks) ==> exists i :: 0 <= i < |groups| && groups[i].0 == DueDay(t) && t in groups[i].1)
  {
    var done := CompletedTasks(tasks);
    var groups := GroupBy(done, DueDay);
    GroupByCorrect(done, DueDay);
    forall t | t in done
      ensures exists i :: 0 <= i < |groups| && groups[i].0 == DueDay(t) && t in groups[i].1
    {
      var k :| 0 <= k < |done| && done[k] == t;
      var i := GroupIndex(groups, DueDay(done[k]));
      assert HasKey(DueDay, groups[i].0)(done[k]);
    }
  }

  // ---------------------------------------------------------------------------------------------
  // The store

  class TaskRepository {

    /** The source of `UUID.randomUUID()`: the n-th id drawn. */
    const freshId: nat -> string
    /** The known users; the first is the one signed in. */
    const users: seq<User>
    var idsUsed: nat
    var taskCategories: seq<TaskCategory>
    var tasks: seq<Task>

    /** The store with the built-in categories and the given tasks. */
    constructor (freshId: nat -> string, initialTasks: seq<Task>)
      ensures this.freshId == freshId && idsUsed == 0 && users == SampleUsers && Valid()
      ensures taskCategories == SampleCategories && tasks == initialTasks
    {
      this.freshId := freshId;
      users := SampleUsers;
      idsUsed := 0;
      taskCategories := SampleCategories;
      tasks := initialTasks;
    }

    /** There is a signed-in user. */
    predicate Valid()
    {
      |users| > 0
    }

    /** `addTask`: an unknown category fails with "Invalid category ID" and changes nothing;
        otherwise the new task, and for a habit with days its occurrences, are appended. */
    method AddTask(req: NewTaskRequest, now: int) returns (r: Result<Task, string>)
      requires Valid()
      modifies this
      ensures taskCategories == old(taskCategories)
      ensures FindCategory(old(taskCategories), req.categoryId).None? ==>
        r == Failure(InvalidCategory) && tasks == old(tasks) && idsUsed == old(idsUsed)
      ensures FindCategory(old(taskCategories), req.categoryId).Some? ==>
        r == Success(CreatedTask(req, users, FindCategory(old(taskCategories), req.categoryId).value, freshId(old(idsUsed)), now)) &&
        tasks == old(tasks) + AddedTasks(r.value, freshId, old(idsUsed) + 1) &&
        idsUsed - old(idsUsed) == |tasks| - |old(tasks)|
    {
      var category := FindCategory(taskCategories, req.categoryId);
      if category.None? {
        return Failure(InvalidCategory);
      }
      var t := CreatedTask(req, users, category.value, freshId(idsUsed), now);
      idsUsed := idsUsed + 1;
      Insert(t);
      r := Success(t);
    }

    /** The end of `addTask`: the task is appended and, for a habit with days, expanded. */
    method Insert(t: Task)
      modifies this
      ensures tasks == old(tasks) + AddedTasks(t, freshId, old(idsUsed))
      ensures idsUsed - old(idsUsed) == |tasks| - |old(tasks)| - 1
      ensures taskCategories == old(taskCategories)
    {
      tasks := tasks + [t];
      ghost var occurrences: seq<Task> := [];
      if t.isHabit && t.habitDays != {} {
        occurrences := Occurrences(t, HabitDates(t), freshId, idsUsed);
        AddHabitToSchedule(t);
      }
      AppendAdded(old(tasks), t, freshId, old(idsUsed), occurrences);
    }

    /** `addHabitToSchedule`: appends an occurrence on each habit day before the end date. */
    method AddHabitToSchedule(h: Task)
      modifies this
      ensures tasks == old(tasks) + Occurrences(h, HabitDates(h), freshId, old(idsUsed))
      ensures idsUsed == old(idsUsed) + |HabitDates(h)|
      ensures taskCategories == old(taskCategories)
    {
      var endDate := HabitEndDate(h);
      tasks, idsUsed := WalkHabit(h, endDate, tasks, idsUsed, freshId);
    }

    /** `completeTask`: true, and the first task with the id completed, or false and no change. */
    method CompleteTask(taskId: string) returns (ok: bool)
      modifies this
      ensures ok <==> TaskById(old(tasks), taskId).Some?
      ensures tasks == MarkCompleted(old(tasks), taskId)
      ensures taskCategories == old(taskCategories) && idsUsed == old(idsUsed)
    {
      var i := IndexOfFirst(tasks, HasId(taskId));
      if i != -1 {
        tasks := tasks[i := tasks[i].(isCompleted := true)];
        return true;
      }
      return false;
    }

    /** `addSubtask`: a new uncompleted subtask is appended to the first task with the id. */
    method AddSubtask(taskId: string, subtaskTitle: string) returns (ok: bool)
      modifies this
      ensures var i := IndexOfFirst(old(tasks), HasId(taskId));
        (ok <==> i >= 0) &&
        (i < 0 ==> tasks == old(tasks) && idsUsed == old(idsUsed)) &&
        (i >= 0 ==> (idsUsed == old(idsUsed) + 1 &&
          tasks == old(tasks)[i := AppendSubtask(old(tasks)[i], NewSubTask(freshId(old(idsUsed)), subtaskTitle))]))
      ensures taskCategories == old(taskCategories)
    {
      var i := IndexOfFirst(tasks, HasId(taskId));
      if i != -1 {
        var subtask := NewSubTask(freshId(idsUsed), subtaskTitle);
        idsUsed := idsUsed + 1;
        tasks := tasks[i := AppendSubtask(tasks[i], subtask)];
        return true;
      }
      return false;
    }

    /** `toggleSubtaskStatus`: false, with no change, when the task or the subtask is missing;
        otherwise the first matching subtask of the first matching task flips. */
    method ToggleSubtaskStatus(taskId: string, subtaskId: string) returns (ok: bool)
      modifies this
      ensures var i := IndexOfFirst(old(tasks), HasId(taskId));
        (ok <==> i >= 0 && IndexOfFirst(old(tasks)[i].subtasks, HasSubtaskId(subtaskId)) >= 0) &&
        (!ok ==> tasks == old(tasks)) &&
        (ok ==> tasks == old(tasks)[i := old(tasks)[i].(subtasks := ToggleFirst(old(tasks)[i].subtasks, subtaskId))])
      ensures taskCategories == old(taskCategories) && idsUsed == old(idsUsed)
    {
      var i := IndexOfFirst(tasks, HasId(taskId));
      if i == -1 {
        return false;
      }
      var task := tasks[i];
      var k := IndexOfFirst(task.subtasks, HasSubtaskId(subtaskId));
      if k == -1 {
        return false;
      }
      var subtask := task.subtasks[k];
      tasks := tasks[i := task.(subtasks := task.subtasks[k := subtask.(isCompleted := !subtask.isCompleted)])];
      return true;
    }

    /** `deleteSubtask`: every subtask with the id leaves the first task with the task id; the
        result says whether any did. */
    method DeleteSubtask(taskId: string, subtaskId: string) returns (removed: bool)
      modifies this
      ensures var i := IndexOfFirst(old(tasks), HasId(taskId));
        (i < 0 ==> !removed && tasks == old(tasks)) &&
        (i >= 0 ==>
          (removed <==> exists k :: 0 <= k < |old(tasks)[i].subtasks| && old(tasks)[i].subtasks[k].id == subtaskId) &&
          tasks == old(tasks)[i := old(tasks)[i].(subtasks := Filter(old(tasks)[i].subtasks, LacksSubtaskId(subtaskId)))])
      ensures taskCategories == old(taskCategories) && idsUsed == old(idsUsed)
    {
      var i := IndexOfFirst(tasks, HasId(taskId));
      if i == -1 {
        return false;
      }
      var task := tasks[i];
      var kept := Filter(task.subtasks, LacksSubtaskId(subtaskId));
      RemoveSubtasksEffect(task.subtasks, subtaskId);
      removed := |kept| < |task.subtasks|;
      tasks := tasks[i := task.(subtasks := kept)];
    }

    /** `addCategory`: a new category with one active task counted and the current user as its
        only member is appended. */
    method AddCategory(name: string) returns (c: TaskCategory)
      requires Valid()
      modifies this
      ensures c == TaskCategory(freshId(old(idsUsed)), name, [users[0]], 1)
      ensures taskCategories == old(taskCategories) + [c]
      ensures tasks == old(tasks) && idsUsed == old(idsUsed) + 1
    {
      c := TaskCategory(freshId(idsUsed), name, [users[0]], 1);
      idsUsed := idsUsed + 1;
      taskCategories := taskCategories + [c];
    }

    /** `deleteCategory`: the first category with the id is removed and so is every task in a
        category with that id; an unknown id returns false and changes nothing. */
    method DeleteCategory(categoryId: string) returns (ok: bool)
      modifies this
      ensures var i := IndexOfFirst(old(taskCategories), HasCategoryId(categoryId));
        (ok <==> i >= 0) &&
        (i < 0 ==> taskCategories == old(taskCategories) && tasks == old(tasks)) &&
        (i >= 0 ==> (taskCategories == old(taskCategories)[..i] + old(taskCategories)[i + 1..] &&
          tasks == Filter(old(tasks), OutsideCategory(categoryId))))
      ensures idsUsed == old(idsUsed)
    {
      var i := IndexOfFirst(taskCategories, HasCategoryId(categoryId));
      if i != -1 {
        taskCategories := taskCategories[..i] + taskCategories[i + 1..];
        tasks := Filter(tasks, OutsideCategory(categoryId));
        return true;
      }
      return false;
    }

    /** `getTasksForWeek`: the seven days from `startDate`, each with `getTasksForDate` of it. */
    method GetTasksForWeek(startDate: int) returns (week: seq<(int, seq<Task>)>)
      ensures |week| == 7
      ensures forall i :: 0 <= i < 7 ==> week[i] == (AddDays(startDate, i), TasksForDate(tasks, AddDays(startDate, i)))
      ensures forall i, j :: 0 <= i < j < 7 ==> week[i].0 < week[j].0
    {
      week := [];
      var current := startDate;
      for i := 0 to 7
        invariant current == AddDays(startDate, i) && week == WeekFrom(tasks, startDate, i)
      {
        week := week + [(current, TasksForDate(tasks, current))];
        current := current + 86_400_000;
      }
      WeekFromEntries(tasks, startDate, 7);
    }

    /** `getCompletedTasksByDate`: the completed tasks grouped under their normalised due date,
        the days in the order they first occur. */
    method GetCompletedTasksByDate() returns (groups: seq<(int, seq<Task>)>)
      ensures groups == GroupBy(CompletedTasks(tasks), DueDay)
    {
      var completedTasks := CompletedTasks(tasks);
      groups := [];
      for i := 0 to |completedTasks|
        invariant groups == GroupBy(completedTasks[..i], DueDay)
      {
        var task := completedTasks[i];
        var normalizedDate := NormalizedDate(task.dueDate);
        ghost var before := groups;
        var g := GroupIndex(groups, normalizedDate);
        if g == -1 {
          groups := groups + [(normalizedDate, [task])];
        } else {
          groups := groups[g := (normalizedDate, groups[g].1 + [task])];
        }
        assert groups == AddToGroup(before, DueDay(task), task);
        GroupByDayStep(completedTasks, i);
      }
      assert completedTasks[..|completedTasks|] == completedTasks;
    }
  }

  /** The first `n` days from `start`, each paired with its `getTasksForDate` list. */
  function WeekFrom(tasks: seq<Task>, start: int, n: nat): seq<(int, seq<Task>)>
  {
    if n == 0 then [] else WeekFrom(tasks, start, n - 1) + [(AddDays(start, n - 1), TasksForDate(tasks, AddDays(start, n - 1)))]
  }

  lemma {:induction false} WeekFromEntries(tasks: seq<Task>, start: int, n: nat)
    ensures |WeekFrom(tasks, start, n)| == n
    ensures forall i :: 0 <= i < n ==> WeekFrom(tasks, start, n)[i] == (AddDays(start, i), TasksForDate(tasks, AddDays(start, i)))
    ensures forall i, j :: 0 <= i < j < n ==> WeekFrom(tasks, start, n)[i].0 < WeekFrom(tasks, start, n)[j].0
  {
    if n > 0 {
      WeekFromEntries(tasks, start, n - 1);
    }
  }

  /** The loop of `addHabitToSchedule`: walks from the due date one day at a time while before
      `endDate`, appending an occurrence on each habit weekday except the due date itself, each
      with the next fresh id. */
  method WalkHabit(h: Task, endDate: int, before: seq<Task>, first: nat, freshId: nat -> string)
    returns (added: seq<Task>, next: nat)
    ensures added == before + Occurrences(h, DatesUpTo(h, DaysBefore(h.dueDate, endDate)), freshId, first)
    ensures next == first + |DatesUpTo(h, DaysBefore(h.dueDate, endDate))|
  {
    var current := h.dueDate;
    added, next := before, first;
    ghost var j: nat := 0;
    ghost var n := DaysBefore(h.dueDate, endDate);
    ghost var emitted: seq<int> := [];
    while current < endDate
      invariant current == AddDays(h.dueDate, j) && j <= n
      invariant emitted == DatesUpTo(h, j)
      invariant added == before + Occurrences(h, emitted, freshId, first)
      invariant next == first + |emitted|
      decreases endDate - current
    {
      var dayOfWeek := DayOfWeekOfField(DayOfWeekField(current));
      HabitStep(before, added, h, emitted, j, current, endDate, freshId, first);
      if dayOfWeek.Some? && dayOfWeek.value in h.habitDays {
        if current != h.dueDate {
          added := added + [Occurrence(h, current, freshId(next))];
          next := next + 1;
          emitted := emitted + [current];
        }
      }
      current := current + 86_400_000;
      j := j + 1;
    }
    DaysBeforeExact(h.dueDate, endDate, j);
  }

  /** One step of the walk of `addHabitToSchedule`: the day is still before the end date, and
      the dates and the store grow by the day exactly when it is emitted. */
  lemma HabitStep(before: seq<Task>, tasks: seq<Task>, h: Task, emitted: seq<int>, j: nat, current: int,
                  endDate: int, freshId: nat -> string, first: nat)
    requires current == AddDays(h.dueDate, j) && current < endDate
    requires emitted == DatesUpTo(h, j) && tasks == before + Occurrences(h, emitted, freshId, first)
    ensures j < DaysBefore(h.dueDate, endDate)
    ensures var c := DayOfWeekOfField(DayOfWeekField(current));
      if c.Some? && c.value in h.habitDays && current != h.dueDate then
        DatesUpTo(h, j + 1) == emitted + [current] &&
        tasks + [Occurrence(h, current, freshId(first + |emitted|))] ==
          before + Occurrences(h, emitted + [current], freshId, first)
      else DatesUpTo(h, j + 1) == emitted
  {
    DaysBeforeExact(h.dueDate, endDate, j);
    DatesUpToNext(h, j, current);
    AppendOccurrence(before, tasks, h, emitted, current, freshId, first);
  }

  /** One more day of the walk adds the day exactly when its weekday field names a habit day
      and it is not the due date itself. */
  lemma DatesUpToNext(h: Task, j: nat, current: int)
    requires current == AddDays(h.dueDate, j)
    ensures var c := DayOfWeekOfField(DayOfWeekField(current));
      DatesUpTo(h, j + 1) ==
        DatesUpTo(h, j) + (if c.Some? && c.value in h.habitDays && current != h.dueDate then [current] else [])
  {
  }

  /** The store after one more occurrence is appended. */
  lemma AppendOccurrence(before: seq<Task>, tasks: seq<Task>, h: Task, emitted: seq<int>, x: int,
                         freshId: nat -> string, first: nat)
    requires tasks == before + Occurrences(h, emitted, freshId, first)
    ensures tasks + [Occurrence(h, x, freshId(first + |emitted|))] == before + Occurrences(h, emitted + [x], freshId, first)
  {
    OccurrencesSnoc(h, emitted, x, freshId, first);
  }

  /** Appending a date appends its occurrence, with the next id. */
  lemma OccurrencesSnoc(h: Task, dates: seq<int>, x: int, freshId: nat -> string, first: nat)
    ensures Occurrences(h, dates + [x], freshId, first) ==
      Occurrences(h, dates, freshId, first) + [Occurrence(h, x, freshId(first + |dates|))]
  {
    assert (dates + [x])[..|dates|] == dates;
  }
}
