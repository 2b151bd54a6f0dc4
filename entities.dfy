/** The Room entities the app stores and their mappers to and from the domain records. An entity
    refers to users and categories by id; turning it back into a domain record looks the ids up
    in maps the caller supplies. Dates are stored as their millisecond value unchanged. */
module Entities {

  import opened Wrappers
  import opened TaskModel

  // ---------------------------------------------------------------------------------------------
  // Users

  datatype UserEntity = UserEntity(id: string, name: string)

  function ToUser(e: UserEntity): (u: User)
    ensures u.id == e.id && u.name == e.name
  {
    User(e.id, e.name)
  }

  function FromUser(u: User): (e: UserEntity)
    ensures e.id == u.id && e.name == u.name
  {
    UserEntity(u.id, u.name)
  }

  /** The two user mappers are inverse to each other. */
  lemma UserRoundTrip(u: User, e: UserEntity)
    ensures ToUser(FromUser(u)) == u
    ensures FromUser(ToUser(e)) == e
  {
  }

  // ---------------------------------------------------------------------------------------------
  // Id lists

  /** The ids of `users`, in order (`map { it.id }`). */
  function Ids(users: seq<User>): (ids: seq<string>)
    ensures |ids| == |users| && forall i :: 0 <= i < |users| ==> ids[i] == users[i].id
  {
    if users == [] then [] else [users[0].id] + Ids(users[1..])
  }

  /** `mapNotNull { userMap[it] }`: the users the ids name, in order, skipping unknown ids. */
  function LookUpUsers(ids: seq<string>, userMap: map<string, User>): (users: seq<User>)
    ensures |users| <= |ids|
    ensures forall i :: 0 <= i < |users| ==> users[i] in userMap.Values
    ensures |users| == |ids| <==> forall i :: 0 <= i < |ids| ==> ids[i] in userMap
  {
    if ids == [] then []
    else
      var rest := LookUpUsers(ids[1..], userMap);
      assert forall i :: 1 <= i < |ids| ==> ids[i] == ids[1..][i - 1];
      if ids[0] in userMap then [userMap[ids[0]]] + rest else rest
  }

  /** Looking up a concatenation looks up each part: an unknown id is dropped where it stands and
      the order of the rest is kept. */
  lemma {:induction false} LookUpUsersAppend(a: seq<string>, b: seq<string>, userMap: map<string, User>)
    ensures LookUpUsers(a + b, userMap) == LookUpUsers(a, userMap) + LookUpUsers(b, userMap)
  {
    if a != [] {
      assert (a + b)[0] == a[0] && (a + b)[1..] == a[1..] + b;
      LookUpUsersAppend(a[1..], b, userMap);
    } else {
      assert a + b == b;
    }
  }

  /** An id the map does not hold contributes nothing; a known id contributes its user. */
  lemma LookUpOne(id: string, userMap: map<string, User>)
    ensures LookUpUsers([id], userMap) == if id in userMap then [userMap[id]] else []
  {
    assert [id][1..] == [];
  }

  /** Looking up the ids of users the map holds under their own ids gives the users back. */
  lemma {:induction false} LookUpIds(users: seq<User>, userMap: map<string, User>)
    requires forall i :: 0 <= i < |users| ==> users[i].id in userMap && userMap[users[i].id] == users[i]
    ensures LookUpUsers(Ids(users), userMap) == users
  {
    if users != [] {
      var ids := Ids(users);
      assert ids[1..] == Ids(users[1..]);
      LookUpIds(users[1..], userMap);
    }
  }

  // ---------------------------------------------------------------------------------------------
  // Categories

  datatype TaskCategoryEntity = TaskCategoryEntity(id: string, name: string, members: seq<string>, activeTasksCount: int)

  function ToTaskCategory(e: TaskCategoryEntity, userMap: map<string, User>): (c: TaskCategory)
    ensures c.id == e.id && c.name == e.name && c.activeTasksCount == e.activeTasksCount
    ensures c.members == LookUpUsers(e.members, userMap)
  {
    TaskCategory(e.id, e.name, LookUpUsers(e.members, userMap), e.activeTasksCount)
  }

  function FromTaskCategory(c: TaskCategory): (e: TaskCategoryEntity)
    ensures e.id == c.id && e.name == c.name && e.activeTasksCount == c.activeTasksCount
    ensures e.members == Ids(c.members)
  {
    TaskCategoryEntity(c.id, c.name, Ids(c.members), c.activeTasksCount)
  }

  /** A category survives storage when the user map holds every member under its id. */
  lemma CategoryRoundTrip(c: TaskCategory, userMap: map<string, User>)
    requires forall i :: 0 <= i < |c.members| ==>
      c.members[i].id in userMap && userMap[c.members[i].id] == c.members[i]
    ensures ToTaskCategory(FromTaskCategory(c), userMap) == c
  {
    LookUpIds(c.members, userMap);
  }

  // ---------------------------------------------------------------------------------------------
  // Subtasks

  datatype SubTaskEntity = SubTaskEntity(id: string, title: string, isCompleted: bool)

  function ToSubTask(e: SubTaskEntity): (s: SubTask)
    ensures s.id == e.id && s.title == e.title && s.isCompleted == e.isCompleted
  {
    SubTask(e.id, e.title, e.isCompleted)
  }

  function FromSubTask(s: SubTask): (e: SubTaskEntity)
    ensures e.id == s.id && e.title == s.title && e.isCompleted == s.isCompleted
  {
    SubTaskEntity(s.id, s.title, s.isCompleted)
  }

  /** `subtasks.map { it.toSubTask() }`: element by element, in order. */
  function ToSubTasks(es: seq<SubTaskEntity>): (ss: seq<SubTask>)
    ensures |ss| == |es| && forall i :: 0 <= i < |es| ==> ss[i] == ToSubTask(es[i])
  {
    if es == [] then [] else [ToSubTask(es[0])] + ToSubTasks(es[1..])
  }

  function FromSubTasks(ss: seq<SubTask>): (es: seq<SubTaskEntity>)
    ensures |es| == |ss| && forall i :: 0 <= i < |ss| ==> es[i] == FromSubTask(ss[i])
  {
    if ss == [] then [] else [FromSubTask(ss[0])] + FromSubTasks(ss[1..])
  }

  /** The subtask list mappers are inverse to each other. */
  lemma SubTasksRoundTrip(ss: seq<SubTask>, es: seq<SubTaskEntity>)
    ensures ToSubTasks(FromSubTasks(ss)) == ss
    ensures FromSubTasks(ToSubTasks(es)) == es
  {
  }

  // ---------------------------------------------------------------------------------------------
  // Habit days

  /** The names of the days in `days`, in the enumeration's declaration order from day `k` on.
      (A Kotlin set iterates in insertion order; this model fixes the declaration order.) */
  function DayNamesFrom(days: set<DayOfWeek>, k: nat): (names: seq<string>)
    requires k <= 7
    decreases 7 - k
  {
    if k == 7 then []
    else (if AllDays[k] in days then [DayName(AllDays[k])] else []) + DayNamesFrom(days, k + 1)
  }

  /** `habitDays.map { it.name }`. */
  function DayNames(days: set<DayOfWeek>): seq<string>
  {
    DayNamesFrom(days, 0)
  }

  /** The reasons turning an entity into a domain record can fail: `error(...)` on a missing
      category or user, and `valueOf` on a name no enum constant has. */
  datatype EntityError = CategoryNotFound(categoryId: string) | UserNotFound(userId: string) | NoEnumConstant(name: string)

  /** `habitDays.map { DayOfWeek.valueOf(it) }.toSet()`: the first bad name, in list order, fails. */
  function ParseDayNames(names: seq<string>): (r: Result<set<DayOfWeek>, EntityError>)
    ensures r.Failure? <==> exists i :: 0 <= i < |names| && DayValueOf(names[i]).None?
    ensures r.Success? ==> forall d :: d in r.value <==> DayName(d) in names
  {
    if names == [] then Success({})
    else
      var rest := ParseDayNames(names[1..]);
      assert forall i :: 1 <= i < |names| ==> names[i] == names[1..][i - 1];
      match DayValueOf(names[0])
      case None => Failure(NoEnumConstant(names[0]))
      case Some(d) =>
        if rest.Failure? then rest
        else
          assert forall e :: DayName(e) in names <==> DayName(e) == names[0] || DayName(e) in names[1..];
          Success({d} + rest.value)
  }

  /** Parsing a name in front of a parsed list adds the named day. */
  lemma ParseDayNamesCons(name: string, d: DayOfWeek, rest: seq<string>)
    requires DayValueOf(name) == Some(d) && ParseDayNames(rest).Success?
    ensures ParseDayNames([name] + rest) == Success({d} + ParseDayNames(rest).value)
  {
    assert ([name] + rest)[0] == name && ([name] + rest)[1..] == rest;
  }

  /** The days of `days` from position `k` of the declaration order on. */
  function DaysFrom(days: set<DayOfWeek>, k: nat): set<DayOfWeek>
  {
    set d | d in days && DayOrdinal(d) >= k
  }

  /** Storing a set of habit days as names and reading them back gives the set. */
  lemma {:induction false} DayNamesFromRoundTrip(days: set<DayOfWeek>, k: nat)
    requires k <= 7
    ensures ParseDayNames(DayNamesFrom(days, k)) == Success(DaysFrom(days, k))
    decreases 7 - k
  {
    if k == 7 {
      assert DaysFrom(days, k) == {};
    } else {
      DayNamesFromRoundTrip(days, k + 1);
      var rest := DayNamesFrom(days, k + 1);
      var day := AllDays[k];
      assert DayOrdinal(day) == k;
      if day in days {
        assert DayNamesFrom(days, k) == [DayName(day)] + rest;
        DaysEnumerated(day, day);
        ParseDayNamesCons(DayName(day), day, rest);
        assert DaysFrom(days, k) == {day} + DaysFrom(days, k + 1);
      } else {
        assert DayNamesFrom(days, k) == rest;
        assert DaysFrom(days, k) == DaysFrom(days, k + 1);
      }
    }
  }

  lemma HabitDaysRoundTrip(days: set<DayOfWeek>)
    ensures ParseDayNames(DayNames(days)) == Success(days)
  {
    DayNamesFromRoundTrip(days, 0);
    assert DaysFrom(days, 0) == days;
  }

  // ---------------------------------------------------------------------------------------------
  // Tasks

  datatype TaskEntity = TaskEntity(
    id: string,
    title: string,
    description: string,
    categoryId: string,
    dueDate: int,
    dueTime: Option<int>,
    createdDate: int,
    createdById: string,
    assigneeIds: seq<string>,
    isCompleted: bool,
    priority: string,
    reminderSet: bool,
    subtasks: seq<SubTaskEntity>,
    durationMinutes: int,
    taskColor: string,
    isHabit: bool,
    habitDays: seq<string>,
    habitDurationWeeks: int,
    habitDurationMonths: int)

  /** TaskEntity.toTask with the lookups evaluated in argument order: the category, the creator,
      the priority's name, then the habit days' names. Unknown assignees are dropped. */
  function ToTask(e: TaskEntity, categoryMap: map<string, TaskCategory>, userMap: map<string, User>)
    : (r: Result<Task, EntityError>)
    ensures e.categoryId !in categoryMap ==> r == Failure(CategoryNotFound(e.categoryId))
    ensures e.categoryId in categoryMap && e.createdById !in userMap ==> r == Failure(UserNotFound(e.createdById))
    ensures e.categoryId in categoryMap && e.createdById in userMap && PriorityValueOf(e.priority).None? ==>
      r == Failure(NoEnumConstant(e.priority))
    ensures r.Success? ==> var t := r.value;
      t.id == e.id && t.title == e.title && t.description == e.description &&
      t.category == categoryMap[e.categoryId] && t.createdBy == userMap[e.createdById] &&
      t.dueDate == e.dueDate && t.dueTime == e.dueTime && t.createdDate == e.createdDate &&
      t.assignees == LookUpUsers(e.assigneeIds, userMap) && t.isCompleted == e.isCompleted &&
      PriorityName(t.priority) == e.priority && t.reminderSet == e.reminderSet &&
      t.subtasks == ToSubTasks(e.subtasks) && t.durationMinutes == e.durationMinutes &&
      t.taskColor == e.taskColor && t.isHabit == e.isHabit &&
      ParseDayNames(e.habitDays) == Success(t.habitDays) &&
      t.habitDurationWeeks == e.habitDurationWeeks && t.habitDurationMonths == e.habitDurationMonths
  {
    if e.categoryId !in categoryMap then Failure(CategoryNotFound(e.categoryId))
    else if e.createdById !in userMap then Failure(UserNotFound(e.createdById))
    else match PriorityValueOf(e.priority)
      case None => Failure(NoEnumConstant(e.priority))
      case Some(priority) =>
        match ParseDayNames(e.habitDays)
        case Failure(err) => Failure(err)
        case Success(days) =>
          Success(Task(e.id, e.title, e.description, categoryMap[e.categoryId], e.dueDate, e.dueTime,
                       e.createdDate, userMap[e.createdById], LookUpUsers(e.assigneeIds, userMap),
                       e.isCompleted, priority, e.reminderSet, ToSubTasks(e.subtasks), e.durationMinutes,
                       e.taskColor, e.isHabit, days, e.habitDurationWeeks, e.habitDurationMonths))
  }

  /** TaskEntity.fromTask: references become ids, the priority and the habit days their names. */
  function FromTask(t: Task): (e: TaskEntity)
    ensures e.id == t.id && e.categoryId == t.category.id && e.createdById == t.createdBy.id
    ensures e.assigneeIds == Ids(t.assignees) && e.priority == PriorityName(t.priority)
    ensures e.subtasks == FromSubTasks(t.subtasks) && e.habitDays == DayNames(t.habitDays)
    ensures e.title == t.title && e.description == t.description && e.dueDate == t.dueDate
    ensures e.dueTime == t.dueTime && e.createdDate == t.createdDate && e.isCompleted == t.isCompleted
    ensures e.reminderSet == t.reminderSet && e.durationMinutes == t.durationMinutes
    ensures e.taskColor == t.taskColor && e.isHabit == t.isHabit
    ensures e.habitDurationWeeks == t.habitDurationWeeks && e.habitDurationMonths == t.habitDurationMonths
  {
    TaskEntity(t.id, t.title, t.description, t.category.id, t.dueDate, t.dueTime, t.createdDate,
               t.createdBy.id, Ids(t.assignees), t.isCompleted, PriorityName(t.priority), t.reminderSet,
               FromSubTasks(t.subtasks), t.durationMinutes, t.taskColor, t.isHabit, DayNames(t.habitDays),
               t.habitDurationWeeks, t.habitDurationMonths)
  }

  /** A task survives storage when the category map holds its category and the user map holds
      its creator and every assignee, each under its own id. */
  lemma TaskRoundTrip(t: Task, categoryMap: map<string, TaskCategory>, userMap: map<string, User>)
    requires t.category.id in categoryMap && categoryMap[t.category.id] == t.category
    requires t.createdBy.id in userMap && userMap[t.createdBy.id] == t.createdBy
    requires forall i :: 0 <= i < |t.assignees| ==>
      t.assignees[i].id in userMap && userMap[t.assignees[i].id] == t.assignees[i]
    ensures ToTask(FromTask(t), categoryMap, userMap) == Success(t)
  {
    LookUpIds(t.assignees, userMap);
    HabitDaysRoundTrip(t.habitDays);
    SubTasksRoundTrip(t.subtasks, []);
    PriorityOrder(t.priority, t.priority);
  }
}
