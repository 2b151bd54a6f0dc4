/** The app's domain records: users, categories, tasks with their subtasks, the priority and
    weekday enumerations, and the cells of the month calendar. Instants are milliseconds. */
module TaskModel {

  import opened Wrappers
  import opened CivilTime

  /** A user (the User class is not part of this model; its fields are read off UserEntity). */
  datatype User = User(id: string, name: string)

  datatype TaskCategory = TaskCategory(id: string, name: string, members: seq<User>, activeTasksCount: int)

  datatype SubTask = SubTask(id: string, title: string, isCompleted: bool)

  /** A subtask as constructed with its default completion flag. */
  function NewSubTask(id: string, title: string): (s: SubTask)
    ensures s.id == id && s.title == title && !s.isCompleted
  {
    SubTask(id, title, false)
  }

  // ---------------------------------------------------------------------------------------------
  // Priorities

  datatype TaskPriority = Low | Medium | High

  /** Enum.ordinal: the position in the declaration LOW, MEDIUM, HIGH. */
  function Ordinal(p: TaskPriority): (n: nat)
    ensures n < 3
  {
    match p
    case Low => 0
    case Medium => 1
    case High => 2
  }

  /** Enum.name. */
  function PriorityName(p: TaskPriority): string
  {
    match p
    case Low => "LOW"
    case Medium => "MEDIUM"
    case High => "HIGH"
  }

  /** TaskPriority.valueOf: None where the JVM throws IllegalArgumentException. */
  function PriorityValueOf(name: string): (r: Option<TaskPriority>)
    ensures r.Some? ==> PriorityName(r.value) == name
  {
    if name == "LOW" then Some(Low)
    else if name == "MEDIUM" then Some(Medium)
    else if name == "HIGH" then Some(High)
    else None
  }

  /** The ordinals are distinct and ascend in declaration order, so sorting them descending puts
      HIGH first; the name of a priority is read back by valueOf. */
  lemma PriorityOrder(p: TaskPriority, q: TaskPriority)
    ensures Ordinal(p) == Ordinal(q) <==> p == q
    ensures Ordinal(Low) < Ordinal(Medium) < Ordinal(High)
    ensures PriorityValueOf(PriorityName(p)) == Some(p)
  {
  }

  // ---------------------------------------------------------------------------------------------
  // Days of the week

  datatype DayOfWeek = Monday | Tuesday | Wednesday | Thursday | Friday | Saturday | Sunday

  /** The seven values in declaration order, with each value's position. */
  const AllDays: seq<DayOfWeek> := [Monday, Tuesday, Wednesday, Thursday, Friday, Saturday, Sunday]

  function DayOrdinal(d: DayOfWeek): (n: nat)
    ensures n < 7 && AllDays[n] == d
  {
    match d
    case Monday => 0
    case Tuesday => 1
    case Wednesday => 2
    case Thursday => 3
    case Friday => 4
    case Saturday => 5
    case Sunday => 6
  }

  function DayName(d: DayOfWeek): string
  {
    match d
    case Monday => "MONDAY"
    case Tuesday => "TUESDAY"
    case Wednesday => "WEDNESDAY"
    case Thursday => "THURSDAY"
    case Friday => "FRIDAY"
    case Saturday => "SATURDAY"
    case Sunday => "SUNDAY"
  }

  /** DayOfWeek.valueOf: None where the JVM throws IllegalArgumentException. */
  function DayValueOf(name: string): (r: Option<DayOfWeek>)
    ensures r.Some? ==> DayName(r.value) == name
  {
    if name == "MONDAY" then Some(Monday)
    else if name == "TUESDAY" then Some(Tuesday)
    else if name == "WEDNESDAY" then Some(Wednesday)
    else if name == "THURSDAY" then Some(Thursday)
    else if name == "FRIDAY" then Some(Friday)
    else if name == "SATURDAY" then Some(Saturday)
    else if name == "SUNDAY" then Some(Sunday)
    else None
  }

  /** The enumeration has exactly seven values, each named once. */
  lemma DaysEnumerated(d: DayOfWeek, e: DayOfWeek)
    ensures |AllDays| == 7 && d in AllDays
    ensures DayOrdinal(d) == DayOrdinal(e) <==> d == e
    ensures DayValueOf(DayName(d)) == Some(d)
  {
  }

  /** The `when` over Calendar.DAY_OF_WEEK (SUNDAY = 1 .. SATURDAY = 7) that habit expansion
      uses; any other field value maps to null. */
  function DayOfWeekOfField(c: int): (r: Option<DayOfWeek>)
    ensures r.Some? <==> 1 <= c <= 7
  {
    if c == 1 then Some(Sunday)
    else if c == 2 then Some(Monday)
    else if c == 3 then Some(Tuesday)
    else if c == 4 then Some(Wednesday)
    else if c == 5 then Some(Thursday)
    else if c == 6 then Some(Friday)
    else if c == 7 then Some(Saturday)
    else None
  }

  /** The Calendar.DAY_OF_WEEK value of a weekday. */
  function FieldOfDayOfWeek(d: DayOfWeek): (c: int)
    ensures 1 <= c <= 7
  {
    if d == Sunday then 1 else DayOrdinal(d) + 2
  }

  /** The mapping from Calendar.DAY_OF_WEEK is a bijection from 1..7 onto the seven values. */
  lemma DayOfWeekFieldBijection(c: int, d: DayOfWeek)
    ensures DayOfWeekOfField(FieldOfDayOfWeek(d)) == Some(d)
    ensures 1 <= c <= 7 ==> FieldOfDayOfWeek(DayOfWeekOfField(c).value) == c
  {
  }

  /** The weekday an instant falls on. */
  function DayOfWeekAt(t: int): DayOfWeek
  {
    DayOfWeekOfField(DayOfWeekField(t)).value
  }

  // ---------------------------------------------------------------------------------------------
  // Tasks

  /** A task; `dueTime` is null in the app when no time was chosen. */
  datatype Task = Task(
    id: string,
    title: string,
    description: string,
    category: TaskCategory,
    dueDate: int,
    dueTime: Option<int>,
    createdDate: int,
    createdBy: User,
    assignees: seq<User>,
    isCompleted: bool,
    priority: TaskPriority,
    reminderSet: bool,
    subtasks: seq<SubTask>,
    durationMinutes: int,
    taskColor: string,
    isHabit: bool,
    habitDays: set<DayOfWeek>,
    habitDurationWeeks: int,
    habitDurationMonths: int)

  const DefaultDurationMinutes: int := 60
  const DefaultTaskColor: string := "#3B82F6"

  /** A task built from its required fields, every other field taking its declared default. */
  function NewTask(id: string, title: string, description: string, category: TaskCategory, dueDate: int,
                   createdDate: int, createdBy: User, assignees: seq<User>): (t: Task)
    ensures t.id == id && t.title == title && t.description == description && t.category == category
    ensures t.dueDate == dueDate && t.createdDate == createdDate && t.createdBy == createdBy
    ensures t.assignees == assignees
    ensures t.dueTime == None && !t.isCompleted && t.priority == Medium && !t.reminderSet
    ensures t.subtasks == [] && t.durationMinutes == 60 && t.taskColor == "#3B82F6"
    ensures !t.isHabit && t.habitDays == {} && t.habitDurationWeeks == 0 && t.habitDurationMonths == 0
  {
    Task(id, title, description, category, dueDate, None, createdDate, createdBy, assignees,
         false, Medium, false, [], DefaultDurationMinutes, DefaultTaskColor, false, {}, 0, 0)
  }

  // ---------------------------------------------------------------------------------------------
  // Month calendar cells

  /** One cell of the month grid; `date` is null for a blank cell. */
  datatype CalendarDay = CalendarDay(date: Option<int>, isCurrentMonth: bool, isToday: bool, hasTask: bool)
}
