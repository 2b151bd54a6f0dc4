# TheShitApp to-do list: a Dafny model

TheShitApp is an Android to-do and habit app. A task has a title, a category, a due date and
optionally a due time, a priority, subtasks, a colour and a reminder. A habit is a task repeated
on chosen weekdays for a number of weeks or months. This project models the app's core logic in
Dafny and proves properties of it:

- the domain records (`TaskModel`) and the Room entities with their mappers to and from them (`Entities`);
- the in-memory `TaskRepository`, both as pure functions over its lists (`Repository`) and as a
  store whose lists change in place (`TaskStore`). This covers adding tasks with habit expansion,
  completing tasks, subtask and category operations, and the queries the screens run;
- the add-task dialog (`TaskDialog`): its picker state, the checks `saveTask` makes, the even
  spread of reminders over the lead time and the colour names;
- the alarm side of reminders (`Alarms`): the trigger instant, the request code made from
  `String.hashCode` and the registry of pending alarms;
- the month grid and its navigation (`DailyTasks`, `DayAdapter`, `YearPicker`);
- the weekly grid, its buckets, the tap lookup and week navigation (`ScheduleView`, `ScheduleScreen`);
- the completed-tasks list grouped by day with its scores (`CompletedTasks`);
- the in-app notification records kept in shared preferences (`Notifications`);
- the library behaviour these rely on: calendar arithmetic (`CivilTime`), Kotlin's 32-bit and
  64-bit integer operations (`IntMath`), number parsing and printing, `split` and `trim` (`Text`),
  list operations (`Lists`) and a stable multi-key sort (`StableSort`).

Time is an `int` count of milliseconds. The environment enters as parameters:

- `now`: the clock;
- `freshId`: the UUID generator, drawn in order;
- `hasTask`: the repository's `hasTasksOnDate` answer, as the month grid sees it;
- `formatTime` and the header's `dateText`: what `SimpleDateFormat` prints in the completed list;
- `exactAlarmsAllowed`: whether the device lets the app set exact alarms;
- `added`: the task the repository's `addTask` returned;
- `taskExists`: the answer of `getTaskById`;
- `dayTasks` and `repositoryTasks`: the repository's answers, as the screens receive them.

`String.hashCode` is computed concretely, with 32-bit wrap-around. It is not a parameter.

Habit expansion walks every day before the end date. So a habit due Monday 1 January 2024, on
Mondays and Wednesdays for one month, has its last occurrence on Wednesday 31 January
(`Repository.HabitExampleJanuary2024`, `Repository.JanuaryDate`).

## Model

| member | source | states |
|---|---|---|
| TaskModel.NewSubTask | app/src/main/java/com/example/theshitapp/model/Task.kt:9-13 | a subtask built from an id and a title is not completed |
| TaskModel.Ordinal | app/src/main/java/com/example/theshitapp/model/Task.kt:5-7 | every priority has an ordinal below 3 |
| TaskModel.PriorityValueOf | app/src/main/java/com/example/theshitapp/model/Task.kt:5-7 | `valueOf` returns a priority only for that priority's own name, and fails on any other string |
| TaskModel.PriorityOrder | app/src/main/java/com/example/theshitapp/model/Task.kt:5-7 | distinct priorities have distinct ordinals; LOW < MEDIUM < HIGH, so a descending sort puts HIGH first; `valueOf(name)` returns the priority |
| TaskModel.DayOrdinal | app/src/main/java/com/example/theshitapp/model/Task.kt:16-18 | each weekday sits at its ordinal in the declaration MONDAY..SUNDAY |
| TaskModel.DayValueOf | app/src/main/java/com/example/theshitapp/model/Task.kt:16-18 | `valueOf` returns a weekday only for that weekday's own name |
| TaskModel.DaysEnumerated | app/src/main/java/com/example/theshitapp/model/Task.kt:16-18 | there are exactly seven weekdays; the ordinal is injective; `valueOf(name)` returns the weekday |
| TaskModel.DayOfWeekOfField | app/src/main/java/com/example/theshitapp/repository/TaskRepository.kt:388-397 | the `when` over `Calendar.DAY_OF_WEEK` gives a weekday exactly for the field values 1..7 |
| TaskModel.FieldOfDayOfWeek | app/src/main/java/com/example/theshitapp/repository/TaskRepository.kt:388-397 | every weekday has a field value in 1..7 |
| TaskModel.DayOfWeekFieldBijection | app/src/main/java/com/example/theshitapp/repository/TaskRepository.kt:388-397 | the mapping from the field is a bijection from 1..7 onto the seven weekdays, with `FieldOfDayOfWeek` as its inverse |
| TaskModel.NewTask | app/src/main/java/com/example/theshitapp/model/Task.kt:20-40 | a task built from its required fields has no due time, is not completed, has MEDIUM priority, no reminder, no subtasks, 60 minutes, colour "#3B82F6", is not a habit, has no habit days and 0 weeks and 0 months |
| Entities.ToUser | app/src/main/java/com/example/theshitapp/model/UserEntity.kt:13-18 | the id and the name are copied |
| Entities.FromUser | app/src/main/java/com/example/theshitapp/model/UserEntity.kt:22-27 | the id and the name are copied |
| Entities.UserRoundTrip | app/src/main/java/com/example/theshitapp/model/UserEntity.kt:13-27 | `toUser(fromUser(u)) == u` and `fromUser(toUser(e)) == e` |
| Entities.Ids | app/src/main/java/com/example/theshitapp/model/TaskCategoryEntity.kt:37 | the ids of the users, one per user, in order |
| Entities.LookUpUsers | app/src/main/java/com/example/theshitapp/model/TaskCategoryEntity.kt:26 | `mapNotNull { userMap[it] }` yields at most one user per id, each from the map, and drops nothing exactly when every id is in the map |
| Entities.LookUpUsersAppend | app/src/main/java/com/example/theshitapp/model/TaskEntity.kt:44 | looking up a concatenation concatenates the lookups, so the users that are found keep their order |
| Entities.LookUpOne | app/src/main/java/com/example/theshitapp/model/TaskEntity.kt:44 | an id missing from the map is dropped, and a known id gives its user |
| Entities.LookUpIds | app/src/main/java/com/example/theshitapp/model/TaskCategoryEntity.kt:26-37 | looking up the ids of users that the map holds under their own ids gives the users back |
| Entities.ToTaskCategory | app/src/main/java/com/example/theshitapp/model/TaskCategoryEntity.kt:22-29 | id, name and active-task count are copied; the members are the looked-up member ids |
| Entities.FromTaskCategory | app/src/main/java/com/example/theshitapp/model/TaskCategoryEntity.kt:33-40 | id, name and active-task count are copied; the members are stored as their ids in order |
| Entities.CategoryRoundTrip | app/src/main/java/com/example/theshitapp/model/TaskCategoryEntity.kt:22-40 | a category comes back unchanged when the user map holds every member under its id |
| Entities.ToSubTask | app/src/main/java/com/example/theshitapp/model/TaskEntity.kt:91-97 | id, title and completion are copied |
| Entities.FromSubTask | app/src/main/java/com/example/theshitapp/model/TaskEntity.kt:100-106 | id, title and completion are copied |
| Entities.ToSubTasks | app/src/main/java/com/example/theshitapp/model/TaskEntity.kt:48 | subtasks are converted element by element, in order |
| Entities.FromSubTasks | app/src/main/java/com/example/theshitapp/model/TaskEntity.kt:74 | subtasks are converted element by element, in order |
| Entities.SubTasksRoundTrip | app/src/main/java/com/example/theshitapp/model/TaskEntity.kt:48-106 | the two subtask-list mappers are inverse to each other |
| Entities.ParseDayNames | app/src/main/java/com/example/theshitapp/model/TaskEntity.kt:52 | `valueOf` over the stored names fails exactly when some name is not a weekday's; otherwise the set holds exactly the named days |
| Entities.ParseDayNamesCons | app/src/main/java/com/example/theshitapp/model/TaskEntity.kt:52 | a valid name in front of a parsable list adds its day to the set |
| Entities.DayNamesFromRoundTrip | app/src/main/java/com/example/theshitapp/model/TaskEntity.kt:52-78 | storing the days from a declaration position onwards as names, then reading them back, gives exactly those days |
| Entities.HabitDaysRoundTrip | app/src/main/java/com/example/theshitapp/model/TaskEntity.kt:52-78 | habit days go set → names → set unchanged |
| Entities.ToTask | app/src/main/java/com/example/theshitapp/model/TaskEntity.kt:34-56 | fails with a missing category, then with a missing creator, then with an unknown priority name or day name; on success every field is copied or converted as written, and the assignees are the found ones in order |
| Entities.FromTask | app/src/main/java/com/example/theshitapp/model/TaskEntity.kt:60-82 | references become ids; the priority and the habit days become their names; subtasks are converted; every other field is copied |
| Entities.TaskRoundTrip | app/src/main/java/com/example/theshitapp/model/TaskEntity.kt:34-83 | `toTask(fromTask(t))` gives `t` back when the category map holds its category and the user map holds its creator and every assignee |
| YearPicker.RangeListEntries | app/src/main/java/com/example/theshitapp/ui/dialog/YearPickerDialog.kt:59 | the range `start..end` holds `end - start + 1` entries (none when `end < start`), entry `i` being `start + i` |
| YearPicker.GenerateYearsList | app/src/main/java/com/example/theshitapp/ui/dialog/YearPickerDialog.kt:55-60 | 101 years, from 75 before to 25 after the current one, consecutive and strictly ascending |
| YearPicker.YearOffered | app/src/main/java/com/example/theshitapp/ui/dialog/YearPickerDialog.kt:55-60 | a year is offered exactly when it lies within 75 years before and 25 years after the current one |
| YearPicker.ScrollPosition | app/src/main/java/com/example/theshitapp/ui/dialog/YearPickerDialog.kt:46-51 | `indexOf(currentYear)` is 75, so the scroll target is always found |
| Repository.FindCategory | app/src/main/java/com/example/theshitapp/repository/TaskRepository.kt:343-344 | `find { it.id == categoryId }` is null exactly when no category has the id; otherwise it is the first stored category with that id |
| Repository.TaskById | app/src/main/java/com/example/theshitapp/repository/TaskRepository.kt:323-325 | null exactly when no task has the id; otherwise the first stored task with that id |
| Repository.UsersWithIds | app/src/main/java/com/example/theshitapp/repository/TaskRepository.kt:346 | the assignees are exactly the users whose id is among the chosen ids |
| Repository.AssigneesIgnoreIdOrder | app/src/main/java/com/example/theshitapp/repository/TaskRepository.kt:346 | two id lists naming the same ids give the same assignees, so the users' order is kept and the order and repetition of the ids do not matter |
| Repository.NormalizedDate | app/src/main/java/com/example/theshitapp/repository/TaskRepository.kt:629-637 | the instant at 00:00:00.000 of the same day: within a day before the date, with time of day 0 and the same day number |
| Repository.TasksForDate | app/src/main/java/com/example/theshitapp/repository/TaskRepository.kt:473-492 | no contract of its own; specified by TasksForDateSorted and TasksForDateMembers |
| Repository.TasksForDateSorted | app/src/main/java/com/example/theshitapp/repository/TaskRepository.kt:473-492 | the day's list is sorted by due time ascending (no time last), then priority descending; it is a permutation of the tasks chosen, and stable |
| Repository.TasksForDateMembers | app/src/main/java/com/example/theshitapp/repository/TaskRepository.kt:473-486 | a task is listed for a date exactly when it is stored, not completed and due on that day |
| Repository.DayOrderTimedFirst | app/src/main/java/com/example/theshitapp/repository/TaskRepository.kt:487-488 | a task with a due time sorts before one without |
| Repository.DayOrderPriority | app/src/main/java/com/example/theshitapp/repository/TaskRepository.kt:487-491 | at equal due times, a task sorts no later than another exactly when its priority ordinal is at least the other's |
| Repository.TasksForCategorySorted | app/src/main/java/com/example/theshitapp/repository/TaskRepository.kt:572-581 | the category's active tasks sorted by due date, then due time, then priority descending; a permutation of the filtered tasks, and stable |
| Repository.TasksForCategory | app/src/main/java/com/example/theshitapp/repository/TaskRepository.kt:317-319 | exactly the stored tasks that are not completed and are in the category |
| Repository.AllTasks | app/src/main/java/com/example/theshitapp/repository/TaskRepository.kt:321 | exactly the stored tasks that are not completed |
| Repository.CompletedTasks | app/src/main/java/com/example/theshitapp/repository/TaskRepository.kt:594 | exactly the stored tasks that are completed |
| Repository.TasksByPriority | app/src/main/java/com/example/theshitapp/repository/TaskRepository.kt:520-522 | exactly the stored tasks that are not completed and have the priority |
| Repository.TasksForReminder | app/src/main/java/com/example/theshitapp/repository/TaskRepository.kt:511-518 | exactly the stored tasks that are not completed, have the reminder on and a due time not after the timestamp |
| Repository.ReminderDueMonotonic | app/src/main/java/com/example/theshitapp/repository/TaskRepository.kt:511-518 | a task due for a reminder at some instant is still due at any later instant |
| Repository.HasTasksOnDate | app/src/main/java/com/example/theshitapp/repository/TaskRepository.kt:567-569 | no contract of its own; specified by HasTasksOnDateExactly |
| Repository.HasTasksOnDateExactly | app/src/main/java/com/example/theshitapp/repository/TaskRepository.kt:567-569 | `hasTasksOnDate` holds exactly when some stored task that is not completed is due that day |
| Repository.HabitTasksCount | app/src/main/java/com/example/theshitapp/repository/TaskRepository.kt:584-586 | the habit count is the number of the category's active habit tasks, as many as the filter keeps |
| Repository.RegularTasksCount | app/src/main/java/com/example/theshitapp/repository/TaskRepository.kt:589-591 | the regular count is the number of the category's active tasks that are not habits, as many as the filter keeps |
| Repository.CountsPartitionCategory | app/src/main/java/com/example/theshitapp/repository/TaskRepository.kt:584-591 | habit tasks and regular tasks together are the category's active tasks |
| Repository.CompletionScore | app/src/main/java/com/example/theshitapp/repository/TaskRepository.kt:614-626 | completed is at most total, and total is at most the number of tasks |
| Repository.CompletionScoreCounts | app/src/main/java/com/example/theshitapp/repository/TaskRepository.kt:614-626 | completed counts the completed tasks due that day; total counts every task due that day, completed or not; their difference is the length of that day's list |
| Repository.MidnightWindow | app/src/main/java/com/example/theshitapp/repository/TaskRepository.kt:618-619 | an instant normalises to a given midnight exactly when it lies in the day that midnight starts |
| Repository.EmptyDayScore | app/src/main/java/com/example/theshitapp/repository/TaskRepository.kt:614-626 | a day without tasks scores (0, 0) |
| Repository.RemainingTime | app/src/main/java/com/example/theshitapp/repository/TaskRepository.kt:456-470 | no contract of its own; specified by RemainingTimeCases and RemainingTimeExamples |
| Repository.RemainingTimeCases | app/src/main/java/com/example/theshitapp/repository/TaskRepository.kt:456-470 | a day or more ahead reads "Nd Hh"; an hour to a day ahead reads "Hh Mm"; otherwise "Mm", with the minutes truncated toward zero, so an overdue task reads negative minutes |
| Repository.RemainingTimeExamples | app/src/main/java/com/example/theshitapp/repository/TaskRepository.kt:456-470 | 90 s overdue reads "-1m"; 1 day 1 hour 1 minute ahead reads "1d 1h"; 1 hour 1 minute ahead reads "1h 1m" |
| Repository.HabitEndDate | app/src/main/java/com/example/theshitapp/repository/TaskRepository.kt:429-440 | positive weeks add that many weeks; otherwise positive months add calendar months; otherwise the end is the due date; the time of day is kept and the end is never before the due date |
| Repository.HabitEndDateOfMonths | app/src/main/java/com/example/theshitapp/repository/TaskRepository.kt:435-436 | without weeks, the end date is the due date moved on by the months |
| Repository.DatesUpTo | app/src/main/java/com/example/theshitapp/repository/TaskRepository.kt:379-426 | the days emitted within the first n days number at most n |
| Repository.DaysBeforeExact | app/src/main/java/com/example/theshitapp/repository/TaskRepository.kt:387 | day j of the walk begins before the end date exactly when j is below the count of days the walk visits |
| Repository.DaysBeforeWhole | app/src/main/java/com/example/theshitapp/repository/TaskRepository.kt:384-425 | between instants at the same time of day n days apart, the walk visits n days |
| Repository.DatesUpToMembers | app/src/main/java/com/example/theshitapp/repository/TaskRepository.kt:379-426 | an instant is emitted within n days exactly when it is day j of the walk, 1 <= j < n, on a habit weekday |
| Repository.HabitDatesExact | app/src/main/java/com/example/theshitapp/repository/TaskRepository.kt:379-426 | expansion emits exactly the days due date + j (j >= 1, one day at a time) that are before the end date and fall on a habit weekday |
| Repository.DatesUpToIncreasing | app/src/main/java/com/example/theshitapp/repository/TaskRepository.kt:379-426 | the emitted days are strictly increasing and before the walk's current day |
| Repository.NoDurationNoOccurrences | app/src/main/java/com/example/theshitapp/repository/TaskRepository.kt:429-440 | with neither weeks nor months positive, also when they are negative, nothing is emitted |
| Repository.Occurrence | app/src/main/java/com/example/theshitapp/repository/TaskRepository.kt:400-418 | an occurrence copies title, description, category, due time, creator, assignees, priority, reminder, duration and colour; it is not a habit, not completed and has no subtasks or habit days |
| Repository.Occurrences | app/src/main/java/com/example/theshitapp/repository/TaskRepository.kt:400-420 | one occurrence per date, in order, with ids drawn in order from the fresh-id oracle |
| Repository.OneMonthLength | app/src/main/java/com/example/theshitapp/repository/TaskRepository.kt:433-436 | a one-month habit due on the 1st runs for the days of that month |
| Repository.MondayWednesdayMonth | app/src/main/java/com/example/theshitapp/repository/TaskRepository.kt:379-440 | a one-month Monday and Wednesday habit due on a Monday that is the 1st of a 31-day month occurs 2, 7, 9, 14, 16, 21, 23, 28 and 30 days after its due date |
| Repository.HabitExampleJanuary2024 | app/src/main/java/com/example/theshitapp/repository/TaskRepository.kt:379-440 | the habit due Monday 1 January 2024 (Monday and Wednesday, one month) occurs on the days 2, 7, 9, ..., 30 after its due date |
| Repository.JanuaryDate | app/src/main/java/com/example/theshitapp/repository/TaskRepository.kt:379-426 | day k of the walk from 1 January 2024 is January 1 + k, which places the example occurrences on January 3, 8, 10, 15, 17, 22, 24, 29 and 31 |
| Repository.MondayWednesdayDay | app/src/main/java/com/example/theshitapp/repository/TaskRepository.kt:388-399 | for a Monday and Wednesday habit due on a Monday, day j is an occurrence exactly when j >= 1 and j is 0 or 2 modulo 7 |
| Repository.DatesUpToStep | app/src/main/java/com/example/theshitapp/repository/TaskRepository.kt:399-421 | one more day of the walk appends that day exactly when it is an occurrence |
| Repository.DatesUpToSkip | app/src/main/java/com/example/theshitapp/repository/TaskRepository.kt:399-421 | days that are not occurrences add nothing |
| Repository.MondayWednesdayInWeek | app/src/main/java/com/example/theshitapp/repository/TaskRepository.kt:388-399 | in a week of the walk starting on a Tuesday, only the Wednesday and the Monday are occurrences |
| Repository.MondayWednesdayWeek | app/src/main/java/com/example/theshitapp/repository/TaskRepository.kt:399-421 | such a week appends its Wednesday and its Monday |
| Repository.MondayWednesday31 | app/src/main/java/com/example/theshitapp/repository/TaskRepository.kt:379-426 | in its first 31 days, a Monday and Wednesday habit due on a Monday occurs on days 2, 7, 9, 14, 16, 21, 23, 28 and 30 |
| TaskStore.CreatedTask | app/src/main/java/com/example/theshitapp/repository/TaskRepository.kt:346-366 | the new task has the fresh id, the found category, the current instant as creation date and the first user as creator; its assignees are the users with the chosen ids; it is not completed, has no subtasks, and every other field comes from the arguments |
| TaskStore.AppendAdded | app/src/main/java/com/example/theshitapp/repository/TaskRepository.kt:368-373 | appending the task and then its occurrences appends the list `AddedTasks`, one longer than the occurrences |
| TaskStore.AddedTasksShape | app/src/main/java/com/example/theshitapp/repository/TaskRepository.kt:368-373 | the first task added is the task itself; it is expanded only when it is a habit with days, and then the n-th further task is a non-habit occurrence on the n-th habit date with the next fresh id |
| TaskStore.MarkCompleted | app/src/main/java/com/example/theshitapp/repository/TaskRepository.kt:442-450 | completing keeps the length of the list |
| TaskStore.MarkCompletedEffect | app/src/main/java/com/example/theshitapp/repository/TaskRepository.kt:442-450 | with no task of that id nothing changes; otherwise the first task with the id becomes completed, and every other position is unchanged |
| TaskStore.MarkCompletedIdempotent | app/src/main/java/com/example/theshitapp/repository/TaskRepository.kt:442-450 | completing the same id twice is the same as completing it once |
| TaskStore.AppendSubtask | app/src/main/java/com/example/theshitapp/repository/TaskRepository.kt:538 | the subtask is appended to the task's subtasks and nothing else of the task changes |
| TaskStore.ToggleFirst | app/src/main/java/com/example/theshitapp/repository/TaskRepository.kt:547-548 | toggling keeps the length, the ids and the titles of the subtasks |
| TaskStore.ToggleFirstEffect | app/src/main/java/com/example/theshitapp/repository/TaskRepository.kt:547-548 | exactly the first subtask with the id changes its completion, and toggling twice restores the list |
| TaskStore.RemoveSubtasksEffect | app/src/main/java/com/example/theshitapp/repository/TaskRepository.kt:555 | after `removeIf` no subtask has the id, and something was removed exactly when some subtask had it |
| TaskStore.DeleteCategoryCascade | app/src/main/java/com/example/theshitapp/repository/TaskRepository.kt:654 | after the cascade no task is in the category; every task in another category stays; with no task in the category nothing changes |
| TaskStore.GroupByDayStep | app/src/main/java/com/example/theshitapp/repository/TaskRepository.kt:602-608 | one step of the grouping loop adds the task to its day's group, creating the group when it is new |
| TaskStore.CompletedByDayCorrect | app/src/main/java/com/example/theshitapp/repository/TaskRepository.kt:597-611 | one group per day with distinct keys; each group holds exactly that day's completed tasks in store order; every completed task is in its day's group |
| TaskStore.TaskRepository.constructor | app/src/main/java/com/example/theshitapp/repository/TaskRepository.kt:16-300 | the store starts with the built-in users and categories, the given tasks and no ids drawn |
| TaskStore.TaskRepository.AddTask | app/src/main/java/com/example/theshitapp/repository/TaskRepository.kt:327-376 | an unknown category fails with "Invalid category ID" and changes nothing; otherwise the task built is returned and appended, followed by its occurrences when it is a habit with days; the categories never change |
| TaskStore.TaskRepository.Insert | app/src/main/java/com/example/theshitapp/repository/TaskRepository.kt:368-373 | the task is appended, then expanded only for a habit with days; one fresh id is drawn per occurrence |
| TaskStore.TaskRepository.AddHabitToSchedule | app/src/main/java/com/example/theshitapp/repository/TaskRepository.kt:379-426 | the occurrences on the habit dates are appended in order, with one fresh id per occurrence |
| TaskStore.WalkHabit | app/src/main/java/com/example/theshitapp/repository/TaskRepository.kt:384-425 | the loop appends one occurrence for each day of the walk before the end date that falls on a habit weekday, except the due date itself, and draws one id per occurrence |
| TaskStore.HabitStep | app/src/main/java/com/example/theshitapp/repository/TaskRepository.kt:387-424 | one step of the walk stays before the end date and grows the dates and the tasks by the day exactly when the day is emitted |
| TaskStore.WeekFromEntries | app/src/main/java/com/example/theshitapp/repository/TaskRepository.kt:495-508 | the week listing has n entries, entry i being day i with its `getTasksForDate` list, in increasing order of days |
| TaskStore.TaskRepository.CompleteTask | app/src/main/java/com/example/theshitapp/repository/TaskRepository.kt:442-450 | true exactly when some task has the id; the tasks become `MarkCompleted` of the old tasks; categories and ids are untouched |
| TaskStore.TaskRepository.AddSubtask | app/src/main/java/com/example/theshitapp/repository/TaskRepository.kt:531-542 | false and nothing changes for an unknown task; otherwise one new subtask that is not completed and has a fresh id is appended to the first task with the id |
| TaskStore.TaskRepository.ToggleSubtaskStatus | app/src/main/java/com/example/theshitapp/repository/TaskRepository.kt:545-550 | false and nothing changes when the task or the subtask is missing; otherwise only the first matching subtask of the first matching task flips |
| TaskStore.TaskRepository.DeleteSubtask | app/src/main/java/com/example/theshitapp/repository/TaskRepository.kt:553-556 | false and nothing changes for an unknown task; otherwise every subtask with the id leaves that task, and the result says whether any did |
| TaskStore.TaskRepository.AddCategory | app/src/main/java/com/example/theshitapp/repository/TaskRepository.kt:559-564 | a category with a fresh id, the name, the current user as its only member and a count of 1 is appended and returned; the tasks do not change |
| TaskStore.TaskRepository.DeleteCategory | app/src/main/java/com/example/theshitapp/repository/TaskRepository.kt:647-659 | false and nothing changes for an unknown id; otherwise the first category with the id is removed and so is every task whose category has that id |
| TaskStore.TaskRepository.GetTasksForWeek | app/src/main/java/com/example/theshitapp/repository/TaskRepository.kt:495-508 | seven entries, the days from the start date in increasing order, each paired with its `getTasksForDate` list |
| TaskStore.TaskRepository.GetCompletedTasksByDate | app/src/main/java/com/example/theshitapp/repository/TaskRepository.kt:597-611 | the groups are those of `GroupBy` over the completed tasks, keyed by the normalised due date |
| TaskDialog.ReminderOffset | app/src/main/java/com/example/theshitapp/ui/dialog/AddTaskDialog.kt:433-439 | no contract of its own; specified by OffsetsStart, OffsetsExample, OffsetPair and OffsetsValidated |
| TaskDialog.ReminderOffsets | app/src/main/java/com/example/theshitapp/ui/dialog/AddTaskDialog.kt:425-447 | one lead time per reminder, none for a count that is not positive |
| TaskDialog.OffsetsStart | app/src/main/java/com/example/theshitapp/ui/dialog/AddTaskDialog.kt:433-435 | the first reminder is the whole lead time early, and a single reminder is only that |
| TaskDialog.OffsetsExample | app/src/main/java/com/example/theshitapp/ui/dialog/AddTaskDialog.kt:437-438 | 30 minutes over 3 reminders gives 30, 20 and 10; 10 minutes over 4 gives 10, 8, 6 and 4 |
| TaskDialog.OffsetsFitInt | app/src/main/java/com/example/theshitapp/ui/dialog/AddTaskDialog.kt:433-438 | every lead time of a 32-bit lead time stays in the 32-bit range |
| TaskDialog.OffsetFits | app/src/main/java/com/example/theshitapp/ui/dialog/AddTaskDialog.kt:436-438 | one lead time stays in the 32-bit range |
| TaskDialog.OffsetsValidated | app/src/main/java/com/example/theshitapp/ui/dialog/AddTaskDialog.kt:350-360 | for accepted settings every lead time is between 1 and the total, they never grow, they strictly shrink exactly when there is at least a minute per reminder, and otherwise they all equal the total |
| TaskDialog.OffsetPair | app/src/main/java/com/example/theshitapp/ui/dialog/AddTaskDialog.kt:436-438 | the facts comparing two validated lead times |
| TaskDialog.ReminderMessage | app/src/main/java/com/example/theshitapp/ui/dialog/AddTaskDialog.kt:445 | the reminder text names the task's title and the lead time in minutes |
| TaskDialog.ReminderMessageMinutes | app/src/main/java/com/example/theshitapp/ui/dialog/AddTaskDialog.kt:445 | two reminder texts of one task are equal only for equal lead times, so the minutes can be read back |
| TaskDialog.ReminderEntries | app/src/main/java/com/example/theshitapp/ui/dialog/AddTaskDialog.kt:431-445 | one request code and alarm per lead time |
| TaskDialog.ReminderEntriesSnoc | app/src/main/java/com/example/theshitapp/ui/dialog/AddTaskDialog.kt:431-445 | one more lead time adds one more entry at the end |
| TaskDialog.ReminderStep | app/src/main/java/com/example/theshitapp/ui/dialog/AddTaskDialog.kt:441-445 | one more scheduleTaskReminder call registers the next lead time's entry |
| TaskDialog.RemindersRegisteredKeys | app/src/main/java/com/example/theshitapp/ui/dialog/AddTaskDialog.kt:441-445 | with exact alarms allowed, the registry holds the old keys and the request code of each lead time, and no other key |
| TaskDialog.RemindersCollapse | app/src/main/java/com/example/theshitapp/ui/dialog/AddTaskDialog.kt:441-445 | reminders that share one lead time share one request code and leave only the last alarm |
| TaskDialog.ValidatedReminders | app/src/main/java/com/example/theshitapp/ui/dialog/AddTaskDialog.kt:425-447 | with at least as many minutes as reminders the reminder key strings are pairwise distinct (their hashes may still collide); with fewer only one reminder stays registered |
| TaskDialog.ColorName | app/src/main/java/com/example/theshitapp/ui/dialog/AddTaskDialog.kt:296-310 | no contract of its own; specified by ColorNameInvertsPalette |
| TaskDialog.ColorNameInvertsPalette | app/src/main/java/com/example/theshitapp/ui/dialog/AddTaskDialog.kt:296-310 | every palette colour gets its own name, and "Custom" is shown exactly for a colour outside the palette |
| TaskDialog.ColorText | app/src/main/java/com/example/theshitapp/ui/dialog/AddTaskDialog.kt:312 | the preview text is "Selected color: " followed by the colour's name |
| TaskDialog.ValidateSave | app/src/main/java/com/example/theshitapp/ui/dialog/AddTaskDialog.kt:315-383 | no contract of its own; specified by SaveRefusedExactly and SaveAccepted |
| TaskDialog.SaveRefusedExactly | app/src/main/java/com/example/theshitapp/ui/dialog/AddTaskDialog.kt:315-383 | the save is refused exactly when the title is blank, no category is chosen, no date is chosen, the reminder settings are out of range, or a habit has no days or no length |
| TaskDialog.SaveAccepted | app/src/main/java/com/example/theshitapp/ui/dialog/AddTaskDialog.kt:386-405 | an accepted save asks for the trimmed title, the chosen category and date, the chosen time and colour, the current user as the only assignee, and settings that passed the checks; a non-habit has zero habit length |
| TaskDialog.NegativeHabitLengthPasses | app/src/main/java/com/example/theshitapp/ui/dialog/AddTaskDialog.kt:374-382 | a habit with a negative length passes the checks and reaches the repository |
| TaskDialog.ReminderFallbacksPass | app/src/main/java/com/example/theshitapp/ui/dialog/AddTaskDialog.kt:346-347 | unreadable reminder numbers fall back to 30 minutes and one reminder |
| TaskDialog.RemoveFirst | app/src/main/java/com/example/theshitapp/ui/dialog/AddTaskDialog.kt:279 | removing a subtask title drops exactly one copy of it from the list when it is there, and otherwise nothing |
| TaskDialog.RemoveFirstAt | app/src/main/java/com/example/theshitapp/ui/dialog/AddTaskDialog.kt:279 | `remove` cuts out the first copy of the title and keeps the other titles in their order |
| TaskDialog.WithHour | app/src/main/java/com/example/theshitapp/ui/dialog/AddTaskDialog.kt:84-86 | no contract of its own; specified by WithHourFields |
| TaskDialog.WithHourFields | app/src/main/java/com/example/theshitapp/ui/dialog/AddTaskDialog.kt:84-86 | a preselected hour gives that hour on the same day, at minute 0, with seconds and milliseconds kept |
| TaskDialog.AddTaskDialog.constructor | app/src/main/java/com/example/theshitapp/ui/dialog/AddTaskDialog.kt:36-45 | a fresh dialog has the calendar at the current instant, nothing chosen and the default blue colour |
| TaskDialog.AddTaskDialog.ApplyPreselection | app/src/main/java/com/example/theshitapp/ui/dialog/AddTaskDialog.kt:74-89 | with no preselected date nothing changes; otherwise the date is chosen, and a non-negative hour also sets the time on the hour |
| TaskDialog.AddTaskDialog.LoadCategories | app/src/main/java/com/example/theshitapp/ui/dialog/AddTaskDialog.kt:118-139 | the loaded categories become the dialog's list, nothing else changes, and the Spinner is set to the first category with the preselected id, or not set when there is none |
| TaskDialog.AddTaskDialog.PickDate | app/src/main/java/com/example/theshitapp/ui/dialog/AddTaskDialog.kt:152-165 | the calendar moves to the chosen date with its time of day kept, and that date is chosen |
| TaskDialog.AddTaskDialog.PickTime | app/src/main/java/com/example/theshitapp/ui/dialog/AddTaskDialog.kt:167-179 | the calendar takes the chosen hour and minute at second 0 on its day, and that time is chosen |
| TaskDialog.AddTaskDialog.SetHabitDay | app/src/main/java/com/example/theshitapp/ui/dialog/AddTaskDialog.kt:229-235 | a checked day joins the habit days and an unchecked one leaves them; nothing else changes |
| TaskDialog.AddTaskDialog.PickColor | app/src/main/java/com/example/theshitapp/ui/dialog/AddTaskDialog.kt:289-294 | the chosen colour replaces the selected colour; nothing else changes |
| TaskDialog.AddTaskDialog.AddSubtask | app/src/main/java/com/example/theshitapp/ui/dialog/AddTaskDialog.kt:244-251 | the trimmed input is appended unless it is empty; nothing else changes |
| TaskDialog.AddTaskDialog.RemoveSubtask | app/src/main/java/com/example/theshitapp/ui/dialog/AddTaskDialog.kt:274-281 | the subtask list becomes the old list with the first copy of the title cut out (RemoveFirstAt) and the other titles in order; nothing else changes |
| TaskDialog.AddTaskDialog.ScheduleReminders | app/src/main/java/com/example/theshitapp/ui/dialog/AddTaskDialog.kt:425-447 | the registry becomes the old one with one reminder registered per lead time, in order; unchanged for a task without a due time |
| TaskDialog.AddTaskDialog.SaveTask | app/src/main/java/com/example/theshitapp/ui/dialog/AddTaskDialog.kt:315-422 | the result is the checks' verdict; the reminders are scheduled for the added task exactly when the save is accepted, reminders are on and a time was chosen |
| Alarms.HashFrom | app/src/main/java/com/example/theshitapp/util/AlarmScheduler.kt:62 | the running hash of a 32-bit start value stays a 32-bit value |
| Alarms.HashCode | app/src/main/java/com/example/theshitapp/util/AlarmScheduler.kt:62 | a string's hash is a 32-bit value |
| Alarms.HashFromIsPolynomial | app/src/main/java/com/example/theshitapp/util/AlarmScheduler.kt:62 | the wrapping loop from h equals h times 31 to the length plus the documented polynomial, wrapped to 32 bits once |
| Alarms.HashCodeIsPolynomial | app/src/main/java/com/example/theshitapp/util/AlarmScheduler.kt:62 | String.hashCode is the documented polynomial in 31 wrapped to 32 bits |
| Alarms.HashCodeExamples | app/src/main/java/com/example/theshitapp/util/AlarmScheduler.kt:62 | the hashes of "", "a" and "ab" are 0, 97 and 3105 |
| Alarms.BaseTrigger | app/src/main/java/com/example/theshitapp/util/AlarmScheduler.kt:25-34 | the alarm instant is on the due date's day, at the hour and minute of the due time, at second 0, with the due date's milliseconds |
| Alarms.BaseTriggerIgnoresTimeDate | app/src/main/java/com/example/theshitapp/util/AlarmScheduler.kt:29-33 | only the time of day of the due time counts, never its date |
| Alarms.ReminderTrigger | app/src/main/java/com/example/theshitapp/util/AlarmScheduler.kt:47-59 | no contract of its own; specified by ReminderTriggerEarly and ReminderTriggerTruncates |
| Alarms.ReminderTriggerEarly | app/src/main/java/com/example/theshitapp/util/AlarmScheduler.kt:59 | for an offset a 32-bit Int can negate, the reminder fires that many minutes before the due instant |
| Alarms.ReminderTriggerTruncates | app/src/main/java/com/example/theshitapp/util/AlarmScheduler.kt:59 | an offset of 2^32 + 5 minutes counts as 5 minutes, since the Long is cut to an Int |
| Alarms.DueMessage | app/src/main/java/com/example/theshitapp/util/AlarmScheduler.kt:36 | the due-time text is "Task is starting now: " followed by the title |
| Alarms.ReminderKey | app/src/main/java/com/example/theshitapp/util/AlarmScheduler.kt:62 | no contract of its own; specified by ReminderKeyInjective |
| Alarms.ReminderKeyInjective | app/src/main/java/com/example/theshitapp/util/AlarmScheduler.kt:62 | two reminder keys of one task are equal exactly when their offsets are |
| Alarms.Int32Congruent | app/src/main/java/com/example/theshitapp/util/AlarmScheduler.kt:62 | two 32-bit values equal modulo 2^32 are equal |
| Alarms.ToInt32Shift | app/src/main/java/com/example/theshitapp/util/AlarmScheduler.kt:62 | adding a multiple of 2^32 does not change the wrapped value |
| Alarms.RegisterEachSnoc | app/src/main/java/com/example/theshitapp/util/AlarmScheduler.kt:70-105 | setting one more entry is setting it on the registry of the others |
| Alarms.RegisterEachKeys | app/src/main/java/com/example/theshitapp/util/AlarmScheduler.kt:70-105 | with exact alarms allowed the registry holds exactly the old codes and the codes set |
| Alarms.RegisterEachSame | app/src/main/java/com/example/theshitapp/util/AlarmScheduler.kt:70-105 | setting one entry several times is setting it once |
| Alarms.RegisterReplaces | app/src/main/java/com/example/theshitapp/util/AlarmScheduler.kt:77-82 | a second alarm under the same request code replaces the first |
| Alarms.AllScheduledKeys | app/src/main/java/com/example/theshitapp/util/AlarmScheduler.kt:119-125 | scheduleAllTasks adds a code exactly when exact alarms are allowed and it is the id hash of a task with a reminder and a due time |
| Alarms.AllScheduledValues | app/src/main/java/com/example/theshitapp/util/AlarmScheduler.kt:119-125 | every alarm added or changed is the due-time alarm of one of the tasks given |
| Alarms.AlarmScheduler.constructor | app/src/main/java/com/example/theshitapp/util/AlarmScheduler.kt:13-15 | a new scheduler has an empty registry |
| Alarms.AlarmScheduler.ScheduleAlarmAt | app/src/main/java/com/example/theshitapp/util/AlarmScheduler.kt:70-105 | with exact alarms allowed the alarm is set under the request code, replacing any; otherwise nothing changes |
| Alarms.AlarmScheduler.ScheduleAlarm | app/src/main/java/com/example/theshitapp/util/AlarmScheduler.kt:20-37 | a task with a reminder and a due time gets its due-time alarm under its id hash; any other task changes nothing |
| Alarms.AlarmScheduler.ScheduleTaskReminder | app/src/main/java/com/example/theshitapp/util/AlarmScheduler.kt:42-65 | nothing for a task without a due time; otherwise the reminder alarm under the hash of "id_minutes" |
| Alarms.AlarmScheduler.CancelAlarm | app/src/main/java/com/example/theshitapp/util/AlarmScheduler.kt:107-117 | only the alarm under the id hash is removed; reminders set under other codes stay |
| Alarms.AlarmScheduler.ScheduleAllTasks | app/src/main/java/com/example/theshitapp/util/AlarmScheduler.kt:119-125 | the registry becomes the one with each schedulable task's due-time alarm set in list order |
| DayAdapter.SameDateIffSameDay | app/src/main/java/com/example/theshitapp/adapter/CalendarDayAdapter.kt:44-50 | two instants agree in year, month and day of month exactly when they fall on the same day |
| DayAdapter.FirstMatch | app/src/main/java/com/example/theshitapp/adapter/CalendarDayAdapter.kt:44-54 | the position of the first cell showing the date, and -1 exactly when no cell shows it |
| DayAdapter.Bind | app/src/main/java/com/example/theshitapp/adapter/CalendarDayAdapter.kt:71-111 | no contract of its own; specified by BindPrecedence |
| DayAdapter.BindPrecedence | app/src/main/java/com/example/theshitapp/adapter/CalendarDayAdapter.kt:71-111 | a cell without a date is blank, unlabelled and not clickable; a dated cell shows its day of month, its indicator when it has tasks and takes clicks; selected wins over today, today over the current month, the current month over the others |
| DayAdapter.CalendarDayAdapter.constructor | app/src/main/java/com/example/theshitapp/adapter/CalendarDayAdapter.kt:14-19 | a new adapter holds the cells and has no selection |
| DayAdapter.CalendarDayAdapter.UpdateDays | app/src/main/java/com/example/theshitapp/adapter/CalendarDayAdapter.kt:34-37 | the cells are replaced and the selected position is kept |
| DayAdapter.CalendarDayAdapter.SelectDay | app/src/main/java/com/example/theshitapp/adapter/CalendarDayAdapter.kt:39-65 | the first cell showing the date becomes selected; with none the selection is kept; the cells do not change |
| DayAdapter.CalendarDayAdapter.BindAt | app/src/main/java/com/example/theshitapp/adapter/CalendarDayAdapter.kt:27-30 | a cell is drawn selected exactly when it is a dated cell at the selected position |
| DayAdapter.SelectedCellUnique | app/src/main/java/com/example/theshitapp/adapter/CalendarDayAdapter.kt:39-65 | after selecting a date some cell shows, exactly that first cell is drawn selected |
| CompletedTasks.Keys | app/src/main/java/com/example/theshitapp/ui/CompletedTasksFragment.kt:128 | the dates of the grouping, in its order |
| CompletedTasks.LookupKey | app/src/main/java/com/example/theshitapp/ui/CompletedTasksFragment.kt:136 | with distinct dates the lookup of a date finds its own group |
| CompletedTasks.SortedDatesCorrect | app/src/main/java/com/example/theshitapp/ui/CompletedTasksFragment.kt:128 | the sorted dates are a permutation of the grouping's dates, newest first |
| CompletedTasks.SortedDatesDistinct | app/src/main/java/com/example/theshitapp/ui/CompletedTasksFragment.kt:128 | distinct dates stay distinct, so newest first is strict |
| CompletedTasks.TaskItems | app/src/main/java/com/example/theshitapp/ui/CompletedTasksFragment.kt:137 | one task item per task, in order |
| CompletedTasks.FlattenedLength | app/src/main/java/com/example/theshitapp/ui/CompletedTasksFragment.kt:131-138 | the flattened list holds one header per date and one item per task listed under it |
| CompletedTasks.HeaderDatesAppend | app/src/main/java/com/example/theshitapp/ui/CompletedTasksFragment.kt:131-138 | the headers of two lists joined are the headers of each in turn |
| CompletedTasks.TaskItemsHaveNoHeader | app/src/main/java/com/example/theshitapp/ui/CompletedTasksFragment.kt:137 | task items add no header |
| CompletedTasks.Flattened | app/src/main/java/com/example/theshitapp/ui/CompletedTasksFragment.kt:131-138 | no contract of its own; specified by FlattenedHeaders, FlattenedTasks, FlattenedUnderHeaders and CompletedList |
| CompletedTasks.FlattenedHeaders | app/src/main/java/com/example/theshitapp/ui/CompletedTasksFragment.kt:131-138 | the headers of the flattened list are exactly the dates, in order |
| CompletedTasks.HeaderBlock | app/src/main/java/com/example/theshitapp/ui/CompletedTasksFragment.kt:133-137 | a header followed by its tasks adds exactly that header's date |
| CompletedTasks.TotalOfKeys | app/src/main/java/com/example/theshitapp/ui/CompletedTasksFragment.kt:131-138 | listing every date of a grouping with distinct dates lists all its tasks |
| CompletedTasks.TotalAppend | app/src/main/java/com/example/theshitapp/ui/CompletedTasksFragment.kt:131-138 | the task count over joined dates is the sum of the counts |
| CompletedTasks.RemoveOccurrence | app/src/main/java/com/example/theshitapp/ui/CompletedTasksFragment.kt:128 | removing one copy of a value from both sides keeps two lists permutations of each other |
| CompletedTasks.TotalPermutation | app/src/main/java/com/example/theshitapp/ui/CompletedTasksFragment.kt:128-138 | the number of items does not depend on the order of the dates |
| CompletedTasks.TotalSplit | app/src/main/java/com/example/theshitapp/ui/CompletedTasksFragment.kt:128-138 | the task count splits at any position |
| CompletedTasks.ItemCount | app/src/main/java/com/example/theshitapp/ui/CompletedTasksFragment.kt:179 | the adapter has one item per date and one per task of the grouping |
| CompletedTasks.FlattenedList | app/src/main/java/com/example/theshitapp/ui/CompletedTasksFragment.kt:126-139 | the list has one header per date and one item per task; its headers are the dates, strictly newest first |
| CompletedTasks.TaskItemsTasks | app/src/main/java/com/example/theshitapp/ui/CompletedTasksFragment.kt:134-136 | the task items of a day's tasks carry exactly those tasks, in order |
| CompletedTasks.ItemTasksAppend | app/src/main/java/com/example/theshitapp/ui/CompletedTasksFragment.kt:126-139 | the tasks of concatenated item lists are the concatenation of their tasks |
| CompletedTasks.FlattenedTasks | app/src/main/java/com/example/theshitapp/ui/CompletedTasksFragment.kt:126-139 | the tasks in the flattened list are, as a multiset, the tasks filed under the listed dates |
| CompletedTasks.ListedCount | app/src/main/java/com/example/theshitapp/ui/CompletedTasksFragment.kt:126-139 | each task occurs in the list as often as it occurs in the groups of the listed dates, summed over those dates |
| CompletedTasks.ListedPermutation | app/src/main/java/com/example/theshitapp/ui/CompletedTasksFragment.kt:128-138 | which tasks the list holds does not depend on the order of the dates |
| CompletedTasks.ListedOfKeys | app/src/main/java/com/example/theshitapp/ui/CompletedTasksFragment.kt:126-139 | listing the groups' own dates in their order gives exactly the tasks of those groups |
| CompletedTasks.FlattenedGroupsTasks | app/src/main/java/com/example/theshitapp/ui/CompletedTasksFragment.kt:126-139 | over distinct dates, the list sorted newest first holds exactly the tasks of all groups |
| CompletedTasks.CompletedListTasks | app/src/main/java/com/example/theshitapp/ui/CompletedTasksFragment.kt:44-60 | the list built from the completed tasks by day holds every completed task exactly as often as the repository returns it |
| CompletedTasks.HeaderOfPrefix | app/src/main/java/com/example/theshitapp/ui/CompletedTasksFragment.kt:126-139 | appending items leaves the header in force at earlier positions unchanged |
| CompletedTasks.HeaderAfter | app/src/main/java/com/example/theshitapp/ui/CompletedTasksFragment.kt:133-137 | after a header with only task items following, that header is in force |
| CompletedTasks.FlattenedUnderHeaders | app/src/main/java/com/example/theshitapp/ui/CompletedTasksFragment.kt:126-139 | when every group only holds tasks due that day, each task in the list sits under the header of its own day |
| CompletedTasks.CompletedListUnderHeaders | app/src/main/java/com/example/theshitapp/ui/CompletedTasksFragment.kt:44-60 | in the list of completed tasks by day, each task sits under the header of the day it was due |
| CompletedTasks.CompletedList | app/src/main/java/com/example/theshitapp/ui/CompletedTasksFragment.kt:44-60 | over the repository's completed tasks by day, the list has one header per day with a completed task, newest day first; its task items are, as a multiset, exactly the completed tasks, and each sits under the header of the day it was due |
| CompletedTasks.TwiceInMultiset | app/src/main/java/com/example/theshitapp/ui/CompletedTasksFragment.kt:128 | a value found at two positions occurs at least twice |
| CompletedTasks.KeyOnce | app/src/main/java/com/example/theshitapp/ui/CompletedTasksFragment.kt:128 | a date occurs at most once among the dates of a grouping with distinct dates |
| CompletedTasks.BindHeader | app/src/main/java/com/example/theshitapp/ui/CompletedTasksFragment.kt:76-95 | the header is green exactly when the score is full and its total is positive, and red otherwise |
| CompletedTasks.ScoreText | app/src/main/java/com/example/theshitapp/ui/CompletedTasksFragment.kt:83 | no contract of its own; specified by ScoreTextInjective |
| CompletedTasks.ScoreTextInjective | app/src/main/java/com/example/theshitapp/ui/CompletedTasksFragment.kt:83 | the score text gives both of its numbers back |
| CompletedTasks.EmptyScoreIsRed | app/src/main/java/com/example/theshitapp/ui/CompletedTasksFragment.kt:83-94 | a 0/0 score reads "Score: 0/0" and is red |
| CompletedTasks.GroupDay | app/src/main/java/com/example/theshitapp/repository/TaskRepository.kt:597-611 | every day of the completed list is a normalised day on which some completed task is due |
| CompletedTasks.FullScore | app/src/main/java/com/example/theshitapp/repository/TaskRepository.kt:614-626 | on a day with a task due the score's total is positive, and the score is full exactly when every task due that day is completed |
| CompletedTasks.HeaderColourOfDay | app/src/main/java/com/example/theshitapp/ui/CompletedTasksFragment.kt:76-95 | a header of the completed list is green exactly when every task due that day is completed |
| CompletedTasks.BindTask | app/src/main/java/com/example/theshitapp/ui/CompletedTasksFragment.kt:104-116 | the row shows the task's title and "Category: " followed by its category's name |
| CompletedTasks.CompletionLabel | app/src/main/java/com/example/theshitapp/ui/CompletedTasksFragment.kt:108-115 | the label is "Completed" alone exactly when there is no due time, and otherwise "Completed: " and the formatted due time |
| CompletedTasks.CompletedTasksAdapter.constructor | app/src/main/java/com/example/theshitapp/ui/CompletedTasksFragment.kt:120-139 | the items are the flattened list of the grouping, newest date first |
| CompletedTasks.CompletedTasksAdapter.GetItemViewType | app/src/main/java/com/example/theshitapp/ui/CompletedTasksFragment.kt:141-147 | type 0 exactly for a date and type 1 exactly for a task |
| CompletedTasks.CompletedTasksAdapter.BindAt | app/src/main/java/com/example/theshitapp/ui/CompletedTasksFragment.kt:165-177 | a header row exactly for a date, bound with the repository's score for it; a task row bound from the task otherwise |
| CompletedTasks.CompletedTasksFragment.constructor | app/src/main/java/com/example/theshitapp/ui/CompletedTasksFragment.kt:16-23 | the fragment starts with no adapter and the empty view hidden |
| CompletedTasks.CompletedTasksFragment.SetupCompletedTasks | app/src/main/java/com/example/theshitapp/ui/CompletedTasksFragment.kt:44-60 | the empty view shows exactly when no task is completed; otherwise a new adapter lists the completed tasks by day |
| Notifications.Put | app/src/main/java/com/example/theshitapp/receiver/TaskAlarmReceiver.kt:85 | `putString` keeps the keys distinct, holds the new entry, keeps every entry under another key and adds none |
| Notifications.RemoveEntries | app/src/main/java/com/example/theshitapp/ui/NotificationsActivity.kt:197-198 | `remove(key)` leaves exactly the entries with another key |
| Notifications.ParseRecord | app/src/main/java/com/example/theshitapp/ui/NotificationsActivity.kt:87-107 | a kept record carries its key as id |
| Notifications.RecordKept | app/src/main/java/com/example/theshitapp/ui/NotificationsActivity.kt:88-91 | a record is kept exactly when its value is a String containing a bar |
| Notifications.RecordFields | app/src/main/java/com/example/theshitapp/ui/NotificationsActivity.kt:90-93 | for a value made of the task id, a bar, the message and possibly more with no bar in either field, the task id is the text before the first bar and the message the text up to the second; anything after is dropped |
| Notifications.RecordTimestamp | app/src/main/java/com/example/theshitapp/ui/NotificationsActivity.kt:94-98 | the timestamp is the key read as a Long, or the current instant when the key is no Long |
| Notifications.WrittenRecordReadBack | app/src/main/java/com/example/theshitapp/receiver/TaskAlarmReceiver.kt:83-85 | parsing what `addInAppNotification` writes gives back its key, task id, message and instant, when neither field contains bar and the instant fits a Long |
| Notifications.ParseAllComplete | app/src/main/java/com/example/theshitapp/ui/NotificationsActivity.kt:86-115 | every entry that parses contributes its record to the list |
| Notifications.ParseAllSound | app/src/main/java/com/example/theshitapp/ui/NotificationsActivity.kt:86-115 | every record in the list comes from an entry stored under the record's id |
| Notifications.ParseAllRemove | app/src/main/java/com/example/theshitapp/ui/NotificationsActivity.kt:196-198 | after `remove(id)` the records read are those read before, minus the ones with that id, in the same order |
| Notifications.LoadedCorrect | app/src/main/java/com/example/theshitapp/ui/NotificationsActivity.kt:117-118 | the shown list is a permutation of the parsed records with timestamps non-increasing, and records with equal timestamps keep their store order |
| Notifications.AddInAppNotification | app/src/main/java/com/example/theshitapp/receiver/TaskAlarmReceiver.kt:79-86 | no contract of its own; specified by WrittenRecordReadBack and WrittenRecordShown |
| Notifications.WrittenRecordShown | app/src/main/java/com/example/theshitapp/receiver/TaskAlarmReceiver.kt:79-86 | after the alarm receiver writes a record, loading the notifications shows it |
| Notifications.NotificationsActivity.LoadNotifications | app/src/main/java/com/example/theshitapp/ui/NotificationsActivity.kt:80-125 | the preferences are only read; the list shown is the parsed records sorted newest first; the empty state is visible exactly when the list is empty |
| Notifications.NotificationsActivity.ClearAllNotifications | app/src/main/java/com/example/theshitapp/ui/NotificationsActivity.kt:140-144 | the preferences are emptied and the reload shows an empty list with the empty state visible |
| Notifications.NotificationsActivity.OnNotificationClick | app/src/main/java/com/example/theshitapp/ui/NotificationsActivity.kt:179-203 | with the task present its id is opened and nothing changes; otherwise that record's key is removed, nothing is opened, and the list is reloaded |
| Notifications.RemovedRecordOnly | app/src/main/java/com/example/theshitapp/ui/NotificationsActivity.kt:196-201 | in a store with unique keys, removing a tapped record's key drops at most one entry, only that key's records, and nothing when the key is absent |
| Notifications.RemoveAbsent | app/src/main/java/com/example/theshitapp/ui/NotificationsActivity.kt:197-198 | removing a key that no entry has changes nothing |
| Notifications.RemoveAtMostOne | app/src/main/java/com/example/theshitapp/ui/NotificationsActivity.kt:197-198 | in a store with unique keys a removal drops at most one entry |
| DailyTasks.IsSameDayIffSameDayNumber | app/src/main/java/com/example/theshitapp/ui/DailyTasksFragment.kt:227-237 | two instants are the same day exactly when their day numbers agree |
| DailyTasks.PrevMonthFirst | app/src/main/java/com/example/theshitapp/ui/DailyTasksFragment.kt:159 | the 1st of the month before is a valid date whose next month is the given one |
| DailyTasks.GridOf | app/src/main/java/com/example/theshitapp/ui/DailyTasksFragment.kt:146-181 | the grid of the selected month is well shaped: its lead is its 1st's weekday and its lengths are those of the months |
| DailyTasks.CellDay | app/src/main/java/com/example/theshitapp/ui/DailyTasksFragment.kt:166-216 | the date in a cell always has a valid month |
| DailyTasks.SundayOnOrBefore | app/src/main/java/com/example/theshitapp/ui/DailyTasksFragment.kt:153-165 | going back by a day's weekday lands on a Sunday |
| DailyTasks.PreviousMonthDay | app/src/main/java/com/example/theshitapp/ui/DailyTasksFragment.kt:162-167 | that day of the previous month lies the given number of days before the 1st |
| DailyTasks.NextMonthDay | app/src/main/java/com/example/theshitapp/ui/DailyTasksFragment.kt:202-206 | day d of the next month lies the month's length plus d - 1 days after the 1st |
| DailyTasks.PreviousCellConsecutive | app/src/main/java/com/example/theshitapp/ui/DailyTasksFragment.kt:166-177 | a leading cell shows the right day of the previous month, that many days after the grid's Sunday |
| DailyTasks.MonthCellConsecutive | app/src/main/java/com/example/theshitapp/ui/DailyTasksFragment.kt:184-195 | a cell of the month shows its day, that many days after the grid's Sunday |
| DailyTasks.NextCellConsecutive | app/src/main/java/com/example/theshitapp/ui/DailyTasksFragment.kt:205-216 | a trailing cell shows the right day of the next month, that many days after the grid's Sunday |
| DailyTasks.CellDayConsecutive | app/src/main/java/com/example/theshitapp/ui/DailyTasksFragment.kt:141-217 | every cell's date is valid and cell k is k days after the Sunday on or before the 1st |
| DailyTasks.CellDateFields | app/src/main/java/com/example/theshitapp/ui/DailyTasksFragment.kt:141-217 | each cell's instant is on its date, at the selected time of day, and the cells are consecutive days |
| DailyTasks.GridStartsOnSunday | app/src/main/java/com/example/theshitapp/ui/DailyTasksFragment.kt:153-178 | the first cell is a Sunday on or before the 1st and less than a week before it |
| DailyTasks.NextCellIsNextDay | app/src/main/java/com/example/theshitapp/ui/DailyTasksFragment.kt:141-217 | consecutive cells are consecutive days at the same time of day |
| DailyTasks.CurrentMonthExactly | app/src/main/java/com/example/theshitapp/ui/DailyTasksFragment.kt:172-211 | a cell is marked in the current month exactly when its date is in the selected year and month |
| DailyTasks.SelectedDateCell | app/src/main/java/com/example/theshitapp/ui/DailyTasksFragment.kt:184-195 | the selected date is shown in exactly one cell, the one of its day of month |
| DailyTasks.SelectionInGrid | app/src/main/java/com/example/theshitapp/ui/DailyTasksFragment.kt:220-223 | selecting the selected date in the new grid picks its cell in the current month |
| DailyTasks.PreviousMonthOfFirst | app/src/main/java/com/example/theshitapp/ui/DailyTasksFragment.kt:159 | one month back from a 1st is the 1st of the previous month |
| DailyTasks.NextMonthOf | app/src/main/java/com/example/theshitapp/ui/DailyTasksFragment.kt:202 | one month on lands in the next month |
| DailyTasks.SetDayKeepsMonth | app/src/main/java/com/example/theshitapp/ui/DailyTasksFragment.kt:150-185 | setting a day the month has keeps the year and the month |
| DailyTasks.MonthFirstFields | app/src/main/java/com/example/theshitapp/ui/DailyTasksFragment.kt:150-153 | the 1st of the selected month keeps the time of day, and its DAY_OF_WEEK minus SUNDAY is the lead of the grid |
| DailyTasks.SetDayIsCell | app/src/main/java/com/example/theshitapp/ui/DailyTasksFragment.kt:167-206 | setting a day of month gives that date at the same time of day |
| DailyTasks.PreviousMonthCell | app/src/main/java/com/example/theshitapp/ui/DailyTasksFragment.kt:166-167 | step i of the previous-month loop fills the cell of that day |
| DailyTasks.MonthCell | app/src/main/java/com/example/theshitapp/ui/DailyTasksFragment.kt:184-185 | step day of the month loop fills the cell of that day |
| DailyTasks.NextMonthCell | app/src/main/java/com/example/theshitapp/ui/DailyTasksFragment.kt:205-206 | step day of the next-month loop fills the cell of that day |
| DailyTasks.PreviousDayStep | app/src/main/java/com/example/theshitapp/ui/DailyTasksFragment.kt:166-177 | one turn of the previous-month loop extends a correct prefix of the grid by one cell |
| DailyTasks.AppendCell | app/src/main/java/com/example/theshitapp/ui/DailyTasksFragment.kt:169-176 | appending the next cell's instant extends a correct prefix of the grid |
| DailyTasks.PreviousMonthStart | app/src/main/java/com/example/theshitapp/ui/DailyTasksFragment.kt:153-162 | the lead is the 1st's DAY_OF_WEEK minus SUNDAY, and one month back is in the previous month with its length |
| DailyTasks.AddPreviousMonthDays | app/src/main/java/com/example/theshitapp/ui/DailyTasksFragment.kt:155-178 | the leading cells are exactly the grid's first cells |
| DailyTasks.AddCurrentMonthDays | app/src/main/java/com/example/theshitapp/ui/DailyTasksFragment.kt:180-195 | after the month's days the prefix is correct, and the calendar is still in the selected month at the selected time of day |
| DailyTasks.AddNextMonthDays | app/src/main/java/com/example/theshitapp/ui/DailyTasksFragment.kt:197-217 | the trailing cells complete exactly 42 correct cells |
| DailyTasks.CalendarDays | app/src/main/java/com/example/theshitapp/ui/DailyTasksFragment.kt:141-218 | 42 cells, each the expected cell for its position |
| DailyTasks.CountText | app/src/main/java/com/example/theshitapp/ui/DailyTasksFragment.kt:303-310 | no contract of its own; specified by CountTextWithoutHabits, CountTextWithHabits and CountTextInjective |
| DailyTasks.CountTextWithoutHabits | app/src/main/java/com/example/theshitapp/ui/DailyTasksFragment.kt:303-310 | without habits the line is the task count alone, singular for one |
| DailyTasks.CountTextWithHabits | app/src/main/java/com/example/theshitapp/ui/DailyTasksFragment.kt:306-307 | with habits both counts are shown, joined by " & " |
| DailyTasks.HabitPartInjective | app/src/main/java/com/example/theshitapp/ui/DailyTasksFragment.kt:304-307 | the habit part gives back the number of habits |
| DailyTasks.CountTextInjective | app/src/main/java/com/example/theshitapp/ui/DailyTasksFragment.kt:300-310 | the count line gives back both counts |
| DailyTasks.DailyTasksFragment.constructor | app/src/main/java/com/example/theshitapp/ui/DailyTasksFragment.kt:30-40 | the fragment opens on the current instant with an empty count line |
| DailyTasks.DailyTasksFragment.GenerateCalendarDays | app/src/main/java/com/example/theshitapp/ui/DailyTasksFragment.kt:141-225 | the adapter gets the 42 expected cells and the selected date's cell is selected |
| DailyTasks.DailyTasksFragment.LoadTasksForSelectedDate | app/src/main/java/com/example/theshitapp/ui/DailyTasksFragment.kt:287-312 | the count line is that of the day's tasks; the date is kept |
| DailyTasks.DailyTasksFragment.UpdateCalendarMonth | app/src/main/java/com/example/theshitapp/ui/DailyTasksFragment.kt:98-109 | the date becomes the one given, with its grid, selection and count line |
| DailyTasks.DailyTasksFragment.NavigateToPreviousMonth | app/src/main/java/com/example/theshitapp/ui/DailyTasksFragment.kt:84-89 | the date moves one calendar month back, the day clamped, the time of day kept, with a new grid |
| DailyTasks.DailyTasksFragment.NavigateToNextMonth | app/src/main/java/com/example/theshitapp/ui/DailyTasksFragment.kt:91-96 | the date moves one calendar month on, the day clamped, the time of day kept, with a new grid |
| DailyTasks.DailyTasksFragment.NavigateToYear | app/src/main/java/com/example/theshitapp/ui/DailyTasksFragment.kt:253-268 | nothing changes when the year is already shown; otherwise the year is set and the grid and count line follow |
| DailyTasks.SetYearKeepsDate | app/src/main/java/com/example/theshitapp/ui/DailyTasksFragment.kt:263 | setting the year keeps month, day and time when that day exists in the new year |
| DailyTasks.SetYearLeapDay | app/src/main/java/com/example/theshitapp/ui/DailyTasksFragment.kt:263 | February 29 moved to a common year becomes March 1 |
| ScheduleView.DayDifference | app/src/main/java/com/example/theshitapp/ui/custom/WeeklyScheduleView.kt:398-415 | the result is an Int, since the Long quotient is cut to 32 bits |
| ScheduleView.TruncDivOfMultiple | app/src/main/java/com/example/theshitapp/ui/custom/WeeklyScheduleView.kt:413-414 | a whole number of days divides exactly |
| ScheduleView.DayDifferenceCountsDays | app/src/main/java/com/example/theshitapp/ui/custom/WeeklyScheduleView.kt:398-415 | away from Int overflow the result is the number of calendar days from the first date to the second |
| ScheduleView.DayDifferenceSelf | app/src/main/java/com/example/theshitapp/ui/custom/WeeklyScheduleView.kt:398-415 | a date is 0 days from itself |
| ScheduleView.DayDifferenceAntisymmetric | app/src/main/java/com/example/theshitapp/ui/custom/WeeklyScheduleView.kt:398-415 | swapping the dates negates the count |
| ScheduleView.WeekStart | app/src/main/java/com/example/theshitapp/ui/custom/WeeklyScheduleView.kt:331-345 | the week start is a Sunday at midnight, at most six days before the date, and not after it |
| ScheduleView.WeekStartUnique | app/src/main/java/com/example/theshitapp/ui/custom/WeeklyScheduleView.kt:336-340 | the week start is the only Sunday midnight in the six days up to the date |
| ScheduleView.WeekStartIdempotent | app/src/main/java/com/example/theshitapp/ui/custom/WeeklyScheduleView.kt:331-345 | the week start of a week start is itself |
| ScheduleView.WeekStartOfSunday | app/src/main/java/com/example/theshitapp/ui/custom/WeeklyScheduleView.kt:336-340 | a Sunday's week starts at that Sunday's midnight |
| ScheduleView.TaskHour | app/src/main/java/com/example/theshitapp/ui/custom/WeeklyScheduleView.kt:383-389 | the hour of the due time when there is one, else the hour of the due date, always 0..23 |
| ScheduleView.Slot | app/src/main/java/com/example/theshitapp/ui/custom/WeeklyScheduleView.kt:370-392 | a filed task gets a day in 0..6 and an hour in 0..23 |
| ScheduleView.DayNumberMonotonic | app/src/main/java/com/example/theshitapp/ui/custom/WeeklyScheduleView.kt:374 | a later instant is on the same day or a later one |
| ScheduleView.SlotWindow | app/src/main/java/com/example/theshitapp/ui/custom/WeeklyScheduleView.kt:370-392 | a task is filed exactly when it is due no earlier than the start and at most six calendar days later, under its day offset and its hour |
| ScheduleView.SlotOfMidnightStart | app/src/main/java/com/example/theshitapp/ui/custom/WeeklyScheduleView.kt:366-380 | from a midnight start the filter is exactly the seven-day window |
| ScheduleView.Bucket | app/src/main/java/com/example/theshitapp/ui/custom/WeeklyScheduleView.kt:370-392 | no contract of its own; specified by BucketMembers, BucketAppend and BucketFirst |
| ScheduleView.BucketMembers | app/src/main/java/com/example/theshitapp/ui/custom/WeeklyScheduleView.kt:370-392 | a bucket holds exactly the input tasks filed there |
| ScheduleView.BucketOutsideEmpty | app/src/main/java/com/example/theshitapp/ui/custom/WeeklyScheduleView.kt:357-362 | cells outside the 7 x 24 grid receive nothing |
| ScheduleView.BucketAppend | app/src/main/java/com/example/theshitapp/ui/custom/WeeklyScheduleView.kt:370-392 | filing goes task by task, so each bucket keeps the input order |
| ScheduleView.FiledOnce | app/src/main/java/com/example/theshitapp/ui/custom/WeeklyScheduleView.kt:370-392 | no task is filed under two different buckets |
| ScheduleView.BucketFirst | app/src/main/java/com/example/theshitapp/ui/custom/WeeklyScheduleView.kt:370-392 | the first task of a bucket is the earliest input task filed there |
| ScheduleView.OrganizeStep | app/src/main/java/com/example/theshitapp/ui/custom/WeeklyScheduleView.kt:370-393 | a skipped task leaves the grid unchanged; a filed one is appended to its one bucket |
| ScheduleView.RowHeight | app/src/main/java/com/example/theshitapp/ui/custom/WeeklyScheduleView.kt:317 | an hour row has positive height at any allowed zoom |
| ScheduleView.CellAt | app/src/main/java/com/example/theshitapp/ui/custom/WeeklyScheduleView.kt:306-317 | a tap on the header or the time column is in no cell |
| ScheduleView.FractionOfWidth | app/src/main/java/com/example/theshitapp/ui/custom/WeeklyScheduleView.kt:316-317 | a fraction of a width stays within the width |
| ScheduleView.QuotientTimesDivisor | app/src/main/java/com/example/theshitapp/ui/custom/WeeklyScheduleView.kt:316-317 | the quotient times the divisor gives the offset back |
| ScheduleView.FloorBounds | app/src/main/java/com/example/theshitapp/ui/custom/WeeklyScheduleView.kt:316-317 | the truncated quotient of a non-negative offset picks the interval containing it |
| ScheduleView.CellContainsTap | app/src/main/java/com/example/theshitapp/ui/custom/WeeklyScheduleView.kt:306-317 | a tap lands in the cell whose rectangle contains it |
| ScheduleView.FirstInBucket | app/src/main/java/com/example/theshitapp/ui/custom/WeeklyScheduleView.kt:319-326 | a task is found only for indices in 0..6 and 0..23 and a present, non-empty bucket, and it is the bucket's first task |
| ScheduleView.ClockHour | app/src/main/java/com/example/theshitapp/ui/custom/WeeklyScheduleView.kt:176-184 | the clock-face hour is 1..12 and differs from the hour by 0 or 12 |
| ScheduleView.HourLabel | app/src/main/java/com/example/theshitapp/ui/custom/WeeklyScheduleView.kt:176-184 | no contract of its own; specified by HourLabelShape, HourLabelInjective and HourLabelExamples |
| ScheduleView.HourLabelShape | app/src/main/java/com/example/theshitapp/ui/custom/WeeklyScheduleView.kt:176-184 | each label is the clock-face hour followed by " AM" before noon and " PM" from noon |
| ScheduleView.SuffixCancel | app/src/main/java/com/example/theshitapp/ui/custom/WeeklyScheduleView.kt:176-184 | strings ending in suffixes of the same length are equal exactly when both parts are |
| ScheduleView.HourLabelInjective | app/src/main/java/com/example/theshitapp/ui/custom/WeeklyScheduleView.kt:174-185 | no two hours of the day share a label |
| ScheduleView.HourLabelExamples | app/src/main/java/com/example/theshitapp/ui/custom/WeeklyScheduleView.kt:176-184 | hours 0, 9, 12, 13 and 23 read "12 AM", "9 AM", "12 PM", "1 PM" and "11 PM" |
| ScheduleView.WeeklyScheduleView.constructor | app/src/main/java/com/example/theshitapp/ui/custom/WeeklyScheduleView.kt:22-99 | a new view starts at the current instant with no tasks and no buckets |
| ScheduleView.WeeklyScheduleView.OrganizeTasks | app/src/main/java/com/example/theshitapp/ui/custom/WeeklyScheduleView.kt:353-396 | the buckets become those filed from the tasks and the week start, which do not change |
| ScheduleView.WeeklyScheduleView.SetWeekStartDate | app/src/main/java/com/example/theshitapp/ui/custom/WeeklyScheduleView.kt:331-345 | the start becomes the Sunday midnight of the date's week and the grid is refiled; the tasks are kept |
| ScheduleView.WeeklyScheduleView.SetTasks | app/src/main/java/com/example/theshitapp/ui/custom/WeeklyScheduleView.kt:347-351 | the tasks are replaced and the grid is refiled; the start is kept |
| ScheduleView.WeeklyScheduleView.FindTaskAtPosition | app/src/main/java/com/example/theshitapp/ui/custom/WeeklyScheduleView.kt:306-327 | nothing on the header or the time column; on a filed grid the task found is one filed in the tapped cell, and one is found exactly when that bucket is non-empty |
| ScheduleView.FoundTaskIsEarliest | app/src/main/java/com/example/theshitapp/ui/custom/WeeklyScheduleView.kt:322-326 | the task found is the earliest input task filed in the tapped cell |
| ScheduleScreen.SundayOfWeek | app/src/main/java/com/example/theshitapp/ui/WeeklyScheduleFragment.kt:75-81 | the initial week start is the Sunday of the current week, at most six days back, with the time of day kept |
| ScheduleScreen.InitialGridStart | app/src/main/java/com/example/theshitapp/ui/WeeklyScheduleFragment.kt:75-82 | the grid of the initial week starts at the same Sunday midnight the current instant's own week has |
| ScheduleScreen.WeekStepKeepsSunday | app/src/main/java/com/example/theshitapp/ui/WeeklyScheduleFragment.kt:112-128 | whole-week steps keep a Sunday start on a Sunday at the same time of day |
| ScheduleScreen.WeekNavigationRoundTrip | app/src/main/java/com/example/theshitapp/ui/WeeklyScheduleFragment.kt:112-128 | a week forward then back, or back then forward, returns to the same instant |
| ScheduleScreen.WeeklyScheduleFragment.constructor | app/src/main/java/com/example/theshitapp/ui/WeeklyScheduleFragment.kt:27 | the week start is the current instant until the view is set up |
| ScheduleScreen.WeeklyScheduleFragment.WeekRangeEnd | app/src/main/java/com/example/theshitapp/ui/WeeklyScheduleFragment.kt:90-95 | the range ends six days after the start, on the Saturday of a Sunday start |
| ScheduleScreen.WeeklyScheduleFragment.UpdateWeekView | app/src/main/java/com/example/theshitapp/ui/WeeklyScheduleFragment.kt:85-110 | the grid moves to the week start's Sunday midnight and receives the active tasks, filed |
| ScheduleScreen.WeeklyScheduleFragment.InitWeekView | app/src/main/java/com/example/theshitapp/ui/WeeklyScheduleFragment.kt:75-83 | the week start is the Sunday of the current week and the grid shows that week's active tasks |
| ScheduleScreen.WeeklyScheduleFragment.NavigateToPreviousWeek | app/src/main/java/com/example/theshitapp/ui/WeeklyScheduleFragment.kt:112-119 | the week start moves back exactly seven days and the grid follows |
| ScheduleScreen.WeeklyScheduleFragment.NavigateToNextWeek | app/src/main/java/com/example/theshitapp/ui/WeeklyScheduleFragment.kt:121-128 | the week start moves on exactly seven days and the grid follows |
| CivilTime.Midnight | app/src/main/java/com/example/theshitapp/repository/TaskRepository.kt:629-637 | the normalised date is the midnight of the same day, at most a day earlier |
| CivilTime.AddDays | app/src/main/java/com/example/theshitapp/repository/TaskRepository.kt:424 | adding n days moves the day number by n and keeps the time of day |
| CivilTime.Weekday | app/src/main/java/com/example/theshitapp/repository/TaskRepository.kt:388-397 | the weekday is one of seven values |
| CivilTime.DayOfWeekField | app/src/main/java/com/example/theshitapp/ui/DailyTasksFragment.kt:153 | DAY_OF_WEEK is 1 for Sunday up to 7 for Saturday |
| CivilTime.WeekdayShift | app/src/main/java/com/example/theshitapp/repository/TaskRepository.kt:387-425 | days one week apart share their weekday, and consecutive days have consecutive weekdays |
| CivilTime.DaysInMonth | app/src/main/java/com/example/theshitapp/ui/DailyTasksFragment.kt:162-181 | a month has 28 to 31 days; February has 29 exactly in a leap year; April, June, September and November have 30 |
| CivilTime.DaysFromCivilOfCivil | app/src/main/java/com/example/theshitapp/ui/DailyTasksFragment.kt:234-236 | the date of a day number converts back to that day number |
| CivilTime.CivilOfDaysFromCivil | app/src/main/java/com/example/theshitapp/ui/DailyTasksFragment.kt:234-236 | a valid date converts to its day number and back to itself |
| CivilTime.CivilOf | app/src/main/java/com/example/theshitapp/ui/DailyTasksFragment.kt:234-236 | the year, month and day of an instant form the valid date of its day number |
| CivilTime.AddMonths | app/src/main/java/com/example/theshitapp/repository/TaskRepository.kt:436 | the month index moves by n and the day is clamped to the length of the month reached |
| CivilTime.AddMonthsInverse | app/src/main/java/com/example/theshitapp/ui/DailyTasksFragment.kt:84-96 | a day every month has comes back after n months forward and n back |
| CivilTime.AddMonthsClampsDay | app/src/main/java/com/example/theshitapp/repository/TaskRepository.kt:436 | January 31 2024 plus a month is February 29, in 2023 it is February 28, and December rolls into the next year |
| CivilTime.AddMonthsTo | app/src/main/java/com/example/theshitapp/ui/DailyTasksFragment.kt:87-94 | the instant moves to the clamped date n months on, at the same time of day |
| CivilTime.SetDayOfMonth | app/src/main/java/com/example/theshitapp/ui/DailyTasksFragment.kt:150-206 | setting the day of month keeps year, month and time of day, and a day beyond the month rolls over |
| CivilTime.SetYear | app/src/main/java/com/example/theshitapp/ui/DailyTasksFragment.kt:263 | setting the year keeps month, day and time of day, rolling over when the day does not exist |
| IntMath.TruncDiv | app/src/main/java/com/example/theshitapp/repository/TaskRepository.kt:460-463 | Kotlin's integer division rounds toward zero for both signs |
| IntMath.TruncRem | app/src/main/java/com/example/theshitapp/repository/TaskRepository.kt:466-467 | Kotlin's remainder has the sign of the dividend |
| IntMath.ToInt32 | app/src/main/java/com/example/theshitapp/util/AlarmScheduler.kt:59 | Long.toInt() gives a 32-bit value and is the identity on 32-bit values |
| Text.Trim | app/src/main/java/com/example/theshitapp/ui/dialog/AddTaskDialog.kt:316-317 | the trimmed text is empty exactly when the input is all whitespace, and otherwise has no whitespace at either end |
| Text.TrimSlice | app/src/main/java/com/example/theshitapp/ui/dialog/AddTaskDialog.kt:316-317 | trimming keeps a contiguous middle part and cuts only whitespace |
| Text.TrimIdempotent | app/src/main/java/com/example/theshitapp/ui/dialog/AddTaskDialog.kt:245 | trimming twice is trimming once |
| Text.ParseInt32 | app/src/main/java/com/example/theshitapp/ui/dialog/AddTaskDialog.kt:345-346 | toIntOrNull gives a 32-bit value or nothing |
| Text.ParseInt64 | app/src/main/java/com/example/theshitapp/ui/NotificationsActivity.kt:94-98 | toLong gives a 64-bit value or fails |
| Text.ParseOfToString | app/src/main/java/com/example/theshitapp/ui/NotificationsActivity.kt:94-98 | parsing the printed form of a number in range gives the number back |
| Text.IntToStringInjective | app/src/main/java/com/example/theshitapp/ui/NotificationsActivity.kt:94-98 | distinct numbers print differently |
| Text.Split | app/src/main/java/com/example/theshitapp/ui/NotificationsActivity.kt:89 | a split has at least one part and no part holds the delimiter |
| Text.JoinSplit | app/src/main/java/com/example/theshitapp/ui/NotificationsActivity.kt:89 | joining the parts of a split gives the string back |
| Text.SplitJoin | app/src/main/java/com/example/theshitapp/ui/NotificationsActivity.kt:89-93 | splitting parts joined with a delimiter none of them holds gives the parts back |
| Text.SplitHasSecondPart | app/src/main/java/com/example/theshitapp/ui/NotificationsActivity.kt:91 | a split has a second part exactly when the delimiter occurs |
| Lists.GroupByCorrect | app/src/main/java/com/example/theshitapp/repository/TaskRepository.kt:597-611 | the grouping has distinct keys, every group holds exactly the elements with its key in input order, and every element is in its group |
| Lists.GroupBySize | app/src/main/java/com/example/theshitapp/repository/TaskRepository.kt:597-611 | the groups hold as many elements as the input, and none is empty |
| Lists.GroupsMultisetUpdate | app/src/main/java/com/example/theshitapp/repository/TaskRepository.kt:597-611 | replacing one group changes the elements of the grouping by exactly the old and new group's elements |
| Lists.AddToGroupMultiset | app/src/main/java/com/example/theshitapp/repository/TaskRepository.kt:597-611 | filing one element adds exactly that element to the grouping |
| Lists.GroupByMultiset | app/src/main/java/com/example/theshitapp/repository/TaskRepository.kt:597-611 | the groups hold, as a multiset, exactly the input's elements |
| StableSort.KeyLeTotal | app/src/main/java/com/example/theshitapp/repository/TaskRepository.kt:487-491 | the chained comparator is a total order |
| StableSort.SortCorrect | app/src/main/java/com/example/theshitapp/repository/TaskRepository.kt:487-491 | sortedWith is ordered by the key, a permutation of its input, and stable |
| StableSort.SortOfSorted | app/src/main/java/com/example/theshitapp/repository/TaskRepository.kt:487-491 | sorting an already sorted list changes nothing |

## Left out

- Room persistence (`TaskRepositoryImpl`, the DAOs, `AppDatabase`, the type converters) is not modelled. Only the entities and their mappers are.
- The sample tasks of `TaskRepository` are a constructor parameter (`initialTasks`). The sample users and categories are kept as they are.
- The subtasks `saveTask` adds after `addTask` go to the Room repository, so that loop is not modelled.
- `SimpleDateFormat` is not modelled. The completed list takes its output as the `formatTime` parameter and the header's `dateText`. The week range text, the month header and the notification time text are left out.
- The calendar has one fixed local offset and no daylight-saving changes. It is proleptic Gregorian, with no 1582 Julian cutover. Weeks start on Sunday, as in a US locale.
- Coroutines, threads and lifecycle callbacks are made sequential.
- Pixel geometry is computed with real numbers, not 32-bit floats.
- The time-slot tap path of the weekly view (`WeeklyScheduleView.kt` lines 110-124), the zoom gesture (lines 130-138), `onMeasure` and all drawing code are not modelled.
- PendingIntent extras and the Android version branches are reduced to `exactAlarmsAllowed`.
- `habitDays` is a set. Turning it into a list follows the enum's declaration order, because set iteration order is unspecified.
- The iteration order of the shared-preferences map is taken as given: the store is a sequence of entries with distinct keys.
- The outer try/catch blocks in `loadNotifications` and around the reminder inputs in `saveTask` cannot be reached in the model, so they are left out.
- `User.kt` is not part of this model. `User` is built from the fields of `UserEntity`.
- In-place `sortByDescending` and `mutableList` updates are modelled as reassignment of a sequence field.
- `generateCalendarDays` is split into three methods, one per block of the source, plus `CalendarDays` composing them. The habit-expansion loop is the module-level method `TaskStore.WalkHabit`.
- YearPicker.GenerateYearsList: Kotlin `Int` overflow near `Int.MAX_VALUE` is not modelled, because years are far from it.
- `ValidateSave` requires a Spinner position of at least -1, since `selectedItemPosition` is never below that.
- Toast and broadcast texts other than the validation messages are not modelled.
- `updateDateTimeDisplay`, the Spinner's adapter and the category names it shows, the click listeners and the dismissal of the dialog are not modelled. They only move state into views.
- Text.ParseInt32: accepts only the ASCII digits '0' to '9'. `toIntOrNull` also reads the other Unicode decimal digits. The reminder inputs are typed on a number keyboard, so only ASCII digits are modelled.
- Text.ParseInt64: accepts only the ASCII digits '0' to '9'. `String.toLong` also reads the other Unicode decimal digits. Notification keys are written by `Long.toString`, which prints ASCII digits only.
- Alarms.HashCode: hashes Unicode scalar values, while `String.hashCode` hashes UTF-16 code units. The two differ only for characters above U+FFFF, which need two code units. Task ids are UUIDs or digit strings, which are ASCII.
