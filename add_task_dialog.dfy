/** The dialog that creates a task: the state its pickers and check boxes set, the checks `saveTask`
    makes before asking the repository to add the task, the even spread of reminders over the
    chosen lead time, and the name shown for the chosen colour. */
module TaskDialog {

  import opened Wrappers
  import opened IntMath
  import opened CivilTime
  import opened Text
  import opened Lists
  import opened TaskModel
  import opened TaskStore
  import opened Alarms

  // ---------------------------------------------------------------------------------------------
  // Reminder offsets

  /** The lead time in minutes of reminder `i` out of `count` over `total` minutes: all of it for
      a single reminder, otherwise `total - i * (total / count)` with Int division. */
  function ReminderOffset(total: int, count: int, i: int): int
    requires count >= 1
  {
    if count == 1 then total else total - i * TruncDiv(total, count)
  }

  /** The lead times scheduleReminders asks for, in the order it asks; none when `count` is not
      positive. */
  function ReminderOffsets(total: int, count: int): (r: seq<int>)
    ensures |r| == if count > 0 then count else 0
  {
    if count <= 0 then [] else seq(count, i requires 0 <= i < count => ReminderOffset(total, count, i))
  }

  /** One reminder fires the whole lead time early; more start there and step down evenly. */
  lemma OffsetsStart(total: int, count: int)
    requires count >= 1
    ensures ReminderOffsets(total, count)[0] == total
    ensures count == 1 ==> ReminderOffsets(total, count) == [total]
  {
  }

  lemma OffsetsExample()
    ensures ReminderOffsets(30, 3) == [30, 20, 10]
    ensures ReminderOffsets(10, 4) == [10, 8, 6, 4]
  {
    assert TruncDiv(30, 3) == 10;
    assert TruncDiv(10, 4) == 2;
  }

  /** No step of the computation leaves the 32-bit range, so Int arithmetic never wraps. */
  lemma OffsetsFitInt(total: int, count: int)
    requires IsInt32(total) && 1 <= count
    ensures forall i :: 0 <= i < count ==> IsInt32(ReminderOffsets(total, count)[i])
  {
    forall i | 0 <= i < count
      ensures IsInt32(ReminderOffsets(total, count)[i])
    {
      OffsetFits(total, count, i);
    }
  }

  lemma OffsetFits(total: int, count: int, i: int)
    requires IsInt32(total) && 0 <= i < count
    ensures IsInt32(ReminderOffset(total, count, i))
  {
    if count > 1 {
      var q := TruncDiv(total, count);
      var iq := i * q;
      if total >= 0 {
        MulMonotone(i, count, q);
        assert 0 <= iq <= count * q <= total;
      } else {
        MulMonotone(i, count, -q);
        assert i * -q == -iq && count * -q == -(count * q);
        assert total <= count * q <= iq <= 0;
      }
      assert ReminderOffset(total, count, i) == total - iq;
    }
  }

  /** The facts about one pair of validated lead times, `i` before `j`. */
  lemma OffsetPair(total: int, count: int, i: int, j: int)
    requires total > 0 && 1 < count <= 5 && 0 <= i < j < count
    ensures var q := total / count;
      0 < ReminderOffset(total, count, j) <= ReminderOffset(total, count, i) <= total &&
      (q > 0 ==> ReminderOffset(total, count, j) < ReminderOffset(total, count, i)) &&
      (q > 0 <==> total >= count) &&
      (q == 0 ==> ReminderOffset(total, count, i) == total && ReminderOffset(total, count, j) == total)
  {
    var q := total / count;
    assert TruncDiv(total, count) == q;
    DivBounds(total, count);
    var iq, jq, cq := i * q, j * q, count * q;
    MulMonotone(i, j, q);
    MulMonotone(j, count - 1, q);
    assert (count - 1) * q == cq - q;
    assert ReminderOffset(total, count, i) == total - iq && ReminderOffset(total, count, j) == total - jq;
    if q > 0 {
      MulAtLeast(j - i, q);
      assert jq - iq == (j - i) * q;
      MulAtLeast(count, q);
    } else {
      assert cq == 0;
    }
  }

  /** For inputs that pass validation (a positive lead time, one to five reminders) every reminder
      is before the due time, the lead times never grow, and they strictly shrink exactly when
      the lead time has at least one minute per reminder; otherwise they all equal the lead time. */
  lemma OffsetsValidated(total: int, count: int)
    requires total > 0 && 1 <= count <= 5
    ensures var r := ReminderOffsets(total, count);
      (forall i :: 0 <= i < count ==> 0 < r[i] <= total) &&
      (forall i, j :: 0 <= i < j < count ==> r[j] <= r[i]) &&
      ((forall i, j :: 0 <= i < j < count ==> r[j] < r[i]) <==> total >= count) &&
      (total < count ==> forall i :: 0 <= i < count ==> r[i] == total)
  {
    var r := ReminderOffsets(total, count);
    if count > 1 {
      OffsetPair(total, count, 0, 1);
      forall i, j | 0 <= i < j < count
        ensures 0 < r[j] <= r[i] <= total && (total >= count ==> r[j] < r[i])
      {
        OffsetPair(total, count, i, j);
      }
      if total < count {
        forall i | 0 <= i < count
          ensures r[i] == total
        {
          if i > 0 {
            OffsetPair(total, count, 0, i);
          }
        }
        assert r[1] == r[0];
      }
    }
  }

  /** The text of reminder notifications. */
  function ReminderMessage(title: string, minutes: int): (m: string)
    ensures m == "Your task '" + title + "' will start in " + IntToString(minutes) + " minutes"
  {
    "Your task '" + title + "' will start in " + IntToString(minutes) + " minutes"
  }

  /** The reminders of one task carry different texts for different lead times: the minutes can
      be read back from the message. */
  lemma ReminderMessageMinutes(title: string, m1: nat, m2: nat)
    requires ReminderMessage(title, m1) == ReminderMessage(title, m2)
    ensures m1 == m2
  {
    var p := "Your task '" + title + "' will start in ";
    var a, b := IntToString(m1) + " minutes", IntToString(m2) + " minutes";
    assert ReminderMessage(title, m1) == p + a && ReminderMessage(title, m2) == p + b;
    assert a == (p + a)[|p|..] && b == (p + b)[|p|..];
    LeadingNumber(m1, m2, " minutes", " minutes");
  }

  function ReminderAlarm(task: Task, minutes: int): Alarm
    requires task.dueTime.Some?
  {
    Alarm(ReminderTrigger(task.dueDate, task.dueTime.value, minutes), task.id, task.title, ReminderMessage(task.title, minutes))
  }

  /** The (request code, alarm) of each scheduleTaskReminder call for the lead times `offsets`. */
  function ReminderEntries(task: Task, offsets: seq<int>): (e: seq<(int, Alarm)>)
    requires task.dueTime.Some?
    ensures |e| == |offsets|
  {
    seq(|offsets|, i requires 0 <= i < |offsets| => (ReminderCode(task.id, offsets[i]), ReminderAlarm(task, offsets[i])))
  }

  /** The registry after one scheduleTaskReminder per lead time of `offsets`, in order. */
  function RemindersRegistered(alarms: map<int, Alarm>, allowed: bool, task: Task, offsets: seq<int>): map<int, Alarm>
  {
    if task.dueTime.None? then alarms else RegisterEach(alarms, allowed, ReminderEntries(task, offsets))
  }

  lemma ReminderEntriesSnoc(task: Task, offsets: seq<int>, m: int)
    requires task.dueTime.Some?
    ensures ReminderEntries(task, offsets + [m]) == ReminderEntries(task, offsets) + [(ReminderCode(task.id, m), ReminderAlarm(task, m))]
  {
  }

  /** One more scheduleTaskReminder call sets the next lead time's reminder. */
  lemma ReminderStep(alarms: map<int, Alarm>, allowed: bool, task: Task, offsets: seq<int>, i: nat)
    requires task.dueTime.Some? && i < |offsets|
    ensures RemindersRegistered(alarms, allowed, task, offsets[..i + 1]) ==
      Register(RemindersRegistered(alarms, allowed, task, offsets[..i]), allowed, ReminderCode(task.id, offsets[i]), ReminderAlarm(task, offsets[i]))
  {
    assert offsets[..i + 1] == offsets[..i] + [offsets[i]];
    ReminderEntriesSnoc(task, offsets[..i], offsets[i]);
    RegisterEachSnoc(alarms, allowed, ReminderEntries(task, offsets[..i]), (ReminderCode(task.id, offsets[i]), ReminderAlarm(task, offsets[i])));
  }

  /** Each lead time registers the hash of "<id>_<minutes>", and nothing else is added. */
  lemma RemindersRegisteredKeys(alarms: map<int, Alarm>, allowed: bool, task: Task, offsets: seq<int>)
    requires allowed && task.dueTime.Some?
    ensures forall k :: k in RemindersRegistered(alarms, allowed, task, offsets) <==>
      (k in alarms || exists i :: 0 <= i < |offsets| && ReminderCode(task.id, offsets[i]) == k)
  {
    var e := ReminderEntries(task, offsets);
    RegisterEachKeys(alarms, allowed, e);
    assert forall i :: 0 <= i < |offsets| ==> e[i].0 == ReminderCode(task.id, offsets[i]);
  }

  /** Reminders with one lead time share a request code, so they collapse into the last one set. */
  lemma RemindersCollapse(alarms: map<int, Alarm>, allowed: bool, task: Task, offsets: seq<int>, m: int)
    requires task.dueTime.Some? && |offsets| >= 1
    requires forall i :: 0 <= i < |offsets| ==> offsets[i] == m
    ensures RemindersRegistered(alarms, allowed, task, offsets) == Register(alarms, allowed, ReminderCode(task.id, m), ReminderAlarm(task, m))
  {
    var e := ReminderEntries(task, offsets);
    RegisterEachSame(alarms, allowed, e, ReminderCode(task.id, m), ReminderAlarm(task, m));
  }

  /** With at least a minute per reminder the reminders are keyed by distinct strings, so no two
      of them replace each other unless the strings' hashes collide; with fewer minutes than
      reminders only one stays registered. */
  lemma ValidatedReminders(alarms: map<int, Alarm>, allowed: bool, task: Task, total: int, count: int)
    requires total > 0 && 1 <= count <= 5 && task.dueTime.Some?
    ensures var r := ReminderOffsets(total, count);
      total >= count ==> forall i, j :: 0 <= i < j < count ==> ReminderKey(task.id, r[i]) != ReminderKey(task.id, r[j])
    ensures total < count ==> (RemindersRegistered(alarms, allowed, task, ReminderOffsets(total, count)) ==
      Register(alarms, allowed, ReminderCode(task.id, total), ReminderAlarm(task, total)))
  {
    var r := ReminderOffsets(total, count);
    OffsetsValidated(total, count);
    if total >= count {
      forall i, j | 0 <= i < j < count
        ensures ReminderKey(task.id, r[i]) != ReminderKey(task.id, r[j])
      {
        ReminderKeyInjective(task.id, r[i], r[j]);
      }
    } else {
      RemindersCollapse(alarms, allowed, task, r, total);
    }
  }

  // ---------------------------------------------------------------------------------------------
  // The colour name

  /** The colour picker's palette, name and hex code, in its order. */
  const Palette: seq<(string, string)> := [
    ("Blue", "#3B82F6"), ("Green", "#22C55E"), ("Red", "#EF4444"), ("Yellow", "#EAB308"),
    ("Purple", "#8B5CF6"), ("Pink", "#EC4899"), ("Orange", "#F97316"), ("Teal", "#14B8A6")]

  /** The name updateColorPreview shows for a colour code. */
  function ColorName(color: string): string
  {
    if color == "#3B82F6" then "Blue"
    else if color == "#22C55E" then "Green"
    else if color == "#EF4444" then "Red"
    else if color == "#EAB308" then "Yellow"
    else if color == "#8B5CF6" then "Purple"
    else if color == "#EC4899" then "Pink"
    else if color == "#F97316" then "Orange"
    else if color == "#14B8A6" then "Teal"
    else "Custom"
  }

  /** The name inverts the palette: each palette code is named as the picker names it, and
      exactly the codes outside the palette are "Custom". */
  lemma ColorNameInvertsPalette(color: string)
    ensures forall i :: 0 <= i < |Palette| ==> ColorName(Palette[i].1) == Palette[i].0
    ensures ColorName(color) == "Custom" <==> forall i :: 0 <= i < |Palette| ==> Palette[i].1 != color
  {
    var codes := ["#3B82F6", "#22C55E", "#EF4444", "#EAB308", "#8B5CF6", "#EC4899", "#F97316", "#14B8A6"];
    assert forall i :: 0 <= i < |Palette| ==> Palette[i].1 == codes[i];
    if color in codes {
      var i :| 0 <= i < 8 && codes[i] == color;
      assert Palette[i].1 == color;
    }
  }

  function ColorText(color: string): (s: string)
    ensures s == "Selected color: " + ColorName(color)
  {
    "Selected color: " + ColorName(color)
  }

  // ---------------------------------------------------------------------------------------------
  // Validation in saveTask

  /** The checked priority radio button; no button or the LOW one both mean LOW. */
  datatype PriorityButton = HighButton | MediumButton | LowButton | NoButton

  /** What the dialog's text fields, spinner, radio group and switches hold when "Save" is
      pressed; `categoryPosition` is -1 when the spinner has no selection. */
  datatype SaveForm = SaveForm(
    titleInput: string,
    descriptionInput: string,
    categoryPosition: int,
    priorityButton: PriorityButton,
    reminderSwitch: bool,
    reminderMinutesInput: string,
    reminderCountInput: string,
    habitSwitch: bool,
    habitWeeksInput: string,
    habitMonthsInput: string,
    durationInput: string)

  /** The request passed to the repository's addTask, and the reminder settings kept for
      scheduleReminders. */
  datatype SavePlan = SavePlan(request: NewTaskRequest, reminderMinutes: int, reminderCount: int)

  const TitleMissing: string := "Please enter a task title"
  const CategoryMissing: string := "Please select a category"
  const DateMissing: string := "Please select a due date"
  const MinutesNotPositive: string := "Minutes before must be greater than 0"
  const CountOutOfRange: string := "Number of reminders must be between 1 and 5"
  const HabitDaysMissing: string := "Please select at least one day for the habit"
  const HabitDurationMissing: string := "Please enter a duration for the habit"

  /** `toIntOrNull() ?: fallback`. */
  function IntOr(s: string, fallback: int): int
  {
    match ParseInt32(s)
    case Some(v) => v
    case None => fallback
  }

  /** The reminder settings read only when the reminder switch is on. */
  function ReminderMinutes(form: SaveForm): int
  {
    if form.reminderSwitch then IntOr(form.reminderMinutesInput, 30) else 30
  }

  function ReminderCount(form: SaveForm): int
  {
    if form.reminderSwitch then IntOr(form.reminderCountInput, 1) else 1
  }

  /** The habit durations, 0 unless the habit switch is on. */
  function HabitWeeks(form: SaveForm): int
  {
    if form.habitSwitch then IntOr(form.habitWeeksInput, 0) else 0
  }

  function HabitMonths(form: SaveForm): int
  {
    if form.habitSwitch then IntOr(form.habitMonthsInput, 0) else 0
  }

  function ChosenPriority(b: PriorityButton): TaskPriority
  {
    match b
    case HighButton => High
    case MediumButton => Medium
    case _ => Low
  }

  /** saveTask's checks, in order, with the toast each failure shows; the state fields the
      pickers set are passed in. A spinner reports -1 or a position, never less. */
  function ValidateSave(form: SaveForm, categories: seq<TaskCategory>, selectedDate: Option<int>,
                        selectedTime: Option<int>, habitDays: set<DayOfWeek>, color: string): Result<SavePlan, string>
    requires form.categoryPosition >= -1
  {
    var title := Trim(form.titleInput);
    if title == [] then Failure(TitleMissing)
    else if form.categoryPosition == -1 || form.categoryPosition >= |categories| then Failure(CategoryMissing)
    else if selectedDate.None? then Failure(DateMissing)
    else if form.reminderSwitch && ReminderMinutes(form) <= 0 then Failure(MinutesNotPositive)
    else if form.reminderSwitch && (ReminderCount(form) <= 0 || ReminderCount(form) > 5) then Failure(CountOutOfRange)
    else if form.habitSwitch && habitDays == {} then Failure(HabitDaysMissing)
    else if form.habitSwitch && HabitWeeks(form) == 0 && HabitMonths(form) == 0 then Failure(HabitDurationMissing)
    else
      var request := NewTaskRequest(
        title, Trim(form.descriptionInput), categories[form.categoryPosition].id, selectedDate.value, selectedTime,
        ["1"], ChosenPriority(form.priorityButton), form.reminderSwitch, IntOr(form.durationInput, 60), color,
        form.habitSwitch, habitDays, HabitWeeks(form), HabitMonths(form));
      Success(SavePlan(request, ReminderMinutes(form), ReminderCount(form)))
  }

  /** The save is refused exactly when one of the checks fails. */
  lemma SaveRefusedExactly(form: SaveForm, categories: seq<TaskCategory>, selectedDate: Option<int>,
                           selectedTime: Option<int>, habitDays: set<DayOfWeek>, color: string)
    requires form.categoryPosition >= -1
    ensures ValidateSave(form, categories, selectedDate, selectedTime, habitDays, color).Failure? <==>
      (Trim(form.titleInput) == [] || form.categoryPosition == -1 || form.categoryPosition >= |categories| ||
       selectedDate.None? ||
       (form.reminderSwitch && (ReminderMinutes(form) <= 0 || !(1 <= ReminderCount(form) <= 5))) ||
       (form.habitSwitch && (habitDays == {} || (HabitWeeks(form) == 0 && HabitMonths(form) == 0))))
  {
  }

  /** An accepted save asks for a task with the trimmed title, the chosen category and day, the
      current user as the only assignee, and settings that passed the checks. */
  lemma SaveAccepted(form: SaveForm, categories: seq<TaskCategory>, selectedDate: Option<int>,
                     selectedTime: Option<int>, habitDays: set<DayOfWeek>, color: string)
    requires form.categoryPosition >= -1
    requires ValidateSave(form, categories, selectedDate, selectedTime, habitDays, color).Success?
    ensures var p := ValidateSave(form, categories, selectedDate, selectedTime, habitDays, color).value;
      var q := p.request;
      q.title == Trim(form.titleInput) && q.title != [] &&
      0 <= form.categoryPosition < |categories| && q.categoryId == categories[form.categoryPosition].id &&
      selectedDate == Some(q.dueDate) && q.dueTime == selectedTime && q.assigneeIds == ["1"] &&
      q.taskColor == color && q.reminderSet == form.reminderSwitch && q.isHabit == form.habitSwitch &&
      (q.reminderSet ==> p.reminderMinutes > 0 && 1 <= p.reminderCount <= 5) &&
      (q.isHabit ==> q.habitDays != {} && (q.habitDurationWeeks != 0 || q.habitDurationMonths != 0)) &&
      (!q.isHabit ==> q.habitDurationWeeks == 0 && q.habitDurationMonths == 0)
  {
  }

  /** A habit whose length is negative passes the checks (only 0 weeks and 0 months is refused),
      and so reaches the repository. */
  lemma NegativeHabitLengthPasses(form: SaveForm, categories: seq<TaskCategory>, date: int,
                                  selectedTime: Option<int>, habitDays: set<DayOfWeek>, color: string)
    requires Trim(form.titleInput) != [] && 0 <= form.categoryPosition < |categories|
    requires !form.reminderSwitch && form.habitSwitch && habitDays != {}
    requires HabitWeeks(form) < 0 || HabitMonths(form) < 0
    ensures var r := ValidateSave(form, categories, Some(date), selectedTime, habitDays, color);
      r.Success? && r.value.request.isHabit &&
      (r.value.request.habitDurationWeeks < 0 || r.value.request.habitDurationMonths < 0)
  {
  }

  /** Unreadable reminder numbers fall back to 30 minutes and one reminder, which pass the checks. */
  lemma ReminderFallbacksPass(form: SaveForm)
    requires form.reminderSwitch && ParseInt32(form.reminderMinutesInput).None? && ParseInt32(form.reminderCountInput).None?
    ensures ReminderMinutes(form) == 30 && ReminderCount(form) == 1
  {
  }

  // ---------------------------------------------------------------------------------------------
  // The dialog

  /** `subtasks.remove(title)`: the first occurrence goes. */
  function RemoveFirst(s: seq<string>, x: string): (r: seq<string>)
    ensures x !in s ==> r == s
    ensures x in s ==> |r| == |s| - 1 && multiset(r) == multiset(s) - multiset{x}
  {
    if s == [] then []
    else
      assert s == [s[0]] + s[1..];
      if s[0] == x then s[1..] else [s[0]] + RemoveFirst(s[1..], x)
  }

  /** The copy removed is the first one, and the others keep their order: with `i` the position
      of the first `x`, removal cuts out exactly position `i`. */
  lemma {:induction false} RemoveFirstAt(s: seq<string>, x: string, i: nat)
    requires i < |s| && s[i] == x && x !in s[..i]
    ensures RemoveFirst(s, x) == s[..i] + s[i + 1..]
  {
    if i == 0 {
      assert s[0] == x;
    } else {
      assert s[..i][0] == s[0];
      var t := s[1..];
      assert s == [s[0]] + t;
      assert t[..i - 1] == s[1..i];
      assert s[..i] == [s[0]] + t[..i - 1];
      assert x !in t[..i - 1];
      RemoveFirstAt(t, x, i - 1);
      assert t[i..] == s[i + 1..];
    }
  }

  /** Calendar.set(HOUR_OF_DAY, hour) then set(MINUTE, 0), seconds and milliseconds kept; an
      hour beyond 23 carries into the next day, as a lenient Calendar does. */
  function WithHour(t: int, hour: int): int
  {
    AtTime(DayNumber(t), hour, 0, SecondOf(t), MilliOf(t))
  }

  /** A preselected hour gives that hour on the preselected day, on the hour. */
  lemma WithHourFields(t: int, hour: int)
    requires 0 <= hour < 24
    ensures DayNumber(WithHour(t, hour)) == DayNumber(t)
    ensures HourOf(WithHour(t, hour)) == hour && MinuteOf(WithHour(t, hour)) == 0
    ensures SecondOf(WithHour(t, hour)) == SecondOf(t) && MilliOf(WithHour(t, hour)) == MilliOf(t)
  {
    AtTimeFields(DayNumber(t), hour, 0, SecondOf(t), MilliOf(t));
  }

  class AddTaskDialog {
    const alarmScheduler: AlarmScheduler
    var calendar: int
    var selectedDate: Option<int>
    var selectedTimeInMillis: Option<int>
    var categories: seq<TaskCategory>
    var subtasks: seq<string>
    var selectedColor: string
    var selectedHabitDays: set<DayOfWeek>

    /** A fresh dialog: the calendar at `now`, nothing chosen, the default blue. */
    constructor(now: int, alarmScheduler: AlarmScheduler)
      ensures this.alarmScheduler == alarmScheduler && calendar == now
      ensures selectedDate == None && selectedTimeInMillis == None && categories == []
      ensures subtasks == [] && selectedColor == "#3B82F6" && selectedHabitDays == {}
    {
      this.alarmScheduler := alarmScheduler;
      calendar := now;
      selectedDate := None;
      selectedTimeInMillis := None;
      categories := [];
      subtasks := [];
      selectedColor := "#3B82F6";
      selectedHabitDays := {};
    }

    /** The preselection in onViewCreated: `hourArgument` is the ARG_HOUR extra, -1 when absent;
        a negative hour counts as none. A time is chosen only together with a date. */
    method ApplyPreselection(preselectedDate: Option<int>, hourArgument: int)
      modifies this
      ensures preselectedDate.None? ==> (calendar == old(calendar) && selectedDate == old(selectedDate) &&
        selectedTimeInMillis == old(selectedTimeInMillis))
      ensures preselectedDate.Some? ==> (selectedDate == preselectedDate &&
        (hourArgument < 0 ==> calendar == preselectedDate.value && selectedTimeInMillis == old(selectedTimeInMillis)) &&
        (hourArgument >= 0 ==> calendar == WithHour(preselectedDate.value, hourArgument) && selectedTimeInMillis == Some(calendar)))
      ensures categories == old(categories) && subtasks == old(subtasks)
      ensures selectedColor == old(selectedColor) && selectedHabitDays == old(selectedHabitDays)
    {
      var preselectedHour: Option<int> := if hourArgument >= 0 then Some(hourArgument) else None;
      if preselectedDate.Some? {
        calendar := preselectedDate.value;
        selectedDate := preselectedDate;
        if preselectedHour.Some? {
          calendar := WithHour(calendar, preselectedHour.value);
          selectedTimeInMillis := Some(calendar);
        }
      }
    }

    /** setupCategorySpinner: `loaded` is the repository's first category list (empty when it
        emits none) and becomes the dialog's list. The result is the Spinner position this sets:
        the first category with `preSelectedCategoryId`, or -1 when it sets none. */
    method LoadCategories(loaded: seq<TaskCategory>, preSelectedCategoryId: Option<string>) returns (position: int)
      modifies this
      ensures categories == loaded
      ensures -1 <= position < |loaded|
      ensures position >= 0 <==>
        preSelectedCategoryId.Some? && exists i :: 0 <= i < |loaded| && loaded[i].id == preSelectedCategoryId.value
      ensures position >= 0 ==> loaded[position].id == preSelectedCategoryId.value
      ensures position >= 0 ==> forall j :: 0 <= j < position ==> loaded[j].id != preSelectedCategoryId.value
      ensures calendar == old(calendar) && selectedDate == old(selectedDate) && selectedTimeInMillis == old(selectedTimeInMillis)
      ensures subtasks == old(subtasks) && selectedColor == old(selectedColor) && selectedHabitDays == old(selectedHabitDays)
    {
      categories := loaded;
      position := -1;
      if preSelectedCategoryId.Some? {
        var categoryIndex := IndexOfFirst(categories, (c: TaskCategory) => c.id == preSelectedCategoryId.value);
        if categoryIndex != -1 {
          position := categoryIndex;
        }
      }
    }

    /** The date picker's callback; `month` is Calendar.MONTH, 0 for January. */
    method PickDate(year: int, month: int, day: int)
      requires 0 <= month <= 11
      modifies this
      ensures calendar == AtDate(Date(year, month + 1, day), TimeOfDay(old(calendar)))
      ensures selectedDate == Some(calendar) && selectedTimeInMillis == old(selectedTimeInMillis)
      ensures categories == old(categories) && subtasks == old(subtasks)
      ensures selectedColor == old(selectedColor) && selectedHabitDays == old(selectedHabitDays)
    {
      calendar := AtDate(Date(year, month + 1, day), TimeOfDay(calendar));
      selectedDate := Some(calendar);
    }

    /** The time picker's callback: the hour and minute on the calendar's day, second 0. */
    method PickTime(hour: int, minute: int)
      modifies this
      ensures calendar == AtTime(DayNumber(old(calendar)), hour, minute, 0, MilliOf(old(calendar)))
      ensures selectedTimeInMillis == Some(calendar) && selectedDate == old(selectedDate)
      ensures categories == old(categories) && subtasks == old(subtasks)
      ensures selectedColor == old(selectedColor) && selectedHabitDays == old(selectedHabitDays)
    {
      calendar := AtTime(DayNumber(calendar), hour, minute, 0, MilliOf(calendar));
      selectedTimeInMillis := Some(calendar);
    }

    /** A weekday check box's listener. */
    method SetHabitDay(day: DayOfWeek, isChecked: bool)
      modifies this
      ensures selectedHabitDays == if isChecked then old(selectedHabitDays) + {day} else old(selectedHabitDays) - {day}
      ensures calendar == old(calendar) && selectedDate == old(selectedDate) && selectedTimeInMillis == old(selectedTimeInMillis)
      ensures categories == old(categories) && subtasks == old(subtasks) && selectedColor == old(selectedColor)
    {
      if isChecked {
        selectedHabitDays := selectedHabitDays + {day};
      } else {
        selectedHabitDays := selectedHabitDays - {day};
      }
    }

    /** The colour picker's callback. */
    method PickColor(color: string)
      modifies this
      ensures selectedColor == color
      ensures calendar == old(calendar) && selectedDate == old(selectedDate) && selectedTimeInMillis == old(selectedTimeInMillis)
      ensures categories == old(categories) && subtasks == old(subtasks) && selectedHabitDays == old(selectedHabitDays)
    {
      selectedColor := color;
    }

    /** addSubtask: the trimmed input is kept unless it is empty. */
    method AddSubtask(input: string)
      modifies this
      ensures subtasks == if Trim(input) == [] then old(subtasks) else old(subtasks) + [Trim(input)]
      ensures calendar == old(calendar) && selectedDate == old(selectedDate) && selectedTimeInMillis == old(selectedTimeInMillis)
      ensures categories == old(categories) && selectedColor == old(selectedColor) && selectedHabitDays == old(selectedHabitDays)
    {
      var subtaskTitle := Trim(input);
      if subtaskTitle != [] {
        subtasks := subtasks + [subtaskTitle];
      }
    }

    /** The remove button of a listed subtask. */
    method RemoveSubtask(subtaskTitle: string)
      modifies this
      ensures subtasks == RemoveFirst(old(subtasks), subtaskTitle)
      ensures calendar == old(calendar) && selectedDate == old(selectedDate) && selectedTimeInMillis == old(selectedTimeInMillis)
      ensures categories == old(categories) && selectedColor == old(selectedColor) && selectedHabitDays == old(selectedHabitDays)
    {
      subtasks := RemoveFirst(subtasks, subtaskTitle);
    }

    /** scheduleReminders: one scheduleTaskReminder per lead time, nothing for a task without a
        due time. */
    method ScheduleReminders(task: Task, minutesBefore: int, reminderCount: int)
      modifies alarmScheduler
      ensures alarmScheduler.alarms ==
        RemindersRegistered(old(alarmScheduler.alarms), alarmScheduler.exactAlarmsAllowed, task, ReminderOffsets(minutesBefore, reminderCount))
    {
      if task.dueTime.None? {
        return;
      }
      ghost var offsets := ReminderOffsets(minutesBefore, reminderCount);
      var totalMinutes := minutesBefore;
      var n := if reminderCount > 0 then reminderCount else 0;
      for i := 0 to n
        invariant alarmScheduler.alarms ==
          RemindersRegistered(old(alarmScheduler.alarms), alarmScheduler.exactAlarmsAllowed, task, offsets[..i])
      {
        var minutesBeforeTask;
        if reminderCount == 1 {
          minutesBeforeTask := totalMinutes;
        } else {
          minutesBeforeTask := totalMinutes - i * TruncDiv(totalMinutes, reminderCount);
        }
        assert offsets[i] == minutesBeforeTask;
        ReminderStep(old(alarmScheduler.alarms), alarmScheduler.exactAlarmsAllowed, task, offsets, i);
        alarmScheduler.ScheduleTaskReminder(task, minutesBeforeTask, ReminderMessage(task.title, minutesBeforeTask));
      }
      assert offsets[..n] == offsets;
    }

    /** saveTask: the checks, then, for an accepted save, the reminders for `added`, the task the
        repository's addTask returned, when the reminder switch is on and a time was chosen. */
    method SaveTask(form: SaveForm, added: Task) returns (r: Result<SavePlan, string>)
      requires form.categoryPosition >= -1
      modifies alarmScheduler
      ensures r == ValidateSave(form, categories, selectedDate, selectedTimeInMillis, selectedHabitDays, selectedColor)
      ensures alarmScheduler.alarms ==
        if r.Success? && r.value.request.reminderSet && selectedTimeInMillis.Some?
        then RemindersRegistered(old(alarmScheduler.alarms), alarmScheduler.exactAlarmsAllowed, added,
                                 ReminderOffsets(r.value.reminderMinutes, r.value.reminderCount))
        else old(alarmScheduler.alarms)
    {
      r := ValidateSave(form, categories, selectedDate, selectedTimeInMillis, selectedHabitDays, selectedColor);
      if r.Success? && r.value.request.reminderSet && selectedTimeInMillis.Some? {
        ScheduleReminders(added, r.value.reminderMinutes, r.value.reminderCount);
      }
    }
  }
}
