/** The alarm side of reminders: the instant an alarm fires for a task, the request code that
    identifies its PendingIntent, and the registry of pending alarms the system keeps. A
    PendingIntent is identified by its request code (every intent here targets the same receiver),
    and FLAG_UPDATE_CURRENT makes a new alarm under a code replace the old one, so the registry is
    a map from request code to the alarm last set under it. */
module Alarms {

  import opened IntMath
  import opened CivilTime
  import opened Text
  import opened Wrappers
  import opened TaskModel

  // ---------------------------------------------------------------------------------------------
  // String.hashCode

  /** The loop of String.hashCode from a running value `h`: `h = 31 * h + c` for each character
      in turn, in 32-bit arithmetic. */
  function HashFrom(h: int, s: string): (r: int)
    ensures IsInt32(h) ==> IsInt32(r)
    decreases s
  {
    if s == [] then h else HashFrom(ToInt32(31 * h + s[0] as int), s[1..])
  }

  /** String.hashCode. */
  function HashCode(s: string): (h: int)
    ensures IsInt32(h)
  {
    HashFrom(0, s)
  }

  function Pow31(n: nat): (p: int)
    ensures p >= 1
  {
    if n == 0 then 1 else 31 * Pow31(n - 1)
  }

  /** The documented value s[0]*31^(n-1) + s[1]*31^(n-2) + ... + s[n-1], without overflow. */
  function HashPolynomial(s: string): int
  {
    if s == [] then 0 else s[0] as int * Pow31(|s| - 1) + HashPolynomial(s[1..])
  }

  /** Two 32-bit values that agree modulo 2^32 are equal. */
  lemma Int32Congruent(a: int, b: int)
    requires IsInt32(a) && IsInt32(b) && (a - b) % 0x1_0000_0000 == 0
    ensures a == b
  {
    DivModUnique(a - b, 0x1_0000_0000, (a - b) / 0x1_0000_0000, 0);
  }

  /** Adding a multiple of 2^32 does not change the low 32 bits. */
  lemma ToInt32Shift(x: int, k: int)
    ensures ToInt32(x + k * 0x1_0000_0000) == ToInt32(x)
  {
    var a, b := ToInt32(x + k * 0x1_0000_0000), ToInt32(x);
    ToInt32Congruent(x + k * 0x1_0000_0000);
    ToInt32Congruent(x);
    var qa, qb := (a - (x + k * 0x1_0000_0000)) / 0x1_0000_0000, (b - x) / 0x1_0000_0000;
    DivModUnique(a - (x + k * 0x1_0000_0000), 0x1_0000_0000, qa, 0);
    DivModUnique(b - x, 0x1_0000_0000, qb, 0);
    assert a - b == (qa + k - qb) * 0x1_0000_0000;
    DivModUnique(a - b, 0x1_0000_0000, qa + k - qb, 0);
    Int32Congruent(a, b);
  }

  lemma HashStepAlgebra(h: int, c: int, k: int, p: int, h1: int)
    requires h1 - (31 * h + c) == k * 0x1_0000_0000
    ensures h1 * p == h * (31 * p) + c * p + (k * p) * 0x1_0000_0000
  {
    assert h1 == 31 * h + c + k * 0x1_0000_0000;
    assert (31 * h + c + k * 0x1_0000_0000) * p == 31 * h * p + c * p + k * 0x1_0000_0000 * p;
  }

  lemma {:induction false} HashFromIsPolynomial(h: int, s: string)
    requires IsInt32(h)
    ensures HashFrom(h, s) == ToInt32(h * Pow31(|s|) + HashPolynomial(s))
    decreases s
  {
    if s != [] {
      var t, c, m := s[1..], s[0] as int, |s| - 1;
      var h1 := ToInt32(31 * h + c);
      HashFromIsPolynomial(h1, t);
      ToInt32Congruent(31 * h + c);
      var k := (h1 - (31 * h + c)) / 0x1_0000_0000;
      DivModUnique(h1 - (31 * h + c), 0x1_0000_0000, k, 0);
      var p, b := Pow31(m), HashPolynomial(t);
      assert Pow31(|s|) == 31 * p && HashPolynomial(s) == c * p + b;
      HashStepAlgebra(h, c, k, p, h1);
      var x := h * Pow31(|s|) + HashPolynomial(s);
      assert h1 * p + b == x + (k * p) * 0x1_0000_0000;
      ToInt32Shift(x, k * p);
    }
  }

  /** The 32-bit loop computes the documented polynomial, wrapped once at the end. */
  lemma HashCodeIsPolynomial(s: string)
    ensures HashCode(s) == ToInt32(HashPolynomial(s))
  {
    HashFromIsPolynomial(0, s);
  }

  lemma HashCodeExamples()
    ensures HashCode("") == 0 && HashCode("a") == 97 && HashCode("ab") == 3105
  {
    assert "a"[1..] == [] && "ab"[1..] == "b" && "b"[1..] == [];
  }

  // ---------------------------------------------------------------------------------------------
  // Trigger instants and request codes

  /** A registered alarm: when it fires and the extras of its intent. */
  datatype Alarm = Alarm(triggerAt: int, taskId: string, taskTitle: string, message: string)

  /** The calendar of `dueDate` with HOUR_OF_DAY and MINUTE taken from `dueTime` and SECOND set
      to 0; the millisecond stays that of `dueDate`. */
  function BaseTrigger(dueDate: int, dueTime: int): (r: int)
    ensures DayNumber(r) == DayNumber(dueDate)
    ensures HourOf(r) == HourOf(dueTime) && MinuteOf(r) == MinuteOf(dueTime)
    ensures SecondOf(r) == 0 && MilliOf(r) == MilliOf(dueDate)
  {
    AtTimeFields(DayNumber(dueDate), HourOf(dueTime), MinuteOf(dueTime), 0, MilliOf(dueDate));
    AtTime(DayNumber(dueDate), HourOf(dueTime), MinuteOf(dueTime), 0, MilliOf(dueDate))
  }

  /** Only the time of day of `dueTime` matters: its date is ignored. */
  lemma BaseTriggerIgnoresTimeDate(dueDate: int, dueTime: int, k: int)
    ensures BaseTrigger(dueDate, dueTime + k * 86_400_000) == BaseTrigger(dueDate, dueTime)
  {
    assert TimeOfDay(dueTime + k * 86_400_000) == TimeOfDay(dueTime) by {
      DivModUnique(dueTime + k * 86_400_000, 86_400_000, DayNumber(dueTime) + k, TimeOfDay(dueTime));
    }
  }

  /** `calendar.add(MINUTE, -minutesBefore.toInt())`: the Long is cut to 32 bits and negated in
      32-bit arithmetic before the minutes are added. */
  function ReminderTrigger(dueDate: int, dueTime: int, minutesBefore: int): int
  {
    BaseTrigger(dueDate, dueTime) + ToInt32(-ToInt32(minutesBefore)) * 60_000
  }

  /** For any offset a 32-bit Int can negate, the reminder fires that many minutes early. */
  lemma ReminderTriggerEarly(dueDate: int, dueTime: int, minutesBefore: int)
    requires Int32Min < minutesBefore <= Int32Max
    ensures ReminderTrigger(dueDate, dueTime, minutesBefore) == BaseTrigger(dueDate, dueTime) - minutesBefore * 60_000
  {
  }

  /** A Long offset beyond the 32-bit range only counts by its low 32 bits. */
  lemma ReminderTriggerTruncates(dueDate: int, dueTime: int)
    ensures ReminderTrigger(dueDate, dueTime, 0x1_0000_0000 + 5) == BaseTrigger(dueDate, dueTime) - 5 * 60_000
  {
  }

  /** The due-time notification text. */
  function DueMessage(title: string): (m: string)
    ensures m == "Task is starting now: " + title
  {
    "Task is starting now: " + title
  }

  /** The string hashed into a reminder's request code. */
  function ReminderKey(taskId: string, minutesBefore: int): string
  {
    taskId + "_" + IntToString(minutesBefore)
  }

  /** Reminders of one task are keyed apart exactly when their offsets differ. */
  lemma ReminderKeyInjective(taskId: string, a: int, b: int)
    ensures ReminderKey(taskId, a) == ReminderKey(taskId, b) <==> a == b
  {
    var n := |taskId| + 1;
    if ReminderKey(taskId, a) == ReminderKey(taskId, b) {
      assert ReminderKey(taskId, a)[n..] == IntToString(a);
      assert ReminderKey(taskId, b)[n..] == IntToString(b);
    }
    IntToStringInjective(a, b);
  }

  function ReminderCode(taskId: string, minutesBefore: int): int
  {
    HashCode(ReminderKey(taskId, minutesBefore))
  }

  /** The request code of the due-time alarm, and the one cancelAlarm targets. */
  function DueCode(taskId: string): int
  {
    HashCode(taskId)
  }

  // ---------------------------------------------------------------------------------------------
  // The registry

  /** scheduleAlarmAt: with exact alarms allowed the alarm is set under its code, replacing any
      alarm already there; otherwise nothing is registered. */
  function Register(alarms: map<int, Alarm>, allowed: bool, code: int, alarm: Alarm): map<int, Alarm>
  {
    if allowed then alarms[code := alarm] else alarms
  }

  /** The registry after setting each (code, alarm) entry in turn. */
  function RegisterEach(alarms: map<int, Alarm>, allowed: bool, entries: seq<(int, Alarm)>): map<int, Alarm>
  {
    if entries == [] then alarms
    else
      var e := entries[|entries| - 1];
      Register(RegisterEach(alarms, allowed, entries[..|entries| - 1]), allowed, e.0, e.1)
  }

  lemma RegisterEachSnoc(alarms: map<int, Alarm>, allowed: bool, entries: seq<(int, Alarm)>, e: (int, Alarm))
    ensures RegisterEach(alarms, allowed, entries + [e]) == Register(RegisterEach(alarms, allowed, entries), allowed, e.0, e.1)
  {
    assert (entries + [e])[..|entries|] == entries;
  }

  /** Setting entries adds exactly their codes. */
  lemma {:induction false} RegisterEachKeys(alarms: map<int, Alarm>, allowed: bool, entries: seq<(int, Alarm)>)
    requires allowed
    ensures forall k :: k in RegisterEach(alarms, allowed, entries) <==>
      (k in alarms || exists i :: 0 <= i < |entries| && entries[i].0 == k)
  {
    if entries != [] {
      var p := entries[..|entries| - 1];
      RegisterEachKeys(alarms, allowed, p);
      assert forall i :: 0 <= i < |p| ==> p[i] == entries[i];
    }
  }

  /** Setting one entry over and over is setting it once. */
  lemma {:induction false} RegisterEachSame(alarms: map<int, Alarm>, allowed: bool, entries: seq<(int, Alarm)>, code: int, alarm: Alarm)
    requires |entries| >= 1 && forall i :: 0 <= i < |entries| ==> entries[i] == (code, alarm)
    ensures RegisterEach(alarms, allowed, entries) == Register(alarms, allowed, code, alarm)
  {
    var p := entries[..|entries| - 1];
    if p != [] {
      assert forall i :: 0 <= i < |p| ==> p[i] == entries[i];
      RegisterEachSame(alarms, allowed, p, code, alarm);
    }
  }

  /** Setting two alarms under one code leaves only the second. */
  lemma RegisterReplaces(alarms: map<int, Alarm>, allowed: bool, code: int, first: Alarm, second: Alarm)
    ensures Register(Register(alarms, allowed, code, first), allowed, code, second) == Register(alarms, allowed, code, second)
  {
  }

  /** scheduleAlarm and scheduleAllTasks act only on tasks with a reminder and a due time. */
  predicate Schedulable(task: Task)
  {
    task.reminderSet && task.dueTime.Some?
  }

  function DueAlarm(task: Task): Alarm
    requires task.dueTime.Some?
  {
    Alarm(BaseTrigger(task.dueDate, task.dueTime.value), task.id, task.title, DueMessage(task.title))
  }

  function WithDueAlarm(alarms: map<int, Alarm>, allowed: bool, task: Task): map<int, Alarm>
  {
    if Schedulable(task) then Register(alarms, allowed, DueCode(task.id), DueAlarm(task)) else alarms
  }

  /** The registry after scheduleAllTasks over `tasks`, in list order. */
  function AllScheduled(alarms: map<int, Alarm>, allowed: bool, tasks: seq<Task>): map<int, Alarm>
  {
    if tasks == [] then alarms
    else WithDueAlarm(AllScheduled(alarms, allowed, tasks[..|tasks| - 1]), allowed, tasks[|tasks| - 1])
  }

  /** scheduleAllTasks registers a code exactly when it was registered before or it is the id hash
      of a task with a reminder and a due time (and exact alarms are allowed). */
  lemma {:induction false} AllScheduledKeys(alarms: map<int, Alarm>, allowed: bool, tasks: seq<Task>)
    ensures forall k :: k in AllScheduled(alarms, allowed, tasks) <==>
      (k in alarms || (allowed && exists i :: 0 <= i < |tasks| && Schedulable(tasks[i]) && DueCode(tasks[i].id) == k))
  {
    if tasks != [] {
      var p := tasks[..|tasks| - 1];
      AllScheduledKeys(alarms, allowed, p);
      assert forall i :: 0 <= i < |p| ==> p[i] == tasks[i];
    }
  }

  /** Every alarm scheduleAllTasks adds or changes is the due-time alarm of one of the tasks it
      was given. */
  lemma {:induction false} AllScheduledValues(alarms: map<int, Alarm>, allowed: bool, tasks: seq<Task>)
    ensures var r := AllScheduled(alarms, allowed, tasks);
      forall k :: k in r && (k !in alarms || r[k] != alarms[k]) ==>
        exists i :: 0 <= i < |tasks| && Schedulable(tasks[i]) && DueCode(tasks[i].id) == k && r[k] == DueAlarm(tasks[i])
  {
    if tasks != [] {
      var p := tasks[..|tasks| - 1];
      AllScheduledValues(alarms, allowed, p);
      assert forall i :: 0 <= i < |p| ==> p[i] == tasks[i];
    }
  }

  /** The app's AlarmScheduler over the system's alarm registry. `exactAlarmsAllowed` stands for
      the platform's answer: below Android 12 always true, from Android 12 the answer of
      canScheduleExactAlarms. */
  class AlarmScheduler {
    const exactAlarmsAllowed: bool
    var alarms: map<int, Alarm>

    constructor(exactAlarmsAllowed: bool)
      ensures this.exactAlarmsAllowed == exactAlarmsAllowed && alarms == map[]
    {
      this.exactAlarmsAllowed := exactAlarmsAllowed;
      alarms := map[];
    }

    /** scheduleAlarmAt. */
    method ScheduleAlarmAt(task: Task, timeInMillis: int, message: string, requestCode: int)
      modifies this
      ensures alarms == Register(old(alarms), exactAlarmsAllowed, requestCode, Alarm(timeInMillis, task.id, task.title, message))
    {
      if exactAlarmsAllowed {
        alarms := alarms[requestCode := Alarm(timeInMillis, task.id, task.title, message)];
      }
    }

    /** scheduleAlarm: an alarm at the due time under the id hash, for a task with a due time and
        a reminder; any other task is ignored. */
    method ScheduleAlarm(task: Task)
      modifies this
      ensures alarms == WithDueAlarm(old(alarms), exactAlarmsAllowed, task)
    {
      if task.dueTime.None? || !task.reminderSet {
        return;
      }
      var trigger := BaseTrigger(task.dueDate, task.dueTime.value);
      ScheduleAlarmAt(task, trigger, DueMessage(task.title), DueCode(task.id));
    }

    /** scheduleTaskReminder: an alarm `minutesBefore` minutes before the due time, under the hash
        of "<id>_<minutesBefore>"; only the due time is checked, not the reminder flag. */
    method ScheduleTaskReminder(task: Task, minutesBefore: int, message: string)
      modifies this
      ensures task.dueTime.None? ==> alarms == old(alarms)
      ensures task.dueTime.Some? ==> alarms == Register(old(alarms), exactAlarmsAllowed, ReminderCode(task.id, minutesBefore),
        Alarm(ReminderTrigger(task.dueDate, task.dueTime.value, minutesBefore), task.id, task.title, message))
    {
      if task.dueTime.None? {
        return;
      }
      var trigger := ReminderTrigger(task.dueDate, task.dueTime.value, minutesBefore);
      ScheduleAlarmAt(task, trigger, message, ReminderCode(task.id, minutesBefore));
    }

    /** cancelAlarm: removes the alarm under the id hash only; reminders set under other codes
        stay registered. */
    method CancelAlarm(task: Task)
      modifies this
      ensures alarms == old(alarms) - {DueCode(task.id)}
      ensures forall k :: k in old(alarms) && k != DueCode(task.id) ==> k in alarms && alarms[k] == old(alarms)[k]
    {
      alarms := alarms - {DueCode(task.id)};
    }

    /** scheduleAllTasks. */
    method ScheduleAllTasks(tasks: seq<Task>)
      modifies this
      ensures alarms == AllScheduled(old(alarms), exactAlarmsAllowed, tasks)
    {
      for i := 0 to |tasks|
        invariant alarms == AllScheduled(old(alarms), exactAlarmsAllowed, tasks[..i])
      {
        var task := tasks[i];
        if task.reminderSet && task.dueTime.Some? {
          ScheduleAlarm(task);
        }
        assert tasks[..i + 1][..i] == tasks[..i];
      }
      assert tasks[..|tasks|] == tasks;
    }
  }
}
