/** `WeeklyScheduleFragment`: the week shown in the grid and its navigation by whole weeks. */
module ScheduleScreen {

  import opened CivilTime
  import opened TaskModel
  import opened Repository
  import opened ScheduleView

  /** `initWeekView`: DAY_OF_WEEK set to SUNDAY with SUNDAY as the first day of the week; the time
      of day of `now` is kept. */
  function SundayOfWeek(now: int): (r: int)
    ensures Weekday(DayNumber(r)) == 0 && TimeOfDay(r) == TimeOfDay(now)
    ensures DayNumber(now) - 6 <= DayNumber(r) <= DayNumber(now)
  {
    AddDays(now, -Weekday(DayNumber(now)))
  }

  /** The grid shown for the initial week starts at the Sunday midnight of the current week, the
      same instant `setWeekStartDate` would pick for `now` itself. */
  lemma InitialGridStart(now: int)
    ensures WeekStart(SundayOfWeek(now)) == Midnight(SundayOfWeek(now)) == WeekStart(now)
  {
    var s := SundayOfWeek(now);
    WeekStartOfSunday(s);
    WeekStartUnique(now, Midnight(s));
  }

  /** Whole-week steps keep the week start on a Sunday at the same time of day. */
  lemma WeekStepKeepsSunday(start: int, k: int)
    requires Weekday(DayNumber(start)) == 0
    ensures Weekday(DayNumber(AddDays(start, 7 * k))) == 0
    ensures TimeOfDay(AddDays(start, 7 * k)) == TimeOfDay(start)
  {
    WeekdayShift(DayNumber(start), k);
  }

  /** A week forward then a week back, or back then forward, returns to the same instant. */
  lemma WeekNavigationRoundTrip(start: int)
    ensures AddDays(AddDays(start, 7), -7) == start
    ensures AddDays(AddDays(start, -7), 7) == start
  {
  }

  class WeeklyScheduleFragment {
    /** The week start, `Calendar.getInstance().time` until the week view is set up. */
    var currentWeekStart: int
    const view: WeeklyScheduleView

    constructor (now: int, view: WeeklyScheduleView)
      ensures currentWeekStart == now && this.view == view
    {
      currentWeekStart := now;
      this.view := view;
    }

    /** The date range text ends six days after the week start, on the Saturday. */
    function WeekRangeEnd(): (r: int)
      reads this
      ensures DayNumber(r) == DayNumber(currentWeekStart) + 6
      ensures Weekday(DayNumber(currentWeekStart)) == 0 ==> Weekday(DayNumber(r)) == 6
    {
      WeekdayShift(DayNumber(currentWeekStart), 6);
      AddDays(currentWeekStart, 6)
    }

    /** `updateWeekView`: the grid moves to the week start, then receives the repository's active
        tasks (`getAllTasks`). */
    method UpdateWeekView(repositoryTasks: seq<Task>)
      modifies view
      ensures view.startDate == WeekStart(currentWeekStart)
      ensures view.tasks == AllTasks(repositoryTasks) && view.Organized()
    {
      view.SetWeekStartDate(currentWeekStart);
      view.SetTasks(AllTasks(repositoryTasks));
    }

    /** `initWeekView`. */
    method InitWeekView(now: int, repositoryTasks: seq<Task>)
      modifies this, view
      ensures currentWeekStart == SundayOfWeek(now)
      ensures view.startDate == WeekStart(now) && view.tasks == AllTasks(repositoryTasks) && view.Organized()
    {
      currentWeekStart := SundayOfWeek(now);
      InitialGridStart(now);
      UpdateWeekView(repositoryTasks);
    }

    /** `navigateToPreviousWeek`: seven days back. */
    method NavigateToPreviousWeek(repositoryTasks: seq<Task>)
      modifies this, view
      ensures currentWeekStart == AddDays(old(currentWeekStart), -7)
      ensures view.startDate == WeekStart(currentWeekStart) && view.tasks == AllTasks(repositoryTasks)
      ensures view.Organized()
    {
      currentWeekStart := AddDays(currentWeekStart, -7);
      UpdateWeekView(repositoryTasks);
    }

    /** `navigateToNextWeek`: seven days on. */
    method NavigateToNextWeek(repositoryTasks: seq<Task>)
      modifies this, view
      ensures currentWeekStart == AddDays(old(currentWeekStart), 7)
      ensures view.startDate == WeekStart(currentWeekStart) && view.tasks == AllTasks(repositoryTasks)
      ensures view.Organized()
    {
      currentWeekStart := AddDays(currentWeekStart, 7);
      UpdateWeekView(repositoryTasks);
    }
  }
}
