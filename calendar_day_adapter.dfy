/** `CalendarDayAdapter`: the month grid's cells, the selected cell and how each cell is drawn. */
module DayAdapter {

  import opened Wrappers
  import opened CivilTime
  import opened Text
  import opened TaskModel

  /** Two instants agree in YEAR, MONTH and DAY_OF_MONTH exactly when they fall on the same day. */
  lemma SameDateIffSameDay(a: int, b: int)
    ensures CivilOf(a) == CivilOf(b) <==> DayNumber(a) == DayNumber(b)
  {
    if DayNumber(a) == DayNumber(b) {
      SameDayNumberSameDate(CivilOf(a), CivilOf(b));
    }
  }

  /** A cell shows `date` when it has a date on the same year, month and day of month; a cell
      without a date never does. */
  predicate ShowsDate(day: CalendarDay, date: int)
  {
    match day.date
    case Some(d) => CivilOf(d) == CivilOf(date)
    case None => false
  }

  /** `indexOfFirst` of the matching cells, -1 when there is none. */
  function FirstMatch(days: seq<CalendarDay>, date: int): (r: int)
    ensures -1 <= r < |days|
    ensures r >= 0 ==> ShowsDate(days[r], date) && forall j :: 0 <= j < r ==> !ShowsDate(days[j], date)
    ensures r == -1 <==> forall j :: 0 <= j < |days| ==> !ShowsDate(days[j], date)
  {
    if |days| == 0 then -1
    else if ShowsDate(days[0], date) then 0
    else
      var r := FirstMatch(days[1..], date);
      assert forall j :: 1 <= j < |days| ==> days[j] == days[1..][j - 1];
      if r == -1 then -1 else r + 1
  }

  // ---------------------------------------------------------------------------------------------
  // Binding a cell

  /** The look of a cell, from `bind`. */
  datatype DayStyle = Blank | SelectedDay | TodayDay | CurrentMonthDay | OtherMonthDay

  /** What `bind` sets on a cell: the day text, the task indicator, whether a click is handled
      and the style. */
  datatype DayBinding = DayBinding(text: string, indicatorVisible: bool, clickable: bool, style: DayStyle)

  function Bind(day: CalendarDay, isSelected: bool): (b: DayBinding)
  {
    match day.date
    case None => DayBinding("", false, false, Blank)
    case Some(d) =>
      DayBinding(IntToString(CivilOf(d).day), day.hasTask, true,
        if isSelected then SelectedDay
        else if day.isToday then TodayDay
        else if day.isCurrentMonth then CurrentMonthDay
        else OtherMonthDay)
  }

  /** A dated cell shows its day of month and its indicator; the selected style wins over today,
      today over the current month, and the current month over the others; a cell without a
      date is blank whatever its flags. */
  lemma BindPrecedence(day: CalendarDay, isSelected: bool)
    ensures var b := Bind(day, isSelected);
      (b.style == Blank <==> day.date.None?) &&
      (b.style == SelectedDay <==> day.date.Some? && isSelected) &&
      (b.style == TodayDay <==> day.date.Some? && !isSelected && day.isToday) &&
      (b.style == CurrentMonthDay <==> day.date.Some? && !isSelected && !day.isToday && day.isCurrentMonth) &&
      (b.style == OtherMonthDay <==> day.date.Some? && !isSelected && !day.isToday && !day.isCurrentMonth) &&
      (day.date.None? ==> b.text == "" && !b.indicatorVisible && !b.clickable) &&
      (day.date.Some? ==> b.text == IntToString(CivilOf(day.date.value).day) &&
                          b.indicatorVisible == day.hasTask && b.clickable)
  {
  }

  // ---------------------------------------------------------------------------------------------
  // The adapter

  class CalendarDayAdapter {
    var days: seq<CalendarDay>
    var selectedDayPosition: int

    /** A new adapter has no selection. */
    constructor (days: seq<CalendarDay>)
      ensures this.days == days && selectedDayPosition == -1
    {
      this.days := days;
      selectedDayPosition := -1;
    }

    /** `updateDays`: the cells are replaced and the selected position is kept. */
    method UpdateDays(newDays: seq<CalendarDay>)
      modifies this
      ensures days == newDays && selectedDayPosition == old(selectedDayPosition)
    {
      days := newDays;
    }

    /** `selectDay`: the first cell showing the date becomes selected; with none the selection
        stays where it was. */
    method SelectDay(date: int)
      modifies this
      ensures days == old(days)
      ensures FirstMatch(days, date) != -1 ==> selectedDayPosition == FirstMatch(days, date)
      ensures FirstMatch(days, date) == -1 ==> selectedDayPosition == old(selectedDayPosition)
    {
      var newSelectedPosition := FirstMatch(days, date);
      if newSelectedPosition != -1 {
        selectedDayPosition := newSelectedPosition;
      }
    }

    /** `onBindViewHolder`: a cell is drawn selected exactly at the selected position. */
    function BindAt(position: int): (b: DayBinding)
      reads this
      requires 0 <= position < |days|
      ensures b.style == SelectedDay <==> position == selectedDayPosition && days[position].date.Some?
    {
      BindPrecedence(days[position], position == selectedDayPosition);
      Bind(days[position], position == selectedDayPosition)
    }
  }

  /** After `selectDay` of a date that some cell shows, exactly one cell is drawn selected: the
      first one showing it. */
  lemma SelectedCellUnique(adapter: CalendarDayAdapter, date: int, position: int)
    requires adapter.selectedDayPosition == FirstMatch(adapter.days, date) != -1
    requires 0 <= position < |adapter.days|
    ensures adapter.BindAt(position).style == SelectedDay <==> position == FirstMatch(adapter.days, date)
  {
  }
}
