/**
 * components/WeeklyHabitCard.tsx: the card of one habit in the weekly
 * view. Seven cells, Monday first; a day after today is disabled and
 * cannot be pressed; a done day shows a checkmark in the habit colour.
 */
module WeeklyCard {
  import opened Wrappers
  import opened Calendar
  import opened Schema
  import opened Ledger
  import opened Registry
  import opened WeeklyHeatmap
  import opened Cards
  import MonthlyCard

  /**
   * `getCellColor`: disabled wins over the status; a done cell takes the
   * habit colour, `||` falling back to the default for a missing or empty
   * one; every other cell is the checkbox background.
   */
  function GetCellColor(status: Cell, color: Option<string>, disabled: bool): (c: string)
    ensures disabled ==> c == DisabledCellColor
    ensures !disabled && status == Some(1) ==> c == if color.Some? && color.value != "" then color.value else DefaultDoneColor
    ensures !disabled && status != Some(1) ==> c == CheckBoxBackground
  {
    if disabled then DisabledCellColor
    else if status == Some(1) then (if color.Some? && color.value != "" then color.value else DefaultDoneColor)
    else CheckBoxBackground
  }

  /**
   * For a habit whose colour is the empty text the two cards disagree:
   * the monthly `??` keeps the empty colour, the weekly `||` paints the
   * default.
   */
  lemma EmptyColorDiffers()
    ensures MonthlyCard.GetColor(Some(1), Some("")) == ""
    ensures GetCellColor(Some(1), Some(""), false) == DefaultDoneColor
  {
  }

  /** `isFuture`: the date's day is after today's day. */
  predicate IsFuture(date: Day, today: Day) {
    date > today
  }

  /** The first position from i on dated today: `findIndex` from i. */
  function IndexFrom(entries: seq<DayEntry>, today: Day, i: nat): (r: int)
    requires i <= |entries|
    ensures r == -1 <==> forall j :: i <= j < |entries| ==> entries[j].date != today
    ensures r != -1 ==> (i <= r < |entries| && entries[r].date == today
                         && forall j :: i <= j < r ==> entries[j].date != today)
    decreases |entries| - i
  {
    if i == |entries| then -1
    else if entries[i].date == today then i
    else IndexFrom(entries, today, i + 1)
  }

  /** `todayIndex`: the first entry dated today, or -1 when there is none. */
  function TodayIndex(entries: seq<DayEntry>, today: Day): (r: int)
    ensures r == -1 <==> forall j :: 0 <= j < |entries| ==> entries[j].date != today
    ensures r != -1 ==> (0 <= r < |entries| && entries[r].date == today
                         && forall j :: 0 <= j < r ==> entries[j].date != today)
  {
    IndexFrom(entries, today, 0)
  }

  /** `onPressCell(idx)`: no call for a missing cell or a future date, else a toggle of that cell. */
  function OnPressCell(habitId: HabitId, entries: seq<DayEntry>, idx: int, today: Day): (call: Option<ToggleCall>)
    ensures call.None? <==> !(0 <= idx < |entries|) || IsFuture(entries[idx].date, today)
    ensures call.Some? ==> call.value == ToggleCall(habitId, entries[idx].date, entries[idx].status)
  {
    if !(0 <= idx < |entries|) || IsFuture(entries[idx].date, today) then None
    else Some(ToggleCall(habitId, entries[idx].date, entries[idx].status))
  }

  /** `e.status === 1 && <checkmark/>`. */
  predicate ShowsCheckmark(e: DayEntry) {
    e.status == Some(1)
  }

  /**
   * On the card of the current week (the weekly hook's result for the
   * Monday of today): today is at index weekday - 1, exactly the cells
   * after it are disabled, and every other cell can be pressed and toggles
   * its own date with its own status.
   */
  lemma CurrentWeekCard(listed: seq<Habit>, heatmap: map<HeatKey, HeatRow>, today: Day, k: int, i: int)
    requires WellKeyed(heatmap) && 0 <= k < |listed| && 0 <= i < 7
    ensures var e := WeeklyHeatmap.Weekly(listed, heatmap, WeekStart(today))[k].entries;
      && |e| == 7
      && TodayIndex(e, today) == Weekday(today) - 1
      && (IsFuture(e[i].date, today) <==> i > Weekday(today) - 1)
      && (OnPressCell(listed[k].id, e, i, today).Some? <==> i <= Weekday(today) - 1)
  {
    var w := WeekStart(today);
    var e := WeeklyHeatmap.Weekly(listed, heatmap, w)[k].entries;
    WeeklySpec(listed, heatmap, w, k);
    forall j | 0 <= j < 7
      ensures e[j].date == w + j
    {
      WeeklyShowsSlots(listed, heatmap, w, k, j);
    }
    assert e[Weekday(today) - 1].date == today;
  }

  /**
   * A weekly cell shows a checkmark exactly when the ledger's status of
   * its date is 1, for a cache that is well keyed, agrees with the ledger
   * and mirrors every 1 of it (what Store.Store.Valid keeps).
   */
  lemma CheckmarkIffDone(listed: seq<Habit>, rows: seq<Entry>, heatmap: map<HeatKey, HeatRow>, weekStart: Day, k: int, i: int)
    requires WellKeyed(heatmap) && Consistent(rows, heatmap) && OnesMirrored(rows, heatmap)
    requires Weekday(weekStart) == 1 && 0 <= k < |listed| && 0 <= i < 7
    ensures var e := WeeklyHeatmap.Weekly(listed, heatmap, weekStart)[k].entries;
      |e| == 7 && (ShowsCheckmark(e[i]) <==> LedgerStatus(rows, listed[k].id, e[i].date) == Some(1))
  {
    WeeklyShowsSlots(listed, heatmap, weekStart, k, i);
  }
}
