/**
 * hooks/useWeeklyHeatmap.ts: the active habits LEFT JOINed with their cache
 * row for the current week, and the mapping of each joined row to seven
 * dated cells. A missing row shows as seven nulls, never as zeros.
 */
module WeeklyHeatmap {
  import opened Wrappers
  import opened Calendar
  import opened Schema
  import opened Ledger
  import opened Registry

  /** A joined row: the habit's columns and `hh.week_start`, `hh.statuses`, both NULL without a match. */
  datatype WeekRow = WeekRow(habit: Habit, weekStart: Option<Day>, statuses: Option<seq<Cell>>)

  /** `{ date, status }` of one cell. */
  datatype DayEntry = DayEntry(date: Day, status: Cell)

  /** The habit with the week it shows and its seven cells. */
  datatype WeeklyResult = WeeklyResult(habit: Habit, weekStart: Day, entries: seq<DayEntry>)

  /** The LEFT JOIN on `hh.habit_id = h.id AND hh.week_start = ?`: one row per listed habit. */
  function JoinWeek(listed: seq<Habit>, heatmap: map<HeatKey, HeatRow>, weekStart: Day): (rows: seq<WeekRow>)
    ensures |rows| == |listed|
    ensures forall k :: 0 <= k < |rows| ==> rows[k].habit == listed[k]
    ensures forall k :: 0 <= k < |rows| ==>
      var key := HeatKey(listed[k].id, weekStart);
      if key in heatmap then rows[k].weekStart == Some(weekStart) && rows[k].statuses == Some(heatmap[key].statuses)
      else rows[k].weekStart.None? && rows[k].statuses.None?
  {
    seq(|listed|, k requires 0 <= k < |listed| =>
      var key := HeatKey(listed[k].id, weekStart);
      if key in heatmap then WeekRow(listed[k], Some(weekStart), Some(heatmap[key].statuses))
      else WeekRow(listed[k], None, None))
  }

  /** `statuses.map((status, i) => ({ date: startDate + i days, status }))`. */
  function Dated(start: Day, statuses: seq<Cell>): (entries: seq<DayEntry>)
    ensures |entries| == |statuses|
    ensures forall i :: 0 <= i < |entries| ==> entries[i] == DayEntry(start + i, statuses[i])
  {
    seq(|statuses|, i requires 0 <= i < |statuses| => DayEntry(start + i, statuses[i]))
  }

  /**
   * The row mapping: the parsed statuses when the row matched, else seven
   * nulls; the start date is the row's week start, or the current one.
   */
  function MapRow(row: WeekRow, current: Day): (r: WeeklyResult)
    ensures r.habit == row.habit
    ensures row.weekStart.Some? && row.statuses.Some? ==> r.entries == Dated(r.weekStart, row.statuses.value)
    ensures row.weekStart.None? || row.statuses.None? ==> |r.entries| == 7 && forall i :: 0 <= i < 7 ==> r.entries[i].status.None?
    ensures r.weekStart == row.weekStart.GetOr(current)
  {
    var statuses := if row.weekStart.Some? && row.statuses.Some? then row.statuses.value else NullWeek;
    var start := row.weekStart.GetOr(current);
    WeeklyResult(row.habit, start, Dated(start, statuses))
  }

  /** The hook's result: the listing joined with the current week's cache rows, mapped row by row. */
  function Weekly(listed: seq<Habit>, heatmap: map<HeatKey, HeatRow>, weekStart: Day): (r: seq<WeeklyResult>)
    ensures |r| == |listed|
  {
    var rows := JoinWeek(listed, heatmap, weekStart);
    seq(|rows|, k requires 0 <= k < |rows| => MapRow(rows[k], weekStart))
  }

  /**
   * One result per listed habit, in listing order, showing the current
   * week: cell i is dated weekStart + i and carries stored slot i, or null
   * when the habit has no row for the week.
   */
  lemma WeeklySpec(listed: seq<Habit>, heatmap: map<HeatKey, HeatRow>, weekStart: Day, k: int)
    requires 0 <= k < |listed|
    ensures var r := Weekly(listed, heatmap, weekStart)[k];
      var key := HeatKey(listed[k].id, weekStart);
      && r.habit == listed[k]
      && r.weekStart == weekStart
      && |r.entries| == (if key in heatmap then |heatmap[key].statuses| else 7)
      && forall i :: 0 <= i < |r.entries| ==>
           r.entries[i].date == weekStart + i
           && r.entries[i].status == (if key in heatmap then heatmap[key].statuses[i] else None)
  {
    var row := JoinWeek(listed, heatmap, weekStart)[k];
    var r := Weekly(listed, heatmap, weekStart)[k];
    assert r == MapRow(row, weekStart);
  }

  /**
   * With a well-keyed cache and a Monday week start, the seven cells are
   * Monday to Sunday and each shows the cache slot of its own date.
   */
  lemma WeeklyShowsSlots(listed: seq<Habit>, heatmap: map<HeatKey, HeatRow>, weekStart: Day, k: int, i: int)
    requires WellKeyed(heatmap) && Weekday(weekStart) == 1
    requires 0 <= k < |listed| && 0 <= i < 7
    ensures var r := Weekly(listed, heatmap, weekStart)[k];
      && |r.entries| == 7
      && Weekday(r.entries[i].date) == i + 1
      && r.entries[i].status == Slot(heatmap, listed[k].id, r.entries[i].date)
  {
    WeeklySpec(listed, heatmap, weekStart, k);
    SlotOfRow(heatmap, HeatKey(listed[k].id, weekStart), i);
    MondayOffset(weekStart, i, weekStart + i);
  }

  /** A non-null weekly cell equals the ledger status of its date. */
  lemma WeeklyShowsLedger(listed: seq<Habit>, rows: seq<Entry>, heatmap: map<HeatKey, HeatRow>, weekStart: Day, k: int, i: int)
    requires WellKeyed(heatmap) && Consistent(rows, heatmap) && Weekday(weekStart) == 1
    requires 0 <= k < |listed| && 0 <= i < 7
    ensures var e := Weekly(listed, heatmap, weekStart)[k].entries;
      |e| == 7 && (e[i].status.Some? ==> e[i].status == LedgerStatus(rows, listed[k].id, e[i].date))
  {
    WeeklyShowsSlots(listed, heatmap, weekStart, k, i);
  }
}
