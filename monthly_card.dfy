/**
 * components/MonthlyHabitCard.tsx: the card of one habit in the monthly
 * view. It lays the habit's weeks out as a grid of rectangles, blanks the
 * days outside the month, and finds the status of a date for the
 * "today" button.
 */
module MonthlyCard {
  import opened Wrappers
  import opened Calendar
  import opened Schema
  import opened Ledger
  import opened Registry
  import opened MonthlyHeatmap
  import opened Cards

  const CellSize: int := 14
  const Gap: int := 4
  const Stride: int := CellSize + Gap

  /** The colour painted for an out-of-month cell. */
  const Transparent: string := "transparent"

  function Min(a: int, b: int): int {
    if a <= b then a else b
  }

  /**
   * `getColor`: a done cell takes the habit colour, `??` falling back to
   * the default only when there is none; 0 and null look the same.
   */
  function GetColor(val: Cell, color: Option<string>): (c: string)
    ensures val == Some(1) ==> c == color.GetOr(DefaultDoneColor)
    ensures val != Some(1) ==> c == CellColor
  {
    if val == Some(1) then color.GetOr(DefaultDoneColor) else CellColor
  }

  /** `week[d] ?? null`: a slot past the end of the stored week reads as null. */
  function SlotOrNull(week: seq<Cell>, d: int): (c: Cell)
    ensures 0 <= d < |week| ==> c == week[d]
    ensures !(0 <= d < |week|) ==> c.None?
  {
    if 0 <= d < |week| then week[d] else None
  }

  /** One rectangle of the grid, with the date of its cell. */
  datatype Rect = Rect(x: int, y: int, status: Cell, opacity: int, color: string, date: Day)

  /**
   * The month the card shows: the month of the middle week start. For the
   * weeks of a monthly view this is the viewed month (ReferenceMonthIsViewedMonth).
   */
  function ReferenceMonth(starts: seq<Day>): (m: int)
    requires |starts| > 0
    ensures m == FromDay(starts[|starts| / 2]).month
  {
    FromDay(starts[|starts| / 2]).month
  }

  /** The rectangle of day d of week w, when the card shows month `month`. */
  function CellRect(entries: seq<seq<Cell>>, starts: seq<Day>, color: Option<string>, month: int, w: int, d: int): Rect
    requires 0 <= w < |entries| && w < |starts| && 0 <= d < 7
  {
    var date := starts[w] + d;
    var outside := FromDay(date).month != month;
    var status := if outside then None else SlotOrNull(entries[w], d);
    Rect(d * Stride, w * Stride, status, if outside then 0 else 1,
         if outside then Transparent else GetColor(status, color), date)
  }

  /**
   * Day d of week w sits at column d and row w of the grid. Outside the
   * shown month it is invisible and null whatever is stored; inside, it
   * carries stored slot d of the week (null past the end of it) in its
   * status colour.
   */
  lemma CellRectSpec(entries: seq<seq<Cell>>, starts: seq<Day>, color: Option<string>, month: int, w: int, d: int)
    requires 0 <= w < |entries| && w < |starts| && 0 <= d < 7
    ensures var r := CellRect(entries, starts, color, month, w, d);
      && r.x == d * Stride && r.y == w * Stride && r.date == starts[w] + d
      && (FromDay(r.date).month != month ==> r.status.None? && r.opacity == 0 && r.color == Transparent)
      && (FromDay(r.date).month == month ==>
            && r.opacity == 1
            && r.status == (if d < |entries[w]| then entries[w][d] else None)
            && r.color == GetColor(r.status, color))
  {
  }

  /** The first m weeks of the grid, seven rectangles each, in `rects`. */
  predicate Grid(rects: seq<Rect>, entries: seq<seq<Cell>>, starts: seq<Day>, color: Option<string>, month: int, m: int)
    requires 0 <= m <= |entries| && m <= |starts|
  {
    && |rects| == 7 * m
    && forall w, d :: 0 <= w < m && 0 <= d < 7 ==> rects[7 * w + d] == CellRect(entries, starts, color, month, w, d)
  }

  lemma GridAppend(rects: seq<Rect>, row: seq<Rect>, entries: seq<seq<Cell>>, starts: seq<Day>, color: Option<string>, month: int, m: int)
    requires 0 <= m < |entries| && m < |starts|
    requires Grid(rects, entries, starts, color, month, m)
    requires |row| == 7 && forall d :: 0 <= d < 7 ==> row[d] == CellRect(entries, starts, color, month, m, d)
    ensures Grid(rects + row, entries, starts, color, month, m + 1)
  {
    var r := rects + row;
    forall w, d | 0 <= w < m + 1 && 0 <= d < 7
      ensures r[7 * w + d] == CellRect(entries, starts, color, month, w, d)
    {
      if w == m {
        assert r[7 * w + d] == row[d];
      } else {
        assert r[7 * w + d] == rects[7 * w + d];
      }
    }
  }

  /** The inner `for (let d = 0; d < 7; d++)` loop: the seven rectangles of week w. */
  method WeekRects(entries: seq<seq<Cell>>, starts: seq<Day>, color: Option<string>, currentMonth: int, w: int)
    returns (row: seq<Rect>)
    requires 0 <= w < |entries| && w < |starts|
    ensures |row| == 7 && forall d :: 0 <= d < 7 ==> row[d] == CellRect(entries, starts, color, currentMonth, w, d)
  {
    var week := entries[w];
    var weekStart := starts[w];
    row := [];
    for d := 0 to 7
      invariant |row| == d
      invariant forall e :: 0 <= e < d ==> row[e] == CellRect(entries, starts, color, currentMonth, w, e)
    {
      var cellDate := weekStart + d;
      var isOutside := FromDay(cellDate).month != currentMonth;
      var status := if isOutside then None else SlotOrNull(week, d);
      var cell := Rect(d * Stride, w * Stride, status, if isOutside then 0 else 1,
                       if isOutside then Transparent else GetColor(status, color), cellDate);
      assert cell == CellRect(entries, starts, color, currentMonth, w, d);
      row := row + [cell];
    }
  }

  /**
   * The `rects` memo: no rectangles without week starts; otherwise seven
   * per week that has both a stored row of slots and a start date, week by
   * week and day by day.
   */
  method BuildRects(entries: seq<seq<Cell>>, starts: seq<Day>, color: Option<string>) returns (rects: seq<Rect>)
    ensures |rects| == 7 * Min(|entries|, |starts|)
    ensures |starts| > 0 ==> forall w, d :: 0 <= w < Min(|entries|, |starts|) && 0 <= d < 7 ==>
      rects[7 * w + d] == CellRect(entries, starts, color, ReferenceMonth(starts), w, d)
  {
    rects := [];
    if |starts| == 0 {
      return;
    }
    var middleIndex := |starts| / 2;
    var currentMonth := FromDay(starts[middleIndex]).month;
    for w := 0 to |entries|
      invariant Grid(rects, entries, starts, color, currentMonth, Min(w, |starts|))
    {
      if w < |starts| {
        var row := WeekRects(entries, starts, color, currentMonth, w);
        GridAppend(rects, row, entries, starts, color, currentMonth, w);
        rects := rects + row;
      }
    }
  }

  // ---------------------------------------------------------------------
  // Looking a date up

  /** The week starting at `start` holds `date`: `date >= start` and `date <= start + 6 days`. */
  predicate Covers(start: Day, date: Day) {
    start <= date <= start + 6
  }

  /** The first position from i on whose week holds the date. */
  function FirstCovering(starts: seq<Day>, date: Day, i: nat): (r: Option<nat>)
    requires i <= |starts|
    ensures r.Some? ==> (i <= r.value < |starts| && Covers(starts[r.value], date)
                         && forall j :: i <= j < r.value ==> !Covers(starts[j], date))
    ensures r.None? ==> forall j :: i <= j < |starts| ==> !Covers(starts[j], date)
    decreases |starts| - i
  {
    if i == |starts| then None
    else if Covers(starts[i], date) then Some(i)
    else FirstCovering(starts, date, i + 1)
  }

  /** The week index `findWeekIndexForDate` answers. */
  function WeekIndexFor(starts: seq<Day>, date: Day): (k: int)
    ensures 0 <= k && (|starts| > 0 ==> k < |starts|)
    ensures (exists i :: 0 <= i < |starts| && Covers(starts[i], date)) ==>
      Covers(starts[k], date) && forall j :: 0 <= j < k ==> !Covers(starts[j], date)
    ensures (forall i :: 0 <= i < |starts| ==> !Covers(starts[i], date)) ==> k == if |starts| > 0 then |starts| - 1 else 0
  {
    match FirstCovering(starts, date, 0)
    case Some(i) => i
    case None => if |starts| > 0 then |starts| - 1 else 0
  }

  /**
   * `findWeekIndexForDate`: the first week that holds the date, or
   * `Math.max(0, n - 1)`, the last week, when none does.
   */
  method FindWeekIndexForDate(starts: seq<Day>, date: Day) returns (k: int)
    ensures k == WeekIndexFor(starts, date)
  {
    for i := 0 to |starts|
      invariant forall j :: 0 <= j < i ==> !Covers(starts[j], date)
    {
      if Covers(starts[i], date) {
        return i;
      }
    }
    k := if |starts| - 1 > 0 then |starts| - 1 else 0;
  }

  /**
   * `getStatusForDate`: null without weeks; otherwise slot `weekday - 1`
   * of the found week, null when that week or slot is missing.
   */
  function GetStatusForDate(entries: seq<seq<Cell>>, starts: seq<Day>, date: Day): (c: Cell)
    ensures |starts| == 0 || |entries| == 0 ==> c.None?
  {
    if |starts| == 0 || |entries| == 0 then None
    else
      var k := WeekIndexFor(starts, date);
      var week := if k < |entries| then entries[k] else [];
      SlotOrNull(week, Weekday(date) - 1)
  }

  /** `onPressToday`: toggle today with the status `getStatusForDate` reads for it. */
  function OnPressToday(habitId: HabitId, entries: seq<seq<Cell>>, starts: seq<Day>, today: Day): (call: ToggleCall)
    ensures call.habitId == habitId && call.date == today
  {
    ToggleCall(habitId, today, GetStatusForDate(entries, starts, today))
  }

  /** Week starts seven days apart. */
  predicate Consecutive(starts: seq<Day>) {
    forall i :: 0 < i < |starts| ==> starts[i] == starts[i - 1] + 7
  }

  lemma {:induction false} ConsecutiveApart(starts: seq<Day>, j: int, i: int)
    requires Consecutive(starts) && 0 <= j <= i < |starts|
    ensures starts[i] == starts[j] + 7 * (i - j)
    decreases i - j
  {
    if j < i {
      ConsecutiveApart(starts, j, i - 1);
    }
  }

  /**
   * On Monday week starts seven days apart, a date in week i is found in
   * week i, and its status is the slot of its weekday there: the same
   * value the grid's cell for that date carries when the date is inside
   * the shown month.
   */
  lemma StatusOfCoveredDate(entries: seq<seq<Cell>>, starts: seq<Day>, color: Option<string>, date: Day, i: int)
    requires Consecutive(starts) && forall j :: 0 <= j < |starts| ==> Weekday(starts[j]) == 1
    requires 0 <= i < |starts| && i < |entries| && Covers(starts[i], date)
    ensures WeekIndexFor(starts, date) == i
    ensures GetStatusForDate(entries, starts, date) == SlotOrNull(entries[i], date - starts[i])
    ensures FromDay(date).month == ReferenceMonth(starts) ==>
      CellRect(entries, starts, color, ReferenceMonth(starts), i, date - starts[i]).status == GetStatusForDate(entries, starts, date)
  {
    var k := WeekIndexFor(starts, date);
    if k < i {
      ConsecutiveApart(starts, k, i);
    }
    MondayOffset(starts[i], date - starts[i], date);
  }

  /**
   * A month spans at least four Mondays' weeks, so the middle week start
   * falls strictly inside the month: the card's reference month is the
   * month being viewed.
   */
  lemma ReferenceMonthIsViewedMonth(now: Day, weeks: seq<Day>)
    requires |weeks| >= 1 && weeks[0] == WeekStart(MonthStart(now)) && weeks[|weeks| - 1] == WeekStart(MonthEnd(now))
    requires Consecutive(weeks)
    ensures |weeks| >= 4
    ensures ReferenceMonth(weeks) == FromDay(now).month
  {
    var n := |weeks|;
    var mid := n / 2;
    MonthEndIsLast(now);
    ConsecutiveApart(weeks, 0, n - 1);
    assert n >= 4;
    ConsecutiveApart(weeks, 0, mid);
    ConsecutiveApart(weeks, mid, n - 1);
    assert MonthStart(now) <= weeks[mid] <= MonthEnd(now);
    InMonth(now, weeks[mid]);
  }

  /**
   * End to end with the monthly hook: cell (w, d) of a habit's grid is
   * invisible and null exactly when its date lies outside the viewed
   * month; inside, it carries the cache slot of its date.
   */
  lemma MonthlyCellMasking(habits: seq<Habit>, heatmap: map<HeatKey, HeatRow>, now: Day, weeks: seq<Day>,
                           result: seq<MonthlyResult>, color: Option<string>, k: int, w: int, d: int)
    requires WellKeyed(heatmap)
    requires |weeks| >= 1 && weeks[0] == WeekStart(MonthStart(now)) && weeks[|weeks| - 1] == WeekStart(MonthEnd(now))
    requires forall i :: 0 <= i < |weeks| ==> Weekday(weeks[i]) == 1
    requires forall i :: 0 < i < |weeks| ==> weeks[i] == weeks[i - 1] + 7
    requires ShowsMonth(result, Listing(habits), heatmap, weeks)
    requires 0 <= k < |result| && 0 <= w < |weeks| && 0 <= d < 7
    ensures |result[k].entries| == |weeks|
    ensures var r := CellRect(result[k].entries, weeks, color, ReferenceMonth(weeks), w, d);
      && r.date == weeks[w] + d
      && (r.opacity == 0 <==> FromDay(weeks[w] + d).month != FromDay(now).month)
      && (FromDay(weeks[w] + d).month != FromDay(now).month ==> r.status.None? && r.color == Transparent)
      && (FromDay(weeks[w] + d).month == FromDay(now).month ==>
            r.status == Slot(heatmap, result[k].habit.id, weeks[w] + d) && r.color == GetColor(r.status, color))
  {
    ReferenceMonthIsViewedMonth(now, weeks);
    var entries := result[k].entries;
    CellRectSpec(entries, weeks, color, ReferenceMonth(weeks), w, d);
    MonthlyShowsSlots(heatmap, result[k].habit, entries, weeks, w, d);
  }

  /**
   * A date no week covers falls back to the last week, when there is one
   * with entries, and reads that week's slot of its weekday.
   */
  lemma StatusOfUncoveredDate(entries: seq<seq<Cell>>, starts: seq<Day>, date: Day)
    requires |starts| > 0 && |entries| > 0
    requires forall i :: 0 <= i < |starts| ==> !Covers(starts[i], date)
    ensures WeekIndexFor(starts, date) == |starts| - 1
    ensures GetStatusForDate(entries, starts, date) ==
      SlotOrNull(if |starts| - 1 < |entries| then entries[|starts| - 1] else [], Weekday(date) - 1)
  {
  }

  /**
   * End to end with the monthly hook: for a day of the month, the card's
   * status of that date is the cache slot of the day, so the "today"
   * button toggles from the value the cache holds.
   */
  lemma MonthlyStatusIsSlot(habits: seq<Habit>, heatmap: map<HeatKey, HeatRow>, now: Day, weeks: seq<Day>,
                            result: seq<MonthlyResult>, k: int, date: Day)
    requires WellKeyed(heatmap)
    requires |weeks| >= 1 && forall i :: 0 <= i < |weeks| ==> Weekday(weeks[i]) == 1
    requires forall i :: 0 < i < |weeks| ==> weeks[i] == weeks[i - 1] + 7
    requires forall n :: MonthStart(now) <= n <= MonthEnd(now) ==> WeekStart(n) in weeks
    requires ShowsMonth(result, Listing(habits), heatmap, weeks)
    requires 0 <= k < |result| && MonthStart(now) <= date <= MonthEnd(now)
    ensures GetStatusForDate(result[k].entries, weeks, date) == Slot(heatmap, result[k].habit.id, date)
    ensures OnPressToday(result[k].habit.id, result[k].entries, weeks, date).status == Slot(heatmap, result[k].habit.id, date)
  {
    var i :| 0 <= i < |weeks| && weeks[i] == WeekStart(date);
    var entries := result[k].entries;
    StatusOfCoveredDate(entries, weeks, None, date, i);
    MondayOffset(weeks[i], date - weeks[i], date);
    MonthlyShowsSlots(heatmap, result[k].habit, entries, weeks, i, date - weeks[i]);
  }
}
