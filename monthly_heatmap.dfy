/**
 * hooks/useMonthlyHeatmap.ts: the Mondays from the week of the month's
 * first day to the week of its last day, the LEFT JOIN of the active habits
 * with their cache rows in that range, the grouping of the joined rows by
 * habit, and the final per-habit grid with seven nulls for a week without
 * a row.
 */
module MonthlyHeatmap {
  import opened Wrappers
  import opened Calendar
  import opened Schema
  import opened Ledger
  import opened Registry

  // ---------------------------------------------------------------------
  // The week list

  /** The number of Mondays the `while (cursor <= end)` loop visits from first to last. */
  function WeekCount(first: Day, last: Day): nat {
    if first <= last then (last - first) / 7 + 1 else 0
  }

  /** `weeks.push(cursor); cursor = cursor.plus({ weeks: 1 })` while `cursor <= end`. */
  method WeekList(first: Day, last: Day) returns (weeks: seq<Day>)
    ensures |weeks| == WeekCount(first, last)
    ensures forall i :: 0 <= i < |weeks| ==> weeks[i] == first + 7 * i
  {
    weeks := [];
    var cursor := first;
    while cursor <= last
      invariant cursor == first + 7 * |weeks|
      invariant forall i :: 0 <= i < |weeks| ==> weeks[i] == first + 7 * i
      invariant |weeks| == 0 || first + 7 * (|weeks| - 1) <= last
      decreases last - cursor
    {
      weeks := weeks + [cursor];
      cursor := cursor + 7;
    }
    if first <= last {
      assert 7 * (|weeks| - 1) <= last - first < 7 * |weeks|;
    }
  }

  lemma WeekStartMonotone(a: Day, b: Day)
    requires a <= b
    ensures WeekStart(a) <= WeekStart(b)
  {
    var p, q := WeekStart(a), WeekStart(b);
    assert p % 7 == 0 && q % 7 == 0;
    assert p == 7 * (p / 7) && q == 7 * (q / 7);
    assert p < q + 7;
  }

  /** A Monday is seven times its week number. */
  lemma MondayMultiple(w: Day)
    requires Weekday(w) == 1
    ensures w == 7 * (w / 7)
  {
  }

  /**
   * The week list from the Monday of s to the Monday of e (s <= e) starts
   * and ends at those Mondays, holds only Mondays 7 days apart, and holds
   * the Monday of every day from s to e.
   */
  lemma WeeksCover(s: Day, e: Day, weeks: seq<Day>)
    requires s <= e
    requires |weeks| == WeekCount(WeekStart(s), WeekStart(e))
    requires forall i :: 0 <= i < |weeks| ==> weeks[i] == WeekStart(s) + 7 * i
    ensures |weeks| >= 1
    ensures weeks[0] == WeekStart(s) && weeks[|weeks| - 1] == WeekStart(e)
    ensures forall i :: 0 <= i < |weeks| ==> Weekday(weeks[i]) == 1
    ensures forall i :: 0 < i < |weeks| ==> weeks[i] == weeks[i - 1] + 7
    ensures forall n :: s <= n <= e ==> WeekStart(n) in weeks
  {
    var first, last := WeekStart(s), WeekStart(e);
    WeekStartMonotone(s, e);
    MondayMultiple(first);
    MondayMultiple(last);
    var a, b := first / 7, last / 7;
    assert last - first == 7 * (b - a);
    assert |weeks| == b - a + 1;
    forall i | 0 <= i < |weeks|
      ensures Weekday(weeks[i]) == 1
    {
      assert weeks[i] == 7 * (a + i);
    }
    forall n | s <= n <= e
      ensures WeekStart(n) in weeks
    {
      var w := WeekStart(n);
      WeekStartMonotone(s, n);
      WeekStartMonotone(n, e);
      MondayMultiple(w);
      var i := w / 7 - a;
      assert 0 <= i < |weeks|;
      assert weeks[i] == w;
    }
  }

  /**
   * The month's week list starts at the Monday of the month's first day,
   * ends at the Monday of its last day, holds only Mondays 7 days apart,
   * and holds the Monday of every day of the month.
   */
  lemma MonthWeeks(now: Day, weeks: seq<Day>)
    requires |weeks| == WeekCount(WeekStart(MonthStart(now)), WeekStart(MonthEnd(now)))
    requires forall i :: 0 <= i < |weeks| ==> weeks[i] == WeekStart(MonthStart(now)) + 7 * i
    ensures |weeks| >= 1
    ensures weeks[0] == WeekStart(MonthStart(now)) && weeks[|weeks| - 1] == WeekStart(MonthEnd(now))
    ensures forall i :: 0 <= i < |weeks| ==> Weekday(weeks[i]) == 1
    ensures forall i :: 0 < i < |weeks| ==> weeks[i] == weeks[i - 1] + 7
    ensures forall n :: MonthStart(now) <= n <= MonthEnd(now) ==> WeekStart(n) in weeks
  {
    WeeksCover(MonthStart(now), MonthEnd(now), weeks);
  }

  // ---------------------------------------------------------------------
  // The joined rows

  /** A joined row: the habit's columns, and `hh.week_start`, `hh.statuses` (NULL without a match). */
  datatype MonthRow = MonthRow(habit: Habit, weekStart: Option<Day>, statuses: Option<seq<Cell>>)

  /** The cache rows of habit h with `week_start` from first up to d - 1, by `week_start` ascending. */
  function RangeRows(h: Habit, heatmap: map<HeatKey, HeatRow>, first: Day, d: int): (rows: seq<MonthRow>)
    ensures forall j :: 0 <= j < |rows| ==> rows[j].habit == h && rows[j].weekStart.Some? && rows[j].statuses.Some?
    decreases d - first
  {
    if d <= first then []
    else
      var key := HeatKey(h.id, d - 1);
      RangeRows(h, heatmap, first, d - 1)
        + (if key in heatmap then [MonthRow(h, Some(d - 1), Some(heatmap[key].statuses))] else [])
  }

  /** Every row is a cache row of h with week start from first up to d - 1, carrying its stored statuses. */
  predicate InRange(rows: seq<MonthRow>, h: Habit, heatmap: map<HeatKey, HeatRow>, first: Day, d: int)
  {
    forall j :: 0 <= j < |rows| ==>
      && rows[j].weekStart.Some? && rows[j].statuses.Some?
      && first <= rows[j].weekStart.value < d
      && HeatKey(h.id, rows[j].weekStart.value) in heatmap
      && rows[j].statuses.value == heatmap[HeatKey(h.id, rows[j].weekStart.value)].statuses
  }

  /** Week starts strictly ascend along the rows. */
  predicate Ascending(rows: seq<MonthRow>)
  {
    forall i, j :: 0 <= i < j < |rows| && rows[i].weekStart.Some? && rows[j].weekStart.Some? ==>
      rows[i].weekStart.value < rows[j].weekStart.value
  }

  /**
   * The rows are the habit's cache rows in the range, each with its stored
   * statuses, in strictly ascending `week_start` order.
   */
  lemma {:induction false} RangeRowsSpec(h: Habit, heatmap: map<HeatKey, HeatRow>, first: Day, d: int)
    ensures InRange(RangeRows(h, heatmap, first, d), h, heatmap, first, d)
    ensures Ascending(RangeRows(h, heatmap, first, d))
    decreases d - first
  {
    if d > first {
      RangeRowsSpec(h, heatmap, first, d - 1);
      var prev := RangeRows(h, heatmap, first, d - 1);
      var key := HeatKey(h.id, d - 1);
      if key in heatmap {
        var row := MonthRow(h, Some(d - 1), Some(heatmap[key].statuses));
        assert RangeRows(h, heatmap, first, d) == prev + [row];
        RangeSnoc(prev, row, h, heatmap, first, d);
      } else {
        assert RangeRows(h, heatmap, first, d) == prev;
        RangeWiden(prev, h, heatmap, first, d);
      }
    }
  }

  lemma RangeWiden(rows: seq<MonthRow>, h: Habit, heatmap: map<HeatKey, HeatRow>, first: Day, d: int)
    requires InRange(rows, h, heatmap, first, d - 1)
    ensures InRange(rows, h, heatmap, first, d)
  {
  }

  lemma RangeSnoc(rows: seq<MonthRow>, row: MonthRow, h: Habit, heatmap: map<HeatKey, HeatRow>, first: Day, d: int)
    requires InRange(rows, h, heatmap, first, d - 1) && Ascending(rows)
    requires first <= d - 1 && row.weekStart == Some(d - 1) && HeatKey(h.id, d - 1) in heatmap
    requires row.statuses == Some(heatmap[HeatKey(h.id, d - 1)].statuses)
    ensures InRange(rows + [row], h, heatmap, first, d)
    ensures Ascending(rows + [row])
  {
    var r := rows + [row];
    assert forall j :: 0 <= j < |rows| ==> r[j] == rows[j];
    assert r[|rows|] == row;
  }

  /** What the LEFT JOIN gives one habit: its rows in range, or a single row of NULLs. */
  function Block(h: Habit, heatmap: map<HeatKey, HeatRow>, first: Day, last: Day): seq<MonthRow> {
    var rows := RangeRows(h, heatmap, first, last + 1);
    if rows == [] then [MonthRow(h, None, None)] else rows
  }

  /** The query: `hh.week_start BETWEEN first AND last`, habit by habit in listing order. */
  function JoinMonth(listed: seq<Habit>, heatmap: map<HeatKey, HeatRow>, first: Day, last: Day): seq<MonthRow>
    decreases |listed|
  {
    if listed == [] then []
    else JoinMonth(listed[..|listed| - 1], heatmap, first, last) + Block(listed[|listed| - 1], heatmap, first, last)
  }

  // ---------------------------------------------------------------------
  // Grouping by habit

  /**
   * `habitMap` as it fills: the ids in insertion order, the habit columns
   * of each id, and each id's `entriesMap` from week start to statuses.
   */
  datatype Groups = Groups(order: seq<HabitId>, info: map<HabitId, Habit>, entriesMap: map<HabitId, map<Day, seq<Cell>>>)

  const NoGroups: Groups := Groups([], map[], map[])

  /** `if (!habitMap.has(row.id)) habitMap.set(row.id, { ..., entriesMap: {} })`. */
  function Register(g: Groups, h: Habit): Groups {
    if h.id in g.info then g
    else Groups(g.order + [h.id], g.info[h.id := h], g.entriesMap[h.id := map[]])
  }

  /** `if (row.week_start && row.statuses) habit.entriesMap[row.week_start] = statuses`. */
  function Put(g: Groups, row: MonthRow): Groups {
    if row.weekStart.Some? && row.statuses.Some? then
      var id := row.habit.id;
      var current: map<Day, seq<Cell>> := if id in g.entriesMap then g.entriesMap[id] else map[];
      g.(entriesMap := g.entriesMap[id := current[row.weekStart.value := row.statuses.value]])
    else g
  }

  function Step(g: Groups, row: MonthRow): Groups {
    Put(Register(g, row.habit), row)
  }

  /** The grouping loop over rows, from state g. */
  function Fold(g: Groups, rows: seq<MonthRow>): Groups
    decreases |rows|
  {
    if rows == [] then g else Step(Fold(g, rows[..|rows| - 1]), rows[|rows| - 1])
  }

  /** The `for (const row of rows)` loop. */
  method GroupByHabit(rows: seq<MonthRow>) returns (g: Groups)
    ensures g == Fold(NoGroups, rows)
  {
    var order: seq<HabitId> := [];
    var info: map<HabitId, Habit> := map[];
    var entriesMap: map<HabitId, map<Day, seq<Cell>>> := map[];
    for i := 0 to |rows|
      invariant Groups(order, info, entriesMap) == Fold(NoGroups, rows[..i])
      invariant info.Keys == entriesMap.Keys
    {
      assert rows[..i + 1][..i] == rows[..i];
      var row := rows[i];
      if row.habit.id !in info {
        order := order + [row.habit.id];
        info := info[row.habit.id := row.habit];
        entriesMap := entriesMap[row.habit.id := map[]];
      }
      if row.weekStart.Some? && row.statuses.Some? {
        var stored: map<Day, seq<Cell>> := entriesMap[row.habit.id];
        entriesMap := entriesMap[row.habit.id := stored[row.weekStart.value := row.statuses.value]];
      }
    }
    assert rows[..|rows|] == rows;
    g := Groups(order, info, entriesMap);
  }

  lemma {:induction false} FoldAppend(g: Groups, a: seq<MonthRow>, b: seq<MonthRow>)
    ensures Fold(g, a + b) == Fold(Fold(g, a), b)
    decreases |b|
  {
    if b == [] {
      assert a + b == a;
    } else {
      var b' := b[..|b| - 1];
      assert (a + b)[..|a + b| - 1] == a + b';
      FoldAppend(g, a, b');
    }
  }

  /** Rows of one habit group the same whether or not the habit was registered first. */
  lemma {:induction false} FoldRegistered(g: Groups, h: Habit, rows: seq<MonthRow>)
    requires rows != [] && forall j :: 0 <= j < |rows| ==> rows[j].habit == h
    ensures Fold(g, rows) == Fold(Register(g, h), rows)
    decreases |rows|
  {
    var init := rows[..|rows| - 1];
    if init != [] {
      FoldRegistered(g, h, init);
    }
  }

  /** The stored rows of habit id with week start from first up to d - 1, keyed by week start. */
  function EntriesIn(heatmap: map<HeatKey, HeatRow>, id: HabitId, first: Day, d: int): map<Day, seq<Cell>>
    decreases d - first
  {
    if d <= first then map[]
    else
      var prev := EntriesIn(heatmap, id, first, d - 1);
      var key := HeatKey(id, d - 1);
      if key in heatmap then prev[d - 1 := heatmap[key].statuses] else prev
  }

  /** EntriesIn holds exactly the cache rows of id in the range, each with its stored statuses. */
  lemma {:induction false} EntriesInSpec(heatmap: map<HeatKey, HeatRow>, id: HabitId, first: Day, d: int)
    ensures forall x: Day :: x in EntriesIn(heatmap, id, first, d) <==> first <= x < d && HeatKey(id, x) in heatmap
    ensures forall x: Day :: x in EntriesIn(heatmap, id, first, d) ==> EntriesIn(heatmap, id, first, d)[x] == heatmap[HeatKey(id, x)].statuses
    decreases d - first
  {
    if d > first {
      EntriesInSpec(heatmap, id, first, d - 1);
    }
  }

  lemma FoldSnoc(g: Groups, rows: seq<MonthRow>, row: MonthRow)
    ensures Fold(g, rows + [row]) == Step(Fold(g, rows), row)
  {
    assert (rows + [row])[..|rows|] == rows;
  }

  /** A row of a registered habit only stores its statuses under its week start. */
  lemma StepRegistered(g: Groups, row: MonthRow)
    requires row.habit.id in g.info && row.habit.id in g.entriesMap
    requires row.weekStart.Some? && row.statuses.Some?
    ensures var stored: map<Day, seq<Cell>> := g.entriesMap[row.habit.id][row.weekStart.value := row.statuses.value];
      Step(g, row) == g.(entriesMap := g.entriesMap[row.habit.id := stored])
  {
  }

  /** One more day of range: the day's stored row, if any, is the one more row grouped. */
  lemma FoldRangeStep(g: Groups, h: Habit, heatmap: map<HeatKey, HeatRow>, first: Day, d: int)
    requires first < d && h.id in g.info && h.id in g.entriesMap
    requires Fold(g, RangeRows(h, heatmap, first, d - 1))
          == g.(entriesMap := g.entriesMap[h.id := EntriesIn(heatmap, h.id, first, d - 1)])
    ensures Fold(g, RangeRows(h, heatmap, first, d))
         == g.(entriesMap := g.entriesMap[h.id := EntriesIn(heatmap, h.id, first, d)])
  {
    var key := HeatKey(h.id, d - 1);
    if key in heatmap {
      FoldRangeHit(g, h, heatmap, first, d);
    } else {
      assert RangeRows(h, heatmap, first, d) == RangeRows(h, heatmap, first, d - 1);
    }
  }

  lemma FoldRangeHit(g: Groups, h: Habit, heatmap: map<HeatKey, HeatRow>, first: Day, d: int)
    requires first < d && h.id in g.info && h.id in g.entriesMap && HeatKey(h.id, d - 1) in heatmap
    requires Fold(g, RangeRows(h, heatmap, first, d - 1))
          == g.(entriesMap := g.entriesMap[h.id := EntriesIn(heatmap, h.id, first, d - 1)])
    ensures var stored: map<Day, seq<Cell>> := EntriesIn(heatmap, h.id, first, d - 1)[d - 1 := heatmap[HeatKey(h.id, d - 1)].statuses];
      Fold(g, RangeRows(h, heatmap, first, d)) == g.(entriesMap := g.entriesMap[h.id := stored])
  {
    var prev := RangeRows(h, heatmap, first, d - 1);
    var before := EntriesIn(heatmap, h.id, first, d - 1);
    var st := heatmap[HeatKey(h.id, d - 1)].statuses;
    var row := MonthRow(h, Some(d - 1), Some(st));
    assert RangeRows(h, heatmap, first, d) == prev + [row];
    FoldSnoc(g, prev, row);
    var gp := g.(entriesMap := g.entriesMap[h.id := before]);
    StepRegistered(gp, row);
    var stored: map<Day, seq<Cell>> := before[d - 1 := st];
    assert gp.entriesMap[h.id := stored] == g.entriesMap[h.id := stored];
  }

  lemma FoldRangeEmpty(g: Groups, h: Habit, heatmap: map<HeatKey, HeatRow>, first: Day, d: int)
    requires h.id in g.entriesMap && g.entriesMap[h.id] == map[] && d <= first
    ensures Fold(g, RangeRows(h, heatmap, first, d)) == g.(entriesMap := g.entriesMap[h.id := EntriesIn(heatmap, h.id, first, d)])
  {
    assert g.entriesMap[h.id := map[]] == g.entriesMap;
  }

  /** Grouping a registered habit's rows in range fills its `entriesMap` with exactly those rows. */
  lemma {:induction false} FoldRange(g: Groups, h: Habit, heatmap: map<HeatKey, HeatRow>, first: Day, d: int)
    requires h.id in g.info && h.id in g.entriesMap && g.entriesMap[h.id] == map[]
    ensures Fold(g, RangeRows(h, heatmap, first, d)) == g.(entriesMap := g.entriesMap[h.id := EntriesIn(heatmap, h.id, first, d)])
    decreases d - first
  {
    if d <= first {
      FoldRangeEmpty(g, h, heatmap, first, d);
    } else {
      FoldRange(g, h, heatmap, first, d - 1);
      FoldRangeStep(g, h, heatmap, first, d);
    }
  }

  /** Grouping a new habit's block appends its id and records its columns and its rows in range. */
  lemma BlockEffect(g: Groups, h: Habit, heatmap: map<HeatKey, HeatRow>, first: Day, last: Day)
    requires h.id !in g.info
    ensures Fold(g, Block(h, heatmap, first, last))
         == Groups(g.order + [h.id], g.info[h.id := h], g.entriesMap[h.id := EntriesIn(heatmap, h.id, first, last + 1)])
  {
    var rows := RangeRows(h, heatmap, first, last + 1);
    var g0 := Register(g, h);
    FoldRange(g0, h, heatmap, first, last + 1);
    if rows == [] {
      assert Fold(g, [MonthRow(h, None, None)]) == g0;
      assert g0.entriesMap[h.id] == EntriesIn(heatmap, h.id, first, last + 1);
    } else {
      FoldRegistered(g, h, rows);
    }
    assert g.entriesMap[h.id := map[]][h.id := EntriesIn(heatmap, h.id, first, last + 1)]
        == g.entriesMap[h.id := EntriesIn(heatmap, h.id, first, last + 1)];
  }

  /** The groups of listed: its ids in listing order, each with its columns and its rows in range. */
  ghost predicate GroupsOf(g: Groups, listed: seq<Habit>, heatmap: map<HeatKey, HeatRow>, first: Day, last: Day) {
    && g.order == Ids(listed)
    && (forall id :: id in g.info <==> id in Ids(listed))
    && (forall id :: id in g.entriesMap <==> id in Ids(listed))
    && (forall k :: 0 <= k < |listed| ==>
          && g.info[listed[k].id] == listed[k]
          && g.entriesMap[listed[k].id] == EntriesIn(heatmap, listed[k].id, first, last + 1))
  }

  /** Registering a new habit with its weeks extends the groups of a listing by that habit. */
  lemma GroupsOfSnoc(g: Groups, init: seq<Habit>, h: Habit, heatmap: map<HeatKey, HeatRow>, first: Day, last: Day)
    requires GroupsOf(g, init, heatmap, first, last) && h.id !in Ids(init)
    ensures GroupsOf(Groups(g.order + [h.id], g.info[h.id := h], g.entriesMap[h.id := EntriesIn(heatmap, h.id, first, last + 1)]),
                     init + [h], heatmap, first, last)
  {
    var listed := init + [h];
    assert Ids(listed) == Ids(init) + [h.id];
    forall k | 0 <= k < |init|
      ensures listed[k] == init[k] && listed[k].id != h.id
    {
      assert Ids(init)[k] == init[k].id;
    }
  }

  /** Grouping the joined rows of habits with distinct ids gives one group per habit, in listing order. */
  lemma {:induction false} JoinGroups(listed: seq<Habit>, heatmap: map<HeatKey, HeatRow>, first: Day, last: Day)
    requires DistinctIds(listed)
    ensures GroupsOf(Fold(NoGroups, JoinMonth(listed, heatmap, first, last)), listed, heatmap, first, last)
    decreases |listed|
  {
    if listed != [] {
      var init := listed[..|listed| - 1];
      var h := listed[|listed| - 1];
      assert DistinctIds(init);
      JoinGroups(init, heatmap, first, last);
      var g := Fold(NoGroups, JoinMonth(init, heatmap, first, last));
      FoldAppend(NoGroups, JoinMonth(init, heatmap, first, last), Block(h, heatmap, first, last));
      assert h.id !in Ids(init) by {
        assert forall k :: 0 <= k < |init| ==> Ids(init)[k] == listed[k].id != h.id;
      }
      assert h.id !in g.info;
      BlockEffect(g, h, heatmap, first, last);
      GroupsOfSnoc(g, init, h, heatmap, first, last);
      assert init + [h] == listed;
    }
  }

  // ---------------------------------------------------------------------
  // The per-habit grid

  /** One habit's month: its columns, one 7-slot array per week, and the week list. */
  datatype MonthlyResult = MonthlyResult(habit: Habit, entries: seq<seq<Cell>>, weeks: seq<Day>)

  /** `habit.entriesMap[weekStart] ?? Array(7).fill(null)` for each week. */
  function WeekEntries(stored: map<Day, seq<Cell>>, weeks: seq<Day>): (r: seq<seq<Cell>>)
    ensures |r| == |weeks|
    ensures forall i :: 0 <= i < |weeks| ==> r[i] == if weeks[i] in stored then stored[weeks[i]] else NullWeek
  {
    seq(|weeks|, i requires 0 <= i < |weeks| => if weeks[i] in stored then stored[weeks[i]] else NullWeek)
  }

  /** `Array.from(habitMap.values()).map(...)`: one result per group, in insertion order. */
  function Results(g: Groups, weeks: seq<Day>): (r: seq<MonthlyResult>)
    requires forall k :: 0 <= k < |g.order| ==> g.order[k] in g.info && g.order[k] in g.entriesMap
    ensures |r| == |g.order|
  {
    seq(|g.order|, k requires 0 <= k < |g.order| =>
      MonthlyResult(g.info[g.order[k]], WeekEntries(g.entriesMap[g.order[k]], weeks), weeks))
  }

  /**
   * One result per listed habit, in listing order, each with the week list
   * and, per week, the habit's stored statuses for that week or seven nulls.
   */
  predicate ShowsMonth(result: seq<MonthlyResult>, listed: seq<Habit>, heatmap: map<HeatKey, HeatRow>, weeks: seq<Day>) {
    && |result| == |listed|
    && forall k :: 0 <= k < |result| ==>
         && result[k].habit == listed[k]
         && result[k].weeks == weeks
         && |result[k].entries| == |weeks|
         && forall i :: 0 <= i < |weeks| ==>
              result[k].entries[i] == if HeatKey(listed[k].id, weeks[i]) in heatmap
                                      then heatmap[HeatKey(listed[k].id, weeks[i])].statuses else NullWeek
  }

  /** The grid of the groups of listed, for weeks inside the queried range, shows the month. */
  lemma ResultsSpec(g: Groups, listed: seq<Habit>, heatmap: map<HeatKey, HeatRow>, first: Day, last: Day, weeks: seq<Day>)
    requires GroupsOf(g, listed, heatmap, first, last)
    requires forall i :: 0 <= i < |weeks| ==> first <= weeks[i] <= last
    ensures forall k :: 0 <= k < |g.order| ==> g.order[k] in g.info && g.order[k] in g.entriesMap
    ensures ShowsMonth(Results(g, weeks), listed, heatmap, weeks)
  {
    assert forall k :: 0 <= k < |g.order| ==> g.order[k] in Ids(listed);
    var r := Results(g, weeks);
    forall k, i | 0 <= k < |r| && 0 <= i < |weeks|
      ensures r[k].entries[i] == if HeatKey(listed[k].id, weeks[i]) in heatmap
                                 then heatmap[HeatKey(listed[k].id, weeks[i])].statuses else NullWeek
    {
      var id := listed[k].id;
      assert g.order[k] == id;
      EntriesInSpec(heatmap, id, first, last + 1);
    }
  }

  /**
   * The hook's query function over the habits table and the cache: the week
   * list of now's month, the joined rows of the listing, the grouping and
   * the final grid.
   */
  method Monthly(habits: seq<Habit>, heatmap: map<HeatKey, HeatRow>, now: Day) returns (weeks: seq<Day>, result: seq<MonthlyResult>)
    requires DistinctIds(habits)
    ensures |weeks| >= 1 && weeks[0] == WeekStart(MonthStart(now)) && weeks[|weeks| - 1] == WeekStart(MonthEnd(now))
    ensures forall i :: 0 <= i < |weeks| ==> Weekday(weeks[i]) == 1
    ensures forall i :: 0 < i < |weeks| ==> weeks[i] == weeks[i - 1] + 7
    ensures forall n :: MonthStart(now) <= n <= MonthEnd(now) ==> WeekStart(n) in weeks
    ensures ShowsMonth(result, Listing(habits), heatmap, weeks)
  {
    var monthStartWeek := WeekStart(MonthStart(now));
    var monthEndWeek := WeekStart(MonthEnd(now));
    weeks := WeekList(monthStartWeek, monthEndWeek);
    MonthWeeks(now, weeks);
    var listed := Listing(habits);
    var rows := JoinMonth(listed, heatmap, monthStartWeek, monthEndWeek);
    var g := GroupByHabit(rows);
    ListingDistinct(habits);
    JoinGroups(listed, heatmap, monthStartWeek, monthEndWeek);
    assert forall i :: 0 <= i < |weeks| ==> monthStartWeek <= weeks[i] <= monthEndWeek;
    ResultsSpec(g, listed, heatmap, monthStartWeek, monthEndWeek, weeks);
    result := Results(g, weeks);
  }

  /** With a well-keyed cache each monthly cell shows the cache slot of its own date. */
  lemma MonthlyShowsSlots(heatmap: map<HeatKey, HeatRow>, h: Habit, entries: seq<seq<Cell>>, weeks: seq<Day>, i: int, j: int)
    requires WellKeyed(heatmap)
    requires 0 <= i < |weeks| == |entries| && 0 <= j < 7 && Weekday(weeks[i]) == 1
    requires entries[i] == if HeatKey(h.id, weeks[i]) in heatmap then heatmap[HeatKey(h.id, weeks[i])].statuses else NullWeek
    ensures |entries[i]| == 7 && entries[i][j] == Slot(heatmap, h.id, weeks[i] + j)
  {
    SlotOfRow(heatmap, HeatKey(h.id, weeks[i]), j);
  }
}
