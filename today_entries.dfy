/**
 * hooks/useHabitEntriesByPeriod.ts, read side: the status of today's entry
 * per active habit, the `?? null` mapping and the first-wins dedup by
 * habit id. `ensureTodayEntries` is Store.EnsureTodayEntries.
 */
module TodayEntries {
  import opened Wrappers
  import opened Calendar
  import opened Schema
  import opened Ledger
  import opened Registry

  /** SQLite sorts NULL below every value, so `updated_at DESC` puts NULL last. */
  function UpdatedRank(e: Entry): int {
    if e.updatedAt.Some? then 1 else 0
  }

  function UpdatedValue(e: Entry): int {
    if e.updatedAt.Some? then e.updatedAt.value else 0
  }

  /** a sorts strictly before b in `ORDER BY updated_at DESC, created_at DESC`. */
  predicate Later(a: Entry, b: Entry) {
    || UpdatedRank(a) > UpdatedRank(b)
    || (UpdatedRank(a) == UpdatedRank(b) && UpdatedValue(a) > UpdatedValue(b))
    || (UpdatedRank(a) == UpdatedRank(b) && UpdatedValue(a) == UpdatedValue(b) && a.createdAt > b.createdAt)
  }

  /**
   * The row the `LIMIT 1` subquery picks among the (h, d) rows from
   * position i on: one that no other such row sorts before (of equals, the
   * first in row-id order).
   */
  function LatestFrom(rows: seq<Entry>, h: HabitId, d: Day, i: nat): (r: Option<nat>)
    requires i <= |rows|
    ensures r.None? <==> forall j :: i <= j < |rows| ==> !Matches(rows[j], h, d)
    ensures r.Some? ==> i <= r.value < |rows| && Matches(rows[r.value], h, d)
    ensures r.Some? ==> forall j :: i <= j < |rows| && Matches(rows[j], h, d) ==> !Later(rows[j], rows[r.value])
    decreases |rows| - i
  {
    if i == |rows| then None
    else
      var rest := LatestFrom(rows, h, d, i + 1);
      if !Matches(rows[i], h, d) then rest
      else if rest.Some? && Later(rows[rest.value], rows[i]) then rest
      else Some(i)
  }

  /** `(SELECT he.status ... ORDER BY he.updated_at DESC, he.created_at DESC LIMIT 1)`. */
  function LatestStatus(rows: seq<Entry>, h: HabitId, d: Day): (s: Option<Status>)
    ensures s.None? <==> FindEntry(rows, h, d).None?
  {
    match LatestFrom(rows, h, d, 0)
    case Some(i) => Some(rows[i].status)
    case None => None
  }

  /** With at most one row per (habit, date) the latest row is the only row: the subquery reads the ledger status. */
  lemma LatestIsLedgerStatus(rows: seq<Entry>, h: HabitId, d: Day)
    requires UniqueLedger(rows)
    ensures LatestStatus(rows, h, d) == LedgerStatus(rows, h, d)
  {
    var p := LatestFrom(rows, h, d, 0);
    if p.Some? {
      StatusOfUnique(rows, p.value);
    }
  }

  /** A row of the today query: the habit, its status today (`null` without a row) and the date. */
  datatype HabitWithEntry = HabitWithEntry(habit: Habit, entryStatus: Option<Status>, entryDate: Option<Day>)

  /** The today query's rows for the listed habits, with `entry_status ?? null`. */
  function TodayRows(listed: seq<Habit>, rows: seq<Entry>, today: Day): (r: seq<HabitWithEntry>)
    ensures |r| == |listed|
    ensures forall k :: 0 <= k < |r| ==> r[k].habit == listed[k] && r[k].entryDate == Some(today)
    ensures forall k :: 0 <= k < |r| ==> r[k].entryStatus == LatestStatus(rows, listed[k].id, today)
  {
    seq(|listed|, k requires 0 <= k < |listed| => HabitWithEntry(listed[k], LatestStatus(rows, listed[k].id, today), Some(today)))
  }

  /** The habit ids of the rows. */
  function RowIds(s: seq<HabitWithEntry>): (ids: set<HabitId>)
    ensures forall x :: x in ids <==> exists k :: 0 <= k < |s| && s[k].habit.id == x
  {
    set k | 0 <= k < |s| :: s[k].habit.id
  }

  lemma RowIdsAppend(s: seq<HabitWithEntry>, x: HabitWithEntry)
    ensures RowIds(s + [x]) == RowIds(s) + {x.habit.id}
  {
    assert (s + [x])[|s|] == x;
    assert forall k :: 0 <= k < |s| ==> (s + [x])[k] == s[k];
  }

  /** The rows kept by the dedup: each row whose id no earlier row has. */
  function FirstPerId(s: seq<HabitWithEntry>): seq<HabitWithEntry>
    decreases |s|
  {
    if s == [] then []
    else
      var init := s[..|s| - 1];
      if s[|s| - 1].habit.id in RowIds(init) then FirstPerId(init) else FirstPerId(init) + [s[|s| - 1]]
  }

  predicate DistinctRowIds(s: seq<HabitWithEntry>) {
    forall i, j :: 0 <= i < j < |s| ==> s[i].habit.id != s[j].habit.id
  }

  /**
   * The dedup keeps one row per id, the first one with that id, covers
   * every id of the input, and keeps the input order.
   */
  lemma {:induction false} FirstPerIdSpec(s: seq<HabitWithEntry>)
    ensures DistinctRowIds(FirstPerId(s))
    ensures RowIds(FirstPerId(s)) == RowIds(s)
    ensures forall k :: 0 <= k < |FirstPerId(s)| ==>
              exists i :: (0 <= i < |s| && FirstPerId(s)[k] == s[i] &&
                           forall j :: 0 <= j < i ==> s[j].habit.id != s[i].habit.id)
    decreases |s|
  {
    if s != [] {
      var init := s[..|s| - 1];
      var last := s[|s| - 1];
      FirstPerIdSpec(init);
      var p := FirstPerId(init);
      var r := FirstPerId(s);
      assert forall i :: 0 <= i < |init| ==> init[i] == s[i];
      if last.habit.id !in RowIds(init) {
        assert r == p + [last];
        RowIdsAppend(p, last);
        RowIdsAppend(init, last);
        forall k | 0 <= k < |r|
          ensures exists i :: 0 <= i < |s| && r[k] == s[i] && forall j :: 0 <= j < i ==> s[j].habit.id != s[i].habit.id
        {
          if k == |p| {
            assert r[k] == s[|s| - 1];
          } else {
            assert r[k] == p[k];
          }
        }
      } else {
        RowIdsAppend(init, last);
      }
    }
  }

  /** The input positions of the rows the dedup keeps, in the order it keeps them. */
  function FirstPositions(s: seq<HabitWithEntry>): seq<int>
    decreases |s|
  {
    if s == [] then []
    else
      var init := s[..|s| - 1];
      if s[|s| - 1].habit.id in RowIds(init) then FirstPositions(init) else FirstPositions(init) + [|s| - 1]
  }

  /**
   * The dedup is a subsequence of its input: the k-th kept row is the row
   * at input position FirstPositions(s)[k], those positions strictly
   * increase, and each is the first position of its id.
   */
  lemma {:induction false} FirstPerIdKeepsOrder(s: seq<HabitWithEntry>)
    ensures |FirstPositions(s)| == |FirstPerId(s)|
    ensures forall k :: 0 <= k < |FirstPositions(s)| ==>
              0 <= FirstPositions(s)[k] < |s| && FirstPerId(s)[k] == s[FirstPositions(s)[k]]
    ensures forall k1, k2 :: 0 <= k1 < k2 < |FirstPositions(s)| ==> FirstPositions(s)[k1] < FirstPositions(s)[k2]
    ensures forall k, j :: 0 <= k < |FirstPositions(s)| && 0 <= j < FirstPositions(s)[k] ==>
              s[j].habit.id != FirstPerId(s)[k].habit.id
    decreases |s|
  {
    if s != [] {
      var init := s[..|s| - 1];
      var last := s[|s| - 1];
      FirstPerIdKeepsOrder(init);
      assert forall i :: 0 <= i < |init| ==> init[i] == s[i];
      var p := FirstPositions(init);
      var r := FirstPerId(init);
      if last.habit.id !in RowIds(init) {
        var p' := p + [|s| - 1];
        var r' := r + [last];
        assert FirstPositions(s) == p' && FirstPerId(s) == r';
        forall k | 0 <= k < |p'|
          ensures 0 <= p'[k] < |s| && r'[k] == s[p'[k]]
          ensures forall j :: 0 <= j < p'[k] ==> s[j].habit.id != r'[k].habit.id
        {
          if k < |p| {
            assert p'[k] == p[k] && r'[k] == r[k];
          }
        }
      }
    }
  }

  /** When the ids are already distinct, the dedup keeps every row. */
  lemma {:induction false} FirstPerIdOfDistinct(s: seq<HabitWithEntry>)
    requires DistinctRowIds(s)
    ensures FirstPerId(s) == s
    decreases |s|
  {
    if s != [] {
      var init := s[..|s| - 1];
      assert DistinctRowIds(init);
      FirstPerIdOfDistinct(init);
      assert s[|s| - 1].habit.id !in RowIds(init);
      assert init + [s[|s| - 1]] == s;
    }
  }

  /**
   * `habitMap.has` / `habitMap.set` over the mapped rows, then
   * `Array.from(habitMap.values())`: a Map keeps insertion order.
   */
  method Dedup(mapped: seq<HabitWithEntry>) returns (result: seq<HabitWithEntry>)
    ensures result == FirstPerId(mapped)
    ensures DistinctRowIds(result) && RowIds(result) == RowIds(mapped)
  {
    var seen: set<HabitId> := {};
    result := [];
    for i := 0 to |mapped|
      invariant seen == RowIds(mapped[..i])
      invariant result == FirstPerId(mapped[..i])
    {
      assert mapped[..i + 1][..i] == mapped[..i];
      if mapped[i].habit.id !in seen {
        seen := seen + {mapped[i].habit.id};
        result := result + [mapped[i]];
      }
      assert mapped[..i + 1] == mapped[..i] + [mapped[i]];
      RowIdsAppend(mapped[..i], mapped[i]);
    }
    assert mapped[..|mapped|] == mapped;
    FirstPerIdSpec(mapped);
  }

  /** The `period` argument of the hook. */
  datatype Period = TodayPeriod | WeeklyPeriod | MonthlyPeriod | OverallPeriod

  /** The `switch (period)`: every period returns the today query. */
  function ForPeriod<Q>(period: Period, todayQuery: Q): (q: Q)
    ensures q == todayQuery
  {
    match period
    case TodayPeriod => todayQuery
    case _ => todayQuery
  }
}
