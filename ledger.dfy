/**
 * The completion ledger (`habits_entry`) and the weekly cache
 * (`habit_heatmap`) as values, with the writes that hooks/useToggle.ts and
 * hooks/useHabitEntriesByPeriod.ts perform on them and the invariants that
 * connect the two tables.
 */
module Ledger {
  import opened Wrappers
  import opened Calendar
  import opened Schema

  /** The ledger rows in row-id order, and the next AUTOINCREMENT row id. */
  datatype Ledger = Ledger(rows: seq<Entry>, nextId: int)

  predicate Matches(e: Entry, h: HabitId, d: Day) {
    e.habitId == h && e.date == d
  }

  /** Row ids grow with the row order and stay below the next id. */
  predicate RowIdsOk(l: Ledger) {
    && (forall i, j :: 0 <= i < j < |l.rows| ==> l.rows[i].id < l.rows[j].id)
    && (forall i :: 0 <= i < |l.rows| ==> l.rows[i].id < l.nextId)
  }

  /** At most one ledger row per (habit, date): kept by the code, not by the schema. */
  predicate UniqueLedger(rows: seq<Entry>) {
    forall i, j :: 0 <= i < j < |rows| ==> !Matches(rows[j], rows[i].habitId, rows[i].date)
  }

  /** The first row at or after i for (h, d). */
  function FindFrom(rows: seq<Entry>, h: HabitId, d: Day, i: nat): (r: Option<nat>)
    requires i <= |rows|
    ensures r.Some? ==> i <= r.value < |rows| && Matches(rows[r.value], h, d)
    ensures r.Some? ==> forall j :: i <= j < r.value ==> !Matches(rows[j], h, d)
    ensures r.None? ==> forall j :: i <= j < |rows| ==> !Matches(rows[j], h, d)
    decreases |rows| - i
  {
    if i == |rows| then None
    else if Matches(rows[i], h, d) then Some(i)
    else FindFrom(rows, h, d, i + 1)
  }

  /**
   * `SELECT id FROM habits_entry WHERE habit_id=? AND date=?` through
   * `getFirstAsync`: the first matching row in row-id order, if any.
   */
  function FindEntry(rows: seq<Entry>, h: HabitId, d: Day): (r: Option<nat>)
    ensures r.Some? ==> r.value < |rows| && Matches(rows[r.value], h, d)
    ensures r.Some? ==> forall j :: 0 <= j < r.value ==> !Matches(rows[j], h, d)
    ensures r.None? ==> forall j :: 0 <= j < |rows| ==> !Matches(rows[j], h, d)
  {
    FindFrom(rows, h, d, 0)
  }

  /** The ledger status of habit h on day d. */
  function LedgerStatus(rows: seq<Entry>, h: HabitId, d: Day): (s: Option<Status>)
    ensures s.None? <==> FindEntry(rows, h, d).None?
  {
    match FindEntry(rows, h, d)
    case Some(i) => Some(rows[i].status)
    case None => None
  }

  /** Two row sequences that match (h, d) at the same positions find the same first row. */
  lemma {:induction false} SameMatchesSameFind(a: seq<Entry>, b: seq<Entry>, h: HabitId, d: Day, i: nat)
    requires |a| == |b| && i <= |a|
    requires forall j :: i <= j < |a| ==> (Matches(a[j], h, d) <==> Matches(b[j], h, d))
    ensures FindFrom(a, h, d, i) == FindFrom(b, h, d, i)
    decreases |a| - i
  {
    if i < |a| && !Matches(a[i], h, d) {
      SameMatchesSameFind(a, b, h, d, i + 1);
    }
  }

  /** Appending rows keeps every row found in the prefix. */
  lemma {:induction false} FindInPrefix(a: seq<Entry>, b: seq<Entry>, h: HabitId, d: Day, i: nat)
    requires i <= |a| && FindFrom(a, h, d, i).Some?
    ensures FindFrom(a + b, h, d, i) == FindFrom(a, h, d, i)
    decreases |a| - i
  {
    assert (a + b)[i] == a[i];
    if !Matches(a[i], h, d) {
      FindInPrefix(a, b, h, d, i + 1);
    }
  }

  /** Appending a row that does not match (h, d) leaves the search for (h, d) unchanged. */
  lemma FindPastNonMatching(a: seq<Entry>, e: Entry, h: HabitId, d: Day)
    requires !Matches(e, h, d)
    ensures FindEntry(a + [e], h, d) == FindEntry(a, h, d)
  {
    var p := FindEntry(a, h, d);
    if p.Some? {
      FindInPrefix(a, [e], h, d, 0);
    } else {
      assert forall j :: 0 <= j < |a| ==> (a + [e])[j] == a[j];
      assert (a + [e])[|a|] == e;
    }
  }

  /** In a unique ledger the status is the status of the one matching row. */
  lemma StatusOfUnique(rows: seq<Entry>, i: int)
    requires UniqueLedger(rows) && 0 <= i < |rows|
    ensures LedgerStatus(rows, rows[i].habitId, rows[i].date) == Some(rows[i].status)
  {
    var p := FindEntry(rows, rows[i].habitId, rows[i].date);
    assert p.Some?;
    if p.value < i {
      assert Matches(rows[i], rows[p.value].habitId, rows[p.value].date);
    }
  }

  /**
   * The toggle's next status: 0 exactly when the status the caller believes
   * in is 1; both `null` and 0 give 1.
   */
  function NextStatus(believed: Cell): (s: Status)
    ensures s == 0 <==> believed == Some(1)
    ensures s == 1 <==> believed != Some(1)
  {
    if believed == Some(1) then 0 else 1
  }

  /**
   * The ledger half of a toggle: update the status and `updated_at` of the
   * first (habit, date) row, or insert a row with `updated_at` NULL.
   */
  function Upsert(l: Ledger, h: HabitId, d: Day, s: Status, now: Timestamp): Ledger {
    match FindEntry(l.rows, h, d)
    case Some(i) => Ledger(l.rows[i := l.rows[i].(status := s, updatedAt := Some(now))], l.nextId)
    case None => Ledger(l.rows + [Entry(l.nextId, h, d, s, now, None)], l.nextId + 1)
  }

  /** Without a (h, d) row, Upsert inserts exactly one row, with the new status, and changes no other row. */
  lemma UpsertInserts(l: Ledger, h: HabitId, d: Day, s: Status, now: Timestamp)
    requires FindEntry(l.rows, h, d).None?
    ensures |Upsert(l, h, d, s, now).rows| == |l.rows| + 1
    ensures Upsert(l, h, d, s, now).rows[..|l.rows|] == l.rows
    ensures Upsert(l, h, d, s, now).rows[|l.rows|] == Entry(l.nextId, h, d, s, now, None)
  {
    assert (l.rows + [Entry(l.nextId, h, d, s, now, None)])[..|l.rows|] == l.rows;
  }

  /** With a (h, d) row, Upsert sets its status, adds no row and changes nothing else. */
  lemma UpsertUpdates(l: Ledger, h: HabitId, d: Day, s: Status, now: Timestamp)
    requires FindEntry(l.rows, h, d).Some?
    ensures |Upsert(l, h, d, s, now).rows| == |l.rows|
    ensures Upsert(l, h, d, s, now).nextId == l.nextId
    ensures forall j :: 0 <= j < |l.rows| && j != FindEntry(l.rows, h, d).value ==> Upsert(l, h, d, s, now).rows[j] == l.rows[j]
    ensures Upsert(l, h, d, s, now).rows[FindEntry(l.rows, h, d).value]
         == l.rows[FindEntry(l.rows, h, d).value].(status := s, updatedAt := Some(now))
  {
  }

  /** After Upsert the ledger status of (h, d) is s, and every other (habit, date) keeps its status. */
  lemma UpsertStatus(l: Ledger, h: HabitId, d: Day, s: Status, now: Timestamp, h': HabitId, d': Day)
    ensures LedgerStatus(Upsert(l, h, d, s, now).rows, h, d) == Some(s)
    ensures (h', d') != (h, d) ==> LedgerStatus(Upsert(l, h, d, s, now).rows, h', d') == LedgerStatus(l.rows, h', d')
  {
    var r := Upsert(l, h, d, s, now).rows;
    var e := Entry(l.nextId, h, d, s, now, None);
    match FindEntry(l.rows, h, d)
    case Some(i) =>
      SameMatchesSameFind(l.rows, r, h, d, 0);
      SameMatchesSameFind(l.rows, r, h', d', 0);
    case None =>
      assert r == l.rows + [e];
      var q := FindEntry(r, h, d);
      assert Matches(r[|l.rows|], h, d);
      assert forall j :: 0 <= j < |l.rows| ==> r[j] == l.rows[j];
      assert q.Some? && q.value == |l.rows|;
      if (h', d') != (h, d) {
        FindPastNonMatching(l.rows, e, h', d');
      }
  }

  /** Upsert keeps at most one row per (habit, date), and keeps the row ids in order. */
  lemma UpsertKeepsUnique(l: Ledger, h: HabitId, d: Day, s: Status, now: Timestamp)
    requires UniqueLedger(l.rows) && RowIdsOk(l)
    ensures UniqueLedger(Upsert(l, h, d, s, now).rows) && RowIdsOk(Upsert(l, h, d, s, now))
  {
    var r := Upsert(l, h, d, s, now).rows;
    match FindEntry(l.rows, h, d)
    case Some(i) =>
      assert forall k :: 0 <= k < |r| ==> r[k].habitId == l.rows[k].habitId && r[k].date == l.rows[k].date && r[k].id == l.rows[k].id;
    case None =>
      forall i, j | 0 <= i < j < |r|
        ensures !Matches(r[j], r[i].habitId, r[i].date)
      {
        if j == |l.rows| {
          assert !Matches(l.rows[i], h, d);
        } else {
          assert r[i] == l.rows[i] && r[j] == l.rows[j];
        }
      }
  }

  /** Seven `null` slots: `Array(7).fill(null)`. */
  const NullWeek: seq<Cell> := [None, None, None, None, None, None, None]

  /**
   * The cached slot of habit h on day d: slot `weekday - 1` of the row for
   * the Monday of d's week, or null when there is no such row.
   */
  function Slot(heatmap: map<HeatKey, HeatRow>, h: HabitId, d: Day): Cell {
    var k := HeatKey(h, WeekStart(d));
    var i := Weekday(d) - 1;
    if k in heatmap && i < |heatmap[k].statuses| then heatmap[k].statuses[i] else None
  }

  /** Slot i of the row keyed by a Monday is the slot of the day i days after that Monday. */
  lemma SlotOfRow(heatmap: map<HeatKey, HeatRow>, k: HeatKey, i: int)
    requires Weekday(k.weekStart) == 1 && 0 <= i < 7
    ensures Slot(heatmap, k.habitId, k.weekStart + i)
         == if k in heatmap && i < |heatmap[k].statuses| then heatmap[k].statuses[i] else None
  {
    MondayOffset(k.weekStart, i, k.weekStart + i);
  }

  /** Every heatmap row is keyed by a Monday and holds seven slots. */
  predicate WellKeyed(heatmap: map<HeatKey, HeatRow>) {
    forall k :: k in heatmap ==> Weekday(k.weekStart) == 1 && |heatmap[k].statuses| == 7
  }

  /** Every non-null slot equals the ledger status of its date. */
  ghost predicate Consistent(rows: seq<Entry>, heatmap: map<HeatKey, HeatRow>) {
    forall h, d :: Slot(heatmap, h, d).Some? ==> LedgerStatus(rows, h, d) == Slot(heatmap, h, d)
  }

  /** Every ledger status 1 shows as a 1 in its slot. */
  ghost predicate OnesMirrored(rows: seq<Entry>, heatmap: map<HeatKey, HeatRow>) {
    forall h, d :: LedgerStatus(rows, h, d) == Some(1) ==> Slot(heatmap, h, d) == Some(1)
  }

  /** The reverse of Consistent: every ledger status shows in its slot. */
  ghost predicate Mirrored(rows: seq<Entry>, heatmap: map<HeatKey, HeatRow>) {
    forall h, d :: LedgerStatus(rows, h, d).Some? ==> Slot(heatmap, h, d) == LedgerStatus(rows, h, d)
  }

  /**
   * The heatmap half of a toggle: the stored row of d's week (or seven
   * nulls) with slot `weekday - 1` set to s, written back under the key.
   */
  function SetSlot(heatmap: map<HeatKey, HeatRow>, h: HabitId, d: Day, s: Status, now: Timestamp): map<HeatKey, HeatRow>
    requires WellKeyed(heatmap)
  {
    var k := HeatKey(h, WeekStart(d));
    var stored := if k in heatmap then heatmap[k].statuses else NullWeek;
    heatmap[k := HeatRow(stored[Weekday(d) - 1 := Some(s)], now)]
  }

  /**
   * SetSlot changes one slot only: the slot of (h, d) becomes s, the other
   * six of that row keep their stored values (null for a new row), every
   * other row is unchanged and the row is the only key it adds.
   */
  lemma SetSlotEffect(heatmap: map<HeatKey, HeatRow>, h: HabitId, d: Day, s: Status, now: Timestamp)
    requires WellKeyed(heatmap)
    ensures WellKeyed(SetSlot(heatmap, h, d, s, now))
    ensures SetSlot(heatmap, h, d, s, now).Keys == heatmap.Keys + {HeatKey(h, WeekStart(d))}
    ensures forall k :: k in heatmap && k != HeatKey(h, WeekStart(d)) ==> SetSlot(heatmap, h, d, s, now)[k] == heatmap[k]
    ensures Slot(SetSlot(heatmap, h, d, s, now), h, d) == Some(s)
    ensures forall i :: 0 <= i < 7 && i != Weekday(d) - 1 ==>
      SetSlot(heatmap, h, d, s, now)[HeatKey(h, WeekStart(d))].statuses[i]
        == if HeatKey(h, WeekStart(d)) in heatmap then heatmap[HeatKey(h, WeekStart(d))].statuses[i] else None
  {
  }

  /** SetSlot changes the slot of (h, d) and of no other (habit, day). */
  lemma SetSlotOthers(heatmap: map<HeatKey, HeatRow>, h: HabitId, d: Day, s: Status, now: Timestamp, h': HabitId, d': Day)
    requires WellKeyed(heatmap) && (h', d') != (h, d)
    ensures Slot(SetSlot(heatmap, h, d, s, now), h', d') == Slot(heatmap, h', d')
  {
    assert h' == h && WeekStart(d') == WeekStart(d) && Weekday(d') == Weekday(d) ==> d' == d;
  }

  /** A toggle keeps the cache consistent with the ledger, and keeps every 1 mirrored. */
  lemma ToggleKeepsInvariants(l: Ledger, heatmap: map<HeatKey, HeatRow>, h: HabitId, d: Day, s: Status, now: Timestamp)
    requires WellKeyed(heatmap)
    requires Consistent(l.rows, heatmap) && OnesMirrored(l.rows, heatmap)
    ensures Consistent(Upsert(l, h, d, s, now).rows, SetSlot(heatmap, h, d, s, now))
    ensures OnesMirrored(Upsert(l, h, d, s, now).rows, SetSlot(heatmap, h, d, s, now))
    ensures LedgerStatus(Upsert(l, h, d, s, now).rows, h, d) == Slot(SetSlot(heatmap, h, d, s, now), h, d)
  {
    var r := Upsert(l, h, d, s, now).rows;
    var m := SetSlot(heatmap, h, d, s, now);
    UpsertStatus(l, h, d, s, now, h, d);
    SetSlotEffect(heatmap, h, d, s, now);
    forall h': HabitId, d': Day | m == m
      ensures Slot(m, h', d').Some? ==> LedgerStatus(r, h', d') == Slot(m, h', d')
      ensures LedgerStatus(r, h', d') == Some(1) ==> Slot(m, h', d') == Some(1)
    {
      if (h', d') != (h, d) {
        UpsertStatus(l, h, d, s, now, h', d');
        SetSlotOthers(heatmap, h, d, s, now, h', d');
      }
    }
  }

  /** With the two invariants, the status a view shows for a day toggles to the same next status as the ledger's. */
  lemma ShownStatusTogglesLikeLedger(rows: seq<Entry>, heatmap: map<HeatKey, HeatRow>, h: HabitId, d: Day)
    requires Consistent(rows, heatmap) && OnesMirrored(rows, heatmap)
    ensures NextStatus(Slot(heatmap, h, d)) == NextStatus(LedgerStatus(rows, h, d))
  {
  }

  /**
   * One step of `ensureTodayEntries`: insert a status-0 row for (h, today)
   * when the lookup finds none.
   */
  function EnsureStep(l: Ledger, h: HabitId, today: Day, now: Timestamp): Ledger {
    if FindEntry(l.rows, h, today).Some? then l
    else Ledger(l.rows + [Entry(l.nextId, h, today, 0, now, None)], l.nextId + 1)
  }

  /** `ensureTodayEntries` over the habit ids hs, in order. */
  function EnsureAll(l: Ledger, hs: seq<HabitId>, today: Day, now: Timestamp): Ledger
    decreases |hs|
  {
    if hs == [] then l
    else EnsureStep(EnsureAll(l, hs[..|hs| - 1], today, now), hs[|hs| - 1], today, now)
  }

  /**
   * Existing rows are never modified: the old ledger is a prefix of the new
   * one, and every added row is a status-0 row for today of a listed habit,
   * with `updated_at` NULL.
   */
  lemma {:induction false} EnsureAllExtends(l: Ledger, hs: seq<HabitId>, today: Day, now: Timestamp)
    ensures |l.rows| <= |EnsureAll(l, hs, today, now).rows|
    ensures EnsureAll(l, hs, today, now).rows[..|l.rows|] == l.rows
    ensures forall j :: |l.rows| <= j < |EnsureAll(l, hs, today, now).rows| ==>
      var e := EnsureAll(l, hs, today, now).rows[j];
      e.date == today && e.status == 0 && e.habitId in hs && e.updatedAt.None?
    ensures EnsureAll(l, hs, today, now).nextId - l.nextId == |EnsureAll(l, hs, today, now).rows| - |l.rows|
    decreases |hs|
  {
    if hs != [] {
      var init := hs[..|hs| - 1];
      EnsureAllExtends(l, init, today, now);
      var m := EnsureAll(l, init, today, now);
      var r := EnsureAll(l, hs, today, now);
      assert r == EnsureStep(m, hs[|hs| - 1], today, now);
      assert forall x :: x in init ==> x in hs;
      if r != m {
        assert r.rows[..|m.rows|] == m.rows;
        assert r.rows[..|l.rows|] == m.rows[..|l.rows|];
        forall j | |l.rows| <= j < |r.rows|
          ensures r.rows[j].date == today && r.rows[j].status == 0 && r.rows[j].habitId in hs && r.rows[j].updatedAt.None?
        {
          if j < |m.rows| {
            assert r.rows[j] == m.rows[j];
          }
        }
      }
    }
  }

  /** After `ensureTodayEntries` every listed habit has a row for today. */
  lemma {:induction false} EnsureAllCovers(l: Ledger, hs: seq<HabitId>, today: Day, now: Timestamp)
    ensures forall h :: h in hs ==> FindEntry(EnsureAll(l, hs, today, now).rows, h, today).Some?
    decreases |hs|
  {
    if hs != [] {
      var init := hs[..|hs| - 1];
      var last := hs[|hs| - 1];
      EnsureAllCovers(l, init, today, now);
      var m := EnsureAll(l, init, today, now);
      var r := EnsureAll(l, hs, today, now);
      forall h | h in hs
        ensures FindEntry(r.rows, h, today).Some?
      {
        if r != m {
          if h in init {
            FindInPrefix(m.rows, [Entry(m.nextId, last, today, 0, now, None)], h, today, 0);
          } else {
            assert h == last;
            assert Matches(r.rows[|m.rows|], h, today);
          }
        } else if h !in init {
          assert h == last;
        }
      }
    }
  }

  /**
   * The statuses after `ensureTodayEntries`: a listed habit without a row
   * today reads 0; every other (habit, date) keeps its status.
   */
  lemma {:induction false} EnsureAllStatus(l: Ledger, hs: seq<HabitId>, today: Day, now: Timestamp, h: HabitId, d: Day)
    ensures LedgerStatus(EnsureAll(l, hs, today, now).rows, h, d)
         == if d == today && h in hs && LedgerStatus(l.rows, h, d).None? then Some(0) else LedgerStatus(l.rows, h, d)
    decreases |hs|
  {
    if hs != [] {
      var init := hs[..|hs| - 1];
      var last := hs[|hs| - 1];
      EnsureAllStatus(l, init, today, now, h, d);
      var m := EnsureAll(l, init, today, now);
      var r := EnsureAll(l, hs, today, now);
      assert forall x :: x in hs <==> x in init || x == last;
      if r != m {
        var e := Entry(m.nextId, last, today, 0, now, None);
        assert r.rows == m.rows + [e];
        if Matches(e, h, d) {
          var q := FindEntry(r.rows, h, d);
          assert Matches(r.rows[|m.rows|], h, d);
          assert forall j :: 0 <= j < |m.rows| ==> r.rows[j] == m.rows[j];
          assert q.Some? && q.value == |m.rows|;
        } else {
          FindPastNonMatching(m.rows, e, h, d);
        }
      }
    }
  }

  /** `ensureTodayEntries` keeps at most one row per (habit, date), and the row ids in order. */
  lemma {:induction false} EnsureAllKeepsUnique(l: Ledger, hs: seq<HabitId>, today: Day, now: Timestamp)
    requires UniqueLedger(l.rows) && RowIdsOk(l)
    ensures UniqueLedger(EnsureAll(l, hs, today, now).rows) && RowIdsOk(EnsureAll(l, hs, today, now))
    decreases |hs|
  {
    if hs != [] {
      var init := hs[..|hs| - 1];
      var last := hs[|hs| - 1];
      EnsureAllKeepsUnique(l, init, today, now);
      var m := EnsureAll(l, init, today, now);
      var r := EnsureAll(l, hs, today, now);
      if r != m {
        forall i, j | 0 <= i < j < |r.rows|
          ensures !Matches(r.rows[j], r.rows[i].habitId, r.rows[i].date)
        {
          if j == |m.rows| {
            assert !Matches(m.rows[i], last, today);
          } else {
            assert r.rows[i] == m.rows[i] && r.rows[j] == m.rows[j];
          }
        }
      }
    }
  }

  /** With a row already there for every listed habit, `ensureTodayEntries` changes nothing. */
  lemma {:induction false} NothingToEnsure(l: Ledger, hs: seq<HabitId>, today: Day, now: Timestamp)
    requires forall h :: h in hs ==> FindEntry(l.rows, h, today).Some?
    ensures EnsureAll(l, hs, today, now) == l
    decreases |hs|
  {
    if hs != [] {
      NothingToEnsure(l, hs[..|hs| - 1], today, now);
    }
  }

  /** `ensureTodayEntries` is idempotent: a second call with the same habits and day inserts nothing. */
  lemma EnsureAllIdempotent(l: Ledger, hs: seq<HabitId>, today: Day, now: Timestamp, later: Timestamp)
    ensures EnsureAll(EnsureAll(l, hs, today, now), hs, today, later) == EnsureAll(l, hs, today, now)
  {
    EnsureAllCovers(l, hs, today, now);
    NothingToEnsure(EnsureAll(l, hs, today, now), hs, today, later);
  }

  /**
   * `ensureTodayEntries` never touches the cache, yet keeps it consistent
   * and keeps every 1 mirrored: it only turns a missing status into 0.
   */
  lemma EnsureAllKeepsInvariants(l: Ledger, heatmap: map<HeatKey, HeatRow>, hs: seq<HabitId>, today: Day, now: Timestamp)
    requires Consistent(l.rows, heatmap) && OnesMirrored(l.rows, heatmap)
    ensures Consistent(EnsureAll(l, hs, today, now).rows, heatmap)
    ensures OnesMirrored(EnsureAll(l, hs, today, now).rows, heatmap)
  {
    var r := EnsureAll(l, hs, today, now).rows;
    forall h: HabitId, d: Day | r == r
      ensures Slot(heatmap, h, d).Some? ==> LedgerStatus(r, h, d) == Slot(heatmap, h, d)
      ensures LedgerStatus(r, h, d) == Some(1) ==> Slot(heatmap, h, d) == Some(1)
    {
      EnsureAllStatus(l, hs, today, now, h, d);
    }
  }

  /**
   * The reverse direction fails: on an empty store, `ensureTodayEntries`
   * leaves a ledger 0 whose slot is null, so the cache is consistent but
   * does not mirror the ledger.
   */
  lemma EnsureLeavesNullSlot(h: HabitId, today: Day, now: Timestamp)
    ensures Consistent(EnsureAll(Ledger([], 1), [h], today, now).rows, map[])
    ensures LedgerStatus(EnsureAll(Ledger([], 1), [h], today, now).rows, h, today) == Some(0)
    ensures Slot(map[], h, today).None?
    ensures !Mirrored(EnsureAll(Ledger([], 1), [h], today, now).rows, map[])
  {
    EnsureAllStatus(Ledger([], 1), [h], today, now, h, today);
    assert h in [h];
  }

  // ---------------------------------------------------------------------
  // ON DELETE CASCADE

  /** The rows the cascade keeps come after the first row when the first row is kept. */
  lemma CascadeAfterFirst(rows: seq<Entry>, h: HabitId, j: int) returns (k: int)
    requires rows != [] && 0 <= j < |CascadeEntries(rows[1..], h)|
    ensures 0 < k < |rows| && rows[k] == CascadeEntries(rows[1..], h)[j]
  {
    var rest := rows[1..];
    var c := CascadeEntries(rest, h);
    var k' :| 0 <= k' < |rest| && rest[k'] == c[j];
    assert rows[k' + 1] == c[j];
    k := k' + 1;
  }

  /** The cascade keeps at most one row per (habit, date). */
  lemma {:induction false} CascadeKeepsUnique(rows: seq<Entry>, h: HabitId)
    requires UniqueLedger(rows)
    ensures UniqueLedger(CascadeEntries(rows, h))
    decreases |rows|
  {
    if rows != [] {
      var rest := rows[1..];
      assert UniqueLedger(rest) by {
        assert forall k :: 0 <= k < |rest| ==> rest[k] == rows[k + 1];
      }
      CascadeKeepsUnique(rest, h);
      var c := CascadeEntries(rest, h);
      if !EntryOf(rows[0], h) {
        var r := CascadeEntries(rows, h);
        assert r == [rows[0]] + c;
        forall i, j | 0 <= i < j < |r|
          ensures !Matches(r[j], r[i].habitId, r[i].date)
        {
          if i == 0 {
            var k := CascadeAfterFirst(rows, h, j - 1);
          } else {
            assert r[i] == c[i - 1] && r[j] == c[j - 1];
          }
        }
      }
    }
  }

  predicate IdsIncrease(rows: seq<Entry>) {
    forall i, j :: 0 <= i < j < |rows| ==> rows[i].id < rows[j].id
  }

  lemma {:induction false} CascadeKeepsIncrease(rows: seq<Entry>, h: HabitId)
    requires IdsIncrease(rows)
    ensures IdsIncrease(CascadeEntries(rows, h))
    decreases |rows|
  {
    if rows != [] {
      var rest := rows[1..];
      assert IdsIncrease(rest) by {
        assert forall k :: 0 <= k < |rest| ==> rest[k] == rows[k + 1];
      }
      CascadeKeepsIncrease(rest, h);
      var c := CascadeEntries(rest, h);
      if !EntryOf(rows[0], h) {
        var r := [rows[0]] + c;
        assert CascadeEntries(rows, h) == r;
        forall i, j | 0 <= i < j < |r|
          ensures r[i].id < r[j].id
        {
          if i == 0 {
            var k := CascadeAfterFirst(rows, h, j - 1);
          } else {
            assert r[i] == c[i - 1] && r[j] == c[j - 1];
          }
        }
      }
    }
  }

  /** The cascade keeps the row ids in order. */
  lemma CascadeKeepsRowIds(l: Ledger, h: HabitId)
    requires RowIdsOk(l)
    ensures RowIdsOk(Ledger(CascadeEntries(l.rows, h), l.nextId))
  {
    assert IdsIncrease(l.rows);
    CascadeKeepsIncrease(l.rows, h);
  }

  /**
   * After the cascade habit h has no status left and every other habit
   * keeps its statuses.
   */
  lemma CascadeStatus(rows: seq<Entry>, h: HabitId, h': HabitId, d: Day)
    requires UniqueLedger(rows)
    ensures LedgerStatus(CascadeEntries(rows, h), h', d) == if h' == h then None else LedgerStatus(rows, h', d)
  {
    var c := CascadeEntries(rows, h);
    var p := FindEntry(c, h', d);
    if p.Some? {
      assert c[p.value] in rows;
      var j :| 0 <= j < |rows| && rows[j] == c[p.value];
      StatusOfUnique(rows, j);
    } else if h' != h {
      CascadeKeepsOthers(rows, h);
      assert forall j :: 0 <= j < |rows| && Matches(rows[j], h', d) ==> rows[j] in c;
    }
  }

  /** The cascade keeps the cache well keyed, consistent with the ledger and every 1 mirrored. */
  lemma CascadeKeepsInvariants(rows: seq<Entry>, heatmap: map<HeatKey, HeatRow>, h: HabitId)
    requires UniqueLedger(rows) && WellKeyed(heatmap)
    requires Consistent(rows, heatmap) && OnesMirrored(rows, heatmap)
    ensures WellKeyed(CascadeHeatmap(heatmap, h))
    ensures Consistent(CascadeEntries(rows, h), CascadeHeatmap(heatmap, h))
    ensures OnesMirrored(CascadeEntries(rows, h), CascadeHeatmap(heatmap, h))
  {
    var r := CascadeEntries(rows, h);
    var m := CascadeHeatmap(heatmap, h);
    forall h': HabitId, d: Day | m == m
      ensures Slot(m, h', d).Some? ==> LedgerStatus(r, h', d) == Slot(m, h', d)
      ensures LedgerStatus(r, h', d) == Some(1) ==> Slot(m, h', d) == Some(1)
    {
      CascadeStatus(rows, h, h', d);
    }
  }
}
