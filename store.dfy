/**
 * The app's SQLite database as one object: the `habits` table in row-id
 * order, the `habits_entry` ledger, the `habit_heatmap` cache keyed by
 * (habit, Monday), and the two AUTOINCREMENT counters. Its methods are the
 * writes of hooks/useToggle.ts, hooks/useHabitEntriesByPeriod.ts and
 * hooks/useHabits.ts, run one at a time.
 */
module Store {
  import opened Wrappers
  import opened Calendar
  import opened Schema
  import opened Ledger
  import opened Registry
  import opened TodayEntries

  /** What the toggle mutation resolves with: the caller's own arguments. */
  datatype ToggleEcho = ToggleEcho(habitId: HabitId, date: Day, status: Cell)

  /** The `habits` half of the store invariant: distinct ids, all below the counter. */
  ghost predicate HabitsInv(hs: seq<Habit>, nextHabitId: HabitId) {
    DistinctIds(hs) && forall k :: 0 <= k < |hs| ==> hs[k].id < nextHabitId
  }

  /**
   * The ledger and cache half: at most one row per (habit, date) with ids
   * in row order, every cache row keyed by a Monday with seven slots, every
   * non-null slot equal to its ledger status and every ledger 1 shown.
   */
  ghost predicate LedgerInv(l: Ledger, heatmap: map<HeatKey, HeatRow>) {
    && RowIdsOk(l)
    && UniqueLedger(l.rows)
    && WellKeyed(heatmap)
    && Consistent(l.rows, heatmap)
    && OnesMirrored(l.rows, heatmap)
  }

  lemma ToggleKeepsLedgerInv(l: Ledger, m: map<HeatKey, HeatRow>, h: HabitId, d: Day, s: Status, now: Timestamp)
    requires LedgerInv(l, m)
    ensures LedgerInv(Upsert(l, h, d, s, now), SetSlot(m, h, d, s, now))
  {
    UpsertKeepsUnique(l, h, d, s, now);
    SetSlotEffect(m, h, d, s, now);
    ToggleKeepsInvariants(l, m, h, d, s, now);
  }

  lemma EnsureKeepsLedgerInv(l: Ledger, m: map<HeatKey, HeatRow>, hs: seq<HabitId>, today: Day, now: Timestamp)
    requires LedgerInv(l, m)
    ensures LedgerInv(EnsureAll(l, hs, today, now), m)
  {
    EnsureAllKeepsUnique(l, hs, today, now);
    EnsureAllKeepsInvariants(l, m, hs, today, now);
  }

  lemma CascadeKeepsLedgerInv(l: Ledger, m: map<HeatKey, HeatRow>, h: HabitId)
    requires LedgerInv(l, m)
    ensures LedgerInv(Ledger(CascadeEntries(l.rows, h), l.nextId), CascadeHeatmap(m, h))
  {
    CascadeKeepsUnique(l.rows, h);
    CascadeKeepsRowIds(l, h);
    CascadeKeepsInvariants(l.rows, m, h);
  }

  /** Appending a row with the counter's id and advancing the counter keeps the ids distinct. */
  lemma AppendKeepsHabitsInv(hs: seq<Habit>, n: HabitId, h: Habit)
    requires HabitsInv(hs, n) && h.id == n
    ensures HabitsInv(hs + [h], n + 1)
  {
    var r := hs + [h];
    assert forall k :: 0 <= k < |hs| ==> r[k] == hs[k];
  }

  /** A created row with the counter's id keeps the invariant and is listed last. */
  lemma CreateKeepsHabitsInv(hs: seq<Habit>, n: HabitId, h: Habit)
    requires HabitsInv(hs, n) && h.id == n && h.active
    requires forall x :: x in hs && x.active ==> x.order < h.order
    ensures HabitsInv(hs + [h], n + 1)
    ensures Listing(hs + [h]) == Listing(hs) + [h]
  {
    AppendKeepsHabitsInv(hs, n, h);
    assert forall x :: x in hs ==> x.id != h.id by {
      assert forall k :: 0 <= k < |hs| ==> hs[k].id < h.id;
    }
    NewHabitListedLast(hs, h);
  }

  /** A rewrite that keeps every row's id keeps the habits invariant. */
  lemma SameIdsKeepHabitsInv(hs: seq<Habit>, r: seq<Habit>, n: HabitId)
    requires HabitsInv(hs, n) && |r| == |hs| && forall k :: 0 <= k < |hs| ==> r[k].id == hs[k].id
    ensures HabitsInv(r, n)
  {
  }

  lemma WithoutKeepsHabitsInv(hs: seq<Habit>, n: HabitId, id: HabitId)
    requires HabitsInv(hs, n)
    ensures HabitsInv(Without(hs, id), n)
  {
    WithoutDistinct(hs, id);
    var r := Without(hs, id);
    forall k | 0 <= k < |r|
      ensures r[k].id < n
    {
      assert r[k] in hs;
    }
  }

  class Store {
    var habits: seq<Habit>
    var entries: seq<Entry>
    var heatmap: map<HeatKey, HeatRow>
    var nextHabitId: HabitId
    var nextEntryId: int

    /** The ledger as a value, for the functions of the Ledger module. */
    function LedgerValue(): Ledger
      reads this
    {
      Ledger(entries, nextEntryId)
    }

    /**
     * The invariant every write keeps: habit ids are distinct and below the
     * counter, the ledger has at most one row per (habit, date) with ids
     * in row order, every cache row is keyed by a Monday and holds seven
     * slots, every non-null slot equals its ledger status and every ledger
     * 1 shows in its slot.
     */
    ghost predicate Valid()
      reads this
    {
      HabitsInv(habits, nextHabitId) && LedgerInv(LedgerValue(), heatmap)
    }

    /** A freshly migrated database: three empty tables. */
    constructor ()
      ensures Valid()
      ensures habits == [] && entries == [] && heatmap == map[]
      ensures nextHabitId == 1 && nextEntryId == 1
    {
      habits := [];
      entries := [];
      heatmap := map[];
      nextHabitId := 1;
      nextEntryId := 1;
    }

    /**
     * The toggle mutation: the next status from the caller's believed
     * status, the ledger upsert, then the one-slot write of the week's cache
     * row; it resolves with its own arguments.
     */
    method Toggle(habitId: HabitId, date: Day, status: Cell, now: Timestamp) returns (echo: ToggleEcho)
      requires Valid()
      modifies this
      ensures Valid()
      ensures LedgerValue() == Upsert(old(LedgerValue()), habitId, date, NextStatus(status), now)
      ensures heatmap == SetSlot(old(heatmap), habitId, date, NextStatus(status), now)
      ensures habits == old(habits) && nextHabitId == old(nextHabitId)
      ensures LedgerStatus(entries, habitId, date) == Slot(heatmap, habitId, date) == Some(NextStatus(status))
      ensures echo == ToggleEcho(habitId, date, status)
    {
      var newStatus: Status := if status == Some(1) then 0 else 1;
      ghost var l := LedgerValue();
      ghost var m := heatmap;

      var existing := FindEntry(entries, habitId, date);
      if existing.Some? {
        var i := existing.value;
        entries := entries[i := entries[i].(status := newStatus, updatedAt := Some(now))];
      } else {
        entries := entries + [Entry(nextEntryId, habitId, date, newStatus, now, None)];
        nextEntryId := nextEntryId + 1;
      }

      var weekStart := WeekStart(date);
      var weekdayIndex := Weekday(date) - 1;
      var key := HeatKey(habitId, weekStart);
      var statuses: seq<Cell> := NullWeek;
      if key in heatmap {
        statuses := heatmap[key].statuses;
      }
      statuses := statuses[weekdayIndex := Some(newStatus)];
      heatmap := heatmap[key := HeatRow(statuses, now)];

      assert newStatus == NextStatus(status);
      assert LedgerValue() == Upsert(l, habitId, date, newStatus, now);
      assert heatmap == SetSlot(m, habitId, date, newStatus, now);
      ToggleKeepsLedgerInv(l, m, habitId, date, newStatus, now);
      ToggleKeepsInvariants(l, m, habitId, date, newStatus, now);
      SetSlotEffect(m, habitId, date, newStatus, now);
      echo := ToggleEcho(habitId, date, status);
    }

    /**
     * `ensureTodayEntries`: for each listed habit in turn, insert a status-0
     * row for today when the lookup finds none. The cache is not touched.
     */
    method EnsureTodayEntries(hs: seq<Habit>, today: Day, now: Timestamp)
      requires Valid()
      modifies this
      ensures Valid()
      ensures LedgerValue() == EnsureAll(old(LedgerValue()), Ids(hs), today, now)
      ensures habits == old(habits) && heatmap == old(heatmap) && nextHabitId == old(nextHabitId)
    {
      for i := 0 to |hs|
        invariant LedgerValue() == EnsureAll(old(LedgerValue()), Ids(hs[..i]), today, now)
        invariant habits == old(habits) && heatmap == old(heatmap) && nextHabitId == old(nextHabitId)
      {
        assert Ids(hs[..i + 1]) == Ids(hs[..i]) + [hs[i].id];
        var existing := FindEntry(entries, hs[i].id, today);
        if existing.None? {
          entries := entries + [Entry(nextEntryId, hs[i].id, today, 0, now, None)];
          nextEntryId := nextEntryId + 1;
        }
      }
      assert hs[..|hs|] == hs;
      EnsureKeepsLedgerInv(old(LedgerValue()), heatmap, Ids(hs), today, now);
    }

    /** The habits query: the active habits, `ORDER BY "order" ASC, id DESC`. */
    method ListActive() returns (listed: seq<Habit>)
      requires Valid()
      ensures listed == Listing(habits)
      ensures forall h :: h in listed <==> h in habits && h.active
      ensures StrictlyOrdered(listed) && multiset(listed) == multiset(Active(habits))
    {
      listed := Listing(habits);
      ListingSpec(habits);
    }

    /**
     * Create: a blank name inserts nothing; otherwise one active row with
     * the next id, the defaults for omitted fields and an order one past the
     * largest active order, which lists it last.
     */
    method Create(name: string, description: Option<string>, icon: Option<string>, color: Option<string>,
                  frequency: Option<Frequency>, target: Option<int>, now: Timestamp)
      requires Valid()
      modifies this
      ensures Valid()
      ensures CreateRejects(name) ==> habits == old(habits) && nextHabitId == old(nextHabitId)
      ensures !CreateRejects(name) ==>
        && habits == old(habits) + [NewHabit(old(habits), old(nextHabitId), name, description, icon, color, frequency, target, now)]
        && nextHabitId == old(nextHabitId) + 1
        && Listing(habits) == Listing(old(habits)) + [habits[|habits| - 1]]
      ensures entries == old(entries) && nextEntryId == old(nextEntryId) && heatmap == old(heatmap)
    {
      if Blank(name) {
        return;
      }
      var maxOrder := MaxActiveOrder(habits);
      var h := Habit(nextHabitId, name, description.GetOr(""), icon.GetOr(""), color.GetOr(""), now,
                     frequency.GetOr(Daily), target.GetOr(0), true, maxOrder + 1);
      assert h == NewHabit(habits, nextHabitId, name, description, icon, color, frequency, target, now);
      CreateKeepsHabitsInv(habits, nextHabitId, h);
      habits := habits + [h];
      nextHabitId := nextHabitId + 1;
    }

    /**
     * Update: a non-empty blank name writes nothing, an empty patch writes
     * nothing, otherwise the SET list built from the supplied fields is
     * applied to the row with that id.
     */
    method Update(id: HabitId, p: Patch)
      requires Valid()
      modifies this
      ensures Valid()
      ensures UpdateRejects(p.name) || NoFields(p) ==> habits == old(habits)
      ensures !UpdateRejects(p.name) && !NoFields(p) ==> habits == PatchWhere(old(habits), id, p)
      ensures nextHabitId == old(nextHabitId)
      ensures entries == old(entries) && nextEntryId == old(nextEntryId) && heatmap == old(heatmap)
    {
      if UpdateRejects(p.name) {
        return;
      }
      var updates := BuildUpdate(p);
      if |updates| == 0 {
        return;
      }
      var hs := habits;
      habits := seq(|hs|, k requires 0 <= k < |hs| => if hs[k].id == id then AssignAll(hs[k], updates) else hs[k]);
      assert habits == PatchWhere(hs, id, p);
      SameIdsKeepHabitsInv(hs, habits, nextHabitId);
    }

    /**
     * Reorder: `habitIds[i]` gets order i + 1, one UPDATE per position; an
     * empty list returns at once, which the loop would leave unchanged too.
     */
    method Reorder(habitIds: seq<HabitId>)
      requires Valid()
      modifies this
      ensures Valid()
      ensures habits == Reordered(old(habits), habitIds)
      ensures nextHabitId == old(nextHabitId)
      ensures entries == old(entries) && nextEntryId == old(nextEntryId) && heatmap == old(heatmap)
    {
      if |habitIds| == 0 {
        ReorderedEmpty(habits);
        return;
      }
      for i := 0 to |habitIds|
        invariant habits == Reordered(old(habits), habitIds[..i])
        invariant HabitsInv(habits, nextHabitId)
        invariant nextHabitId == old(nextHabitId)
        invariant entries == old(entries) && nextEntryId == old(nextEntryId) && heatmap == old(heatmap)
      {
        ReorderedStep(old(habits), habitIds[..i], habitIds[i]);
        assert habitIds[..i + 1] == habitIds[..i] + [habitIds[i]];
        SameIdsKeepHabitsInv(habits, WithOrder(habits, habitIds[i], i + 1), nextHabitId);
        habits := WithOrder(habits, habitIds[i], i + 1);
      }
      assert habitIds[..|habitIds|] == habitIds;
    }

    /** Archive: `active = 0` on the row with that id; nothing else changes. */
    method Archive(id: HabitId)
      requires Valid()
      modifies this
      ensures Valid()
      ensures habits == Archived(old(habits), id)
      ensures forall h :: h in Listing(habits) <==> h in Listing(old(habits)) && h.id != id
      ensures Listing(habits) == Without(Listing(old(habits)), id)
      ensures nextHabitId == old(nextHabitId)
      ensures entries == old(entries) && nextEntryId == old(nextEntryId) && heatmap == old(heatmap)
    {
      ArchivedListing(habits, id);
      SameIdsKeepHabitsInv(habits, Archived(habits, id), nextHabitId);
      habits := Archived(habits, id);
    }

    /**
     * Delete: the habit row goes; its entries and cache rows go with it
     * exactly when the foreign-key cascade is in force.
     */
    method Delete(id: HabitId, cascade: bool)
      requires Valid()
      modifies this
      ensures Valid()
      ensures habits == Without(old(habits), id)
      ensures forall h :: h in Listing(habits) <==> h in Listing(old(habits)) && h.id != id
      ensures Listing(habits) == Without(Listing(old(habits)), id)
      ensures cascade ==> entries == CascadeEntries(old(entries), id) && heatmap == CascadeHeatmap(old(heatmap), id)
      ensures !cascade ==> entries == old(entries) && heatmap == old(heatmap)
      ensures nextHabitId == old(nextHabitId) && nextEntryId == old(nextEntryId)
    {
      WithoutKeepsHabitsInv(habits, nextHabitId, id);
      DeletedListing(habits, id);
      habits := Without(habits, id);
      if cascade {
        CascadeKeepsLedgerInv(LedgerValue(), heatmap, id);
        entries := CascadeEntries(entries, id);
        heatmap := CascadeHeatmap(heatmap, id);
      }
    }

    /**
     * The today query: list the active habits, ensure each has a row for
     * today, read each one's latest status for today, then dedup by id.
     * Every listed habit appears once, in listing order, with its status
     * from before the call or 0 when it had none.
     */
    method TodayQuery(today: Day, now: Timestamp) returns (result: seq<HabitWithEntry>)
      requires Valid()
      modifies this
      ensures Valid()
      ensures habits == old(habits) && heatmap == old(heatmap) && nextHabitId == old(nextHabitId)
      ensures LedgerValue() == EnsureAll(old(LedgerValue()), Ids(Listing(habits)), today, now)
      ensures |result| == |Listing(habits)|
      ensures forall k :: 0 <= k < |result| ==>
        && result[k].habit == Listing(habits)[k]
        && result[k].entryDate == Some(today)
        && result[k].entryStatus == Some(old(LedgerStatus(entries, Listing(habits)[k].id, today)).GetOr(0))
    {
      var listed := ListActive();
      ghost var before := entries;
      EnsureTodayEntries(listed, today, now);
      var mapped := TodayRows(Listing(habits), entries, today);
      result := Dedup(mapped);

      ListingDistinct(habits);
      assert DistinctRowIds(mapped);
      FirstPerIdOfDistinct(mapped);
      forall k | 0 <= k < |result|
        ensures result[k].entryStatus == Some(LedgerStatus(before, listed[k].id, today).GetOr(0))
      {
        var h := listed[k].id;
        LatestIsLedgerStatus(entries, h, today);
        assert Ids(listed)[k] == h;
        EnsureAllStatus(old(LedgerValue()), Ids(listed), today, now, h, today);
      }
    }
  }
}
