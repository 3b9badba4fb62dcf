/**
 * services/migrations/001_init.ts: the shapes and constraints of the three
 * tables the app writes (`habits`, `habits_entry`, `habit_heatmap`) and the
 * `migrations` record. Dates are day numbers (see Calendar); the TEXT
 * `YYYY-MM-DD` columns are `Format(FromDay(_))` of them, and timestamps are
 * opaque clock values.
 */
module Schema {
  import opened Wrappers
  import opened Calendar

  type HabitId = int
  type Timestamp = int

  /** `status INTEGER NOT NULL CHECK (status IN (0, 1))`. */
  predicate StatusAllowed(x: int) {
    x == 0 || x == 1
  }

  type Status = x: int | StatusAllowed(x)

  /** A heatmap slot: a status, or JSON `null` when nothing was toggled that day. */
  type Cell = Option<Status>

  /** `frequency TEXT CHECK (frequency IN ('daily', 'weekly', 'monthly', 'custom'))`. */
  datatype Frequency = Daily | Weekly | Monthly | Custom

  function FrequencyName(f: Frequency): (s: string)
    ensures s in {"daily", "weekly", "monthly", "custom"}
  {
    match f
    case Daily => "daily"
    case Weekly => "weekly"
    case Monthly => "monthly"
    case Custom => "custom"
  }

  /** The CHECK on `frequency`: a text is admitted exactly when it names a frequency. */
  function ParseFrequency(s: string): (r: Option<Frequency>)
    ensures r.Some? ==> FrequencyName(r.value) == s
    ensures r.Some? <==> s in {"daily", "weekly", "monthly", "custom"}
  {
    if s == "daily" then Some(Daily)
    else if s == "weekly" then Some(Weekly)
    else if s == "monthly" then Some(Monthly)
    else if s == "custom" then Some(Custom)
    else None
  }

  lemma ParseFrequencyName(f: Frequency)
    ensures ParseFrequency(FrequencyName(f)) == Some(f)
  {
  }

  /**
   * A row of `habits`. `name` and `created_at` are NOT NULL; the nullable
   * columns are always written with a value by the app, so they are plain
   * fields here; `active` holds 1 or 0 and is a bool.
   */
  datatype Habit = Habit(
    id: HabitId,
    name: string,
    description: string,
    icon: string,
    color: string,
    createdAt: Timestamp,
    frequency: Frequency,
    target: int,
    active: bool,
    order: int)

  /** A row of `habits_entry`: one user interaction with a habit on a date. */
  datatype Entry = Entry(
    id: int,
    habitId: HabitId,
    date: Day,
    status: Status,
    createdAt: Timestamp,
    updatedAt: Option<Timestamp>)

  /** The primary key `(habit_id, week_start)` of `habit_heatmap`. */
  datatype HeatKey = HeatKey(habitId: HabitId, weekStart: Day)

  /** A row of `habit_heatmap` without its key: the decoded `statuses` JSON array. */
  datatype HeatRow = HeatRow(statuses: seq<Cell>, updatedAt: Timestamp)

  /**
   * The only key on `habits_entry` is the row id; `idx_entry_habit_date` is a
   * plain index, so the schema admits an entry whatever the ledger holds.
   */
  predicate EntryInsertAllowed(entries: seq<Entry>, e: Entry) {
    forall i :: 0 <= i < |entries| ==> entries[i].id != e.id
  }

  /** The primary key of `habit_heatmap` refuses a second row for the same (habit, week). */
  predicate HeatInsertAllowed(heatmap: map<HeatKey, HeatRow>, k: HeatKey) {
    k !in heatmap
  }

  /** Two rows for the same (habit, date) pass the schema: uniqueness is up to the code. */
  lemma SchemaAdmitsDuplicateEntries(e: Entry, id: int)
    requires id != e.id
    ensures EntryInsertAllowed([e], e.(id := id))
  {
  }

  /** A habit row, an entry row or a heatmap row belongs to habit h (the `FOREIGN KEY`s). */
  predicate EntryOf(e: Entry, h: HabitId) {
    e.habitId == h
  }

  /**
   * `ON DELETE CASCADE` on both child tables: deleting habit h removes its
   * entries and its heatmap rows. Whether it takes effect depends on SQLite's
   * foreign-key enforcement, so callers pass it as a flag.
   */
  function CascadeEntries(entries: seq<Entry>, h: HabitId): (r: seq<Entry>)
    ensures |r| <= |entries|
    ensures forall i :: 0 <= i < |r| ==> r[i] in entries && !EntryOf(r[i], h)
  {
    if entries == [] then []
    else if EntryOf(entries[0], h) then CascadeEntries(entries[1..], h)
    else [entries[0]] + CascadeEntries(entries[1..], h)
  }

  /** The cascade removes only rows of h: every other row survives. */
  lemma {:induction false} CascadeKeepsOthers(entries: seq<Entry>, h: HabitId)
    ensures forall e :: e in entries && !EntryOf(e, h) ==> e in CascadeEntries(entries, h)
    decreases |entries|
  {
    if entries != [] {
      CascadeKeepsOthers(entries[1..], h);
      assert forall e :: e in entries ==> e == entries[0] || e in entries[1..];
    }
  }

  function CascadeHeatmap(heatmap: map<HeatKey, HeatRow>, h: HabitId): (r: map<HeatKey, HeatRow>)
    ensures forall k :: k in r <==> k in heatmap && k.habitId != h
    ensures forall k :: k in r ==> r[k] == heatmap[k]
  {
    map k | k in heatmap && k.habitId != h :: heatmap[k]
  }

  /** `CREATE TABLE migrations (version INTEGER PRIMARY KEY)` and the one row the script inserts. */
  const SchemaVersion: int := 1
}
