# Habit tracker: the completion ledger and its weekly cache

The habit tracker is a React Native app that records, on each day, whether a
habit was done. It persists three SQLite tables:

- `habits` is the registry: name, colour, frequency, an `active` flag and a display `"order"`.
- `habits_entry` is the completion ledger: rows of (habit, date, status 0 or 1).
- `habit_heatmap` is a cache with one 7-slot row per (habit, Monday). Each slot
  holds a status, or `null` when nothing was toggled that day.

This project models in Dafny the hooks that write those tables and the views
that read them:

- toggling a day;
- the midnight "ensure today's entries" step;
- the registry operations;
- the today, weekly and monthly queries;
- the cell logic of the weekly and monthly cards;
- the action/confirm sheet state;
- schema-version gating at start-up.

The modules follow the program:

| module | models |
|---|---|
| `Calendar` | proleptic Gregorian civil dates as day numbers, with ISO weekdays (Monday = 1) |
| `DateText` | the `YYYY-MM-DD` text of a date |
| `DateUtils` | `utils/dateUtils.ts` |
| `Schema` | the tables of `services/migrations/001_init.ts` |
| `Ledger` | entry lookup and upsert, heatmap slots, and the cache invariants |
| `Registry` | the `habits` queries and updates of `hooks/useHabits.ts` |
| `Store` | one class over the three tables plus the id counters; its methods are the mutations |
| `TodayEntries` | `useHabitEntriesByPeriod.ts` |
| `WeeklyHeatmap` | `useWeeklyHeatmap.ts` |
| `MonthlyHeatmap` | `useMonthlyHeatmap.ts` |
| `Cards` | shared colours and the toggle call |
| `MonthlyCard` | `MonthlyHabitCard.tsx` |
| `WeeklyCard` | `WeeklyHabitCard.tsx` |
| `HabitActions` | `useHabitActions.ts`, as a pure step function plus a class over its three state fields |
| `Migration` | `services/db.ts` |

Modelling conventions:

- **Dates.** A date is a day number `Day` (0 is 0001-01-01, a Monday). The
  tables are keyed by day number. `DateText.Format` writes the `YYYY-MM-DD` text
  and is injective, so keying by the text and keying by the number agree.
- **Today.** "Today", the current time and timestamps are parameters.
- **Ledger and cache.** The ledger is a sequence in row-id order. The cache is
  a map on its primary key.

The central invariants are the ones the code keeps, not the schema:

- at most one ledger row per (habit, date);
- every non-null cache slot equals the ledger status of its date;
- every status 1 in the ledger is mirrored in the cache.

The reverse of the second invariant does not hold: `ensureTodayEntries`
writes a ledger 0 and leaves the slot null (`Ledger.EnsureLeavesNullSlot`).

## Model

| member | source | states |
|---|---|---|
| Calendar.FromDay | utils/dateUtils.ts:28 | every day number is a valid civil date that maps back to the same day number |
| Calendar.FromDayToDay | utils/dateUtils.ts:28 | a valid civil date survives the round trip through its day number |
| Calendar.ToDayInjective | utils/dateUtils.ts:28 | distinct valid dates have distinct day numbers |
| Calendar.DaysBeforeYearClosedForm | utils/dateUtils.ts:38-42 | days before year y follow the Gregorian leap rule: 365(y-1) + (y-1)/4 - (y-1)/100 + (y-1)/400 |
| Calendar.Weekday | utils/dateUtils.ts:29 | the ISO weekday is in 1..7 and is Monday exactly on multiples of 7 |
| Calendar.AddDays | utils/dateUtils.ts:35-36 | `plus({days: k})` moves the day number by exactly k |
| Calendar.WeekStart | hooks/useToggle.ts:48-50 | `startOf("week")` is a Monday, at most 6 days before the date, and the weekday index is date - weekStart |
| Calendar.MondayOffset | hooks/useToggle.ts:48-50 | a Monday w plus i < 7 days has w as its week start and i as its weekday index |
| Calendar.MonthStartIsFirst | utils/dateUtils.ts:38 | `startOf("month")` is day 1 of the same year and month |
| Calendar.MonthEndIsLast | utils/dateUtils.ts:39 | `endOf("month")` is the last day of the same month; a month has 28 to 31 days |
| Calendar.YearStartIsFirst | utils/dateUtils.ts:41 | `startOf("year")` is 1 January of the same year |
| Calendar.YearEndIsLast | utils/dateUtils.ts:42 | `endOf("year")` is 31 December of the same year |
| Calendar.InMonth | utils/dateUtils.ts:38-39 | every day from month start to month end has the same year and month |
| DateText.Format | utils/dateUtils.ts:28 | `toFormat("yyyy-MM-dd")` gives ten characters: four, two and two digits separated by dashes |
| DateText.Parse | hooks/useToggle.ts:48 | a parsed date is valid and formats back to the parsed text |
| DateText.ParseFormat | hooks/useToggle.ts:48 | parsing the formatted text of a date gives the date back |
| DateText.FormatInjective | utils/dateUtils.ts:28 | distinct dates have distinct texts |
| DateText.FormatOrder | utils/dateUtils.ts:59-62 | string order of two formatted dates is exactly chronological order |
| DateUtils.DaysFromMonday | utils/dateUtils.ts:34 | lies in 0..6, is 6 exactly on Sunday, and is weekday - 1 otherwise |
| DateUtils.GetDateInfo | utils/dateUtils.ts:25-56 | week start is a Monday and week end a Sunday six days later, both around today; month and year bounds enclose today |
| DateUtils.DateInfoWeek | utils/dateUtils.ts:34-35 | the info's week start is today's Monday week start |
| DateUtils.DateInfoCalendar | utils/dateUtils.ts:38-42 | month start and end are the first and last days of today's month; year start and end are 1 January and 31 December |
| DateUtils.IsDatePastOrTodayIsChronological | utils/dateUtils.ts:59-62 | the string comparison holds exactly when the date is on or before today |
| DateUtils.GetWeekDates | utils/dateUtils.ts:65-73 | seven consecutive days, Monday to Sunday, from week start to week end, containing today |
| DateUtils.WeekdayName | utils/dateUtils.ts:76-79 | a three-letter name, "Mon" exactly on Mondays and "Sun" exactly on Sundays |
| Schema.FrequencyName | services/migrations/001_init.ts:20 | each frequency's name is one of the four texts the CHECK constraint accepts |
| Schema.ParseFrequency | services/migrations/001_init.ts:20 | a text parses exactly when it is one of the four CHECK texts, and then it is the name of the frequency it parses to |
| Schema.ParseFrequencyName | services/migrations/001_init.ts:20 | the four names parse back to their frequencies |
| Schema.SchemaAdmitsDuplicateEntries | services/migrations/001_init.ts:28-39 | the schema accepts a second entry for the same habit and date, since the (habit, date) index is not unique |
| Schema.CascadeEntries | services/migrations/001_init.ts:35 | ON DELETE CASCADE leaves no entry of the deleted habit and only entries that were there |
| Schema.CascadeKeepsOthers | services/migrations/001_init.ts:35 | the cascade keeps every entry of every other habit |
| Schema.CascadeHeatmap | services/migrations/001_init.ts:49 | the cascade removes exactly the deleted habit's cache rows and keeps the rest unchanged |
| Ledger.FindEntry | hooks/useToggle.ts:29-32 | `getFirstAsync` finds the first row for (habit, date) in row-id order, or reports that none exists |
| Ledger.LedgerStatus | hooks/useToggle.ts:29-32 | a ledger status exists exactly when a row for (habit, date) exists |
| Ledger.StatusOfUnique | hooks/useToggle.ts:29-32 | in a ledger with one row per (habit, date), each row's status is the ledger status of its key |
| Ledger.NextStatus | hooks/useToggle.ts:22-25 | the new status is 0 exactly when the believed status is 1; null and 0 both give 1 |
| Ledger.UpsertInserts | hooks/useToggle.ts:39-44 | with no row for (habit, date), exactly one row with the new status is appended and the old rows stay |
| Ledger.UpsertUpdates | hooks/useToggle.ts:34-38 | with a row, no row is added; the found row gets the new status and `updated_at`, and all others are unchanged |
| Ledger.UpsertStatus | hooks/useToggle.ts:29-44 | after the upsert, (habit, date) has the new status and every other key keeps its status |
| Ledger.UpsertKeepsUnique | hooks/useToggle.ts:29-44 | the upsert keeps at most one row per (habit, date) and fresh row ids |
| Ledger.SlotOfRow | hooks/useToggle.ts:48-50 | slot i of the row at a Monday week start is the slot of that Monday + i days |
| Ledger.SetSlotEffect | hooks/useToggle.ts:52-75 | a cache row exists afterwards for (habit, week start); slot weekday - 1 is the new status; the other six slots keep their stored values, or null without a row; other rows are unchanged |
| Ledger.SetSlotOthers | hooks/useToggle.ts:62 | the slot of every other (habit, date) is unchanged |
| Ledger.ToggleKeepsInvariants | hooks/useToggle.ts:29-75 | a toggle keeps "every non-null slot equals its ledger status" and "every ledger 1 is in the cache"; afterwards the toggled slot equals the ledger status |
| Ledger.ShownStatusTogglesLikeLedger | hooks/useToggle.ts:22-25 | under the invariants, toggling from the shown slot computes the same new status as toggling from the ledger |
| Ledger.EnsureAllExtends | hooks/useHabitEntriesByPeriod.ts:24-36 | existing rows are kept as they are; each added row is a today row with status 0, for a listed habit, with no `updated_at` |
| Ledger.EnsureAllCovers | hooks/useHabitEntriesByPeriod.ts:24-36 | afterwards every listed habit has a row for today |
| Ledger.EnsureAllStatus | hooks/useHabitEntriesByPeriod.ts:30-35 | today's status becomes 0 only for listed habits without a row; every other status is unchanged |
| Ledger.EnsureAllKeepsUnique | hooks/useHabitEntriesByPeriod.ts:25-36 | the step keeps at most one row per (habit, date) |
| Ledger.NothingToEnsure | hooks/useHabitEntriesByPeriod.ts:25-30 | when every listed habit has a row today, nothing changes |
| Ledger.EnsureAllIdempotent | hooks/useHabitEntriesByPeriod.ts:25-30 | a second run with the same habits and date inserts nothing |
| Ledger.EnsureAllKeepsInvariants | hooks/useHabitEntriesByPeriod.ts:20-38 | without touching the cache, the step keeps both one-way invariants |
| Ledger.EnsureLeavesNullSlot | hooks/useHabitEntriesByPeriod.ts:20-38 | after the step, a ledger 0 coexists with a null slot, so the two-way mirror fails |
| Ledger.CascadeKeepsUnique | services/migrations/001_init.ts:35 | the cascade keeps at most one row per (habit, date) |
| Ledger.CascadeKeepsIncrease | services/migrations/001_init.ts:29 | the cascade keeps row ids increasing |
| Ledger.CascadeKeepsRowIds | services/migrations/001_init.ts:29 | the cascade keeps every row id below the next id |
| Ledger.CascadeStatus | services/migrations/001_init.ts:35 | after the cascade, the deleted habit has no statuses and every other habit keeps its own |
| Ledger.CascadeKeepsInvariants | services/migrations/001_init.ts:35-49 | cascading both tables keeps the cache well keyed and both one-way invariants |
| Registry.TrimStart | hooks/useHabits.ts:46 | the result is a suffix; what was dropped is white space, and the result does not start with white space |
| Registry.TrimEnd | hooks/useHabits.ts:46 | the result is a prefix; what was dropped is white space, and the result does not end with white space |
| Registry.BlankIffAllSpace | hooks/useHabits.ts:46 | `!name.trim()` holds exactly when every character is white space |
| Registry.NameChecks | hooks/useHabits.ts:46-110 | create rejects exactly the all-space names; update rejects a non-empty all-space name, and `""` or no name passes |
| Registry.Ids | hooks/useHabits.ts:22-24 | the listing's ids, position by position |
| Registry.Active | hooks/useHabits.ts:23 | `WHERE active = 1` keeps exactly the active habits |
| Registry.Insert | hooks/useHabits.ts:23 | inserting into the sorted listing adds exactly that habit |
| Registry.SortHabits | hooks/useHabits.ts:23 | the sort is a permutation |
| Registry.SortOrdered | hooks/useHabits.ts:23 | with distinct ids the sort is strictly ordered by `"order"` ASC, then id DESC |
| Registry.ListingSpec | hooks/useHabits.ts:22-24 | the listing is a permutation of the active habits, holds exactly them, and is strictly ordered |
| Registry.OrderedUnique | hooks/useHabits.ts:23 | two strictly ordered permutations of the same habits are equal, so the listing order is determined |
| Registry.ListingDistinct | hooks/useHabits.ts:22-24 | the listing has distinct ids |
| Registry.MaxActiveOrder | hooks/useHabits.ts:54-57 | `COALESCE(MAX("order"), 0)` over active habits: at least every active order, attained by one of them, and 0 with none active |
| Registry.NewHabit | hooks/useHabits.ts:57-72 | the new habit is active, orders after every active habit (1 if none), takes each supplied description, icon, colour, frequency and target, and the defaults `""`, `daily` and 0 for those left out |
| Registry.NewHabitListedLast | hooks/useHabits.ts:53-72 | a habit that orders after every active one is listed last, after the old listing |
| Registry.ActiveAppend | hooks/useHabits.ts:59-72 | appending an active habit appends it to the active habits |
| Registry.BuildUpdate | hooks/useHabits.ts:112-143 | the built assignments are empty exactly when no field is supplied, and applying them sets exactly the supplied fields |
| Registry.AssignAllAppend | hooks/useHabits.ts:113-139 | assignments apply left to right |
| Registry.PatchedKeepsOthers | hooks/useHabits.ts:113-150 | update changes only supplied fields and never id, active, order or created_at; with no fields it is the identity |
| Registry.PatchWhere | hooks/useHabits.ts:147-150 | `WHERE id = ?` patches the rows with that id and leaves the others |
| Registry.WithOrder | hooks/useHabits.ts:206-209 | one reorder UPDATE sets the order of the rows with that id only |
| Registry.Archived | hooks/useHabits.ts:233 | archive clears `active` on that id and changes no other field |
| Registry.ArchivedListing | hooks/useHabits.ts:233 | after archive the listing is exactly the old listing with that id removed, the rest in the same order |
| Registry.Without | hooks/useHabits.ts:252 | delete removes exactly the rows with that id |
| Registry.WithoutDistinct | hooks/useHabits.ts:252 | delete keeps ids distinct |
| Registry.WithoutOrdered | hooks/useHabits.ts:252 | removing rows keeps an ordered sequence ordered |
| Registry.SameMembersSameMultiset | hooks/useHabits.ts:252 | two id-distinct lists with the same members are rearrangements of each other |
| Registry.ListingWithout | hooks/useHabits.ts:233 | a listing whose members are the old listing's minus one id is the old listing with that id removed, in order |
| Registry.DeletedListing | hooks/useHabits.ts:252 | after delete the listing is exactly the old listing with that id removed, the rest in the same order |
| Registry.DistinctCountsOne | hooks/useHabits.ts:23 | with distinct ids no habit occurs twice |
| Registry.DistinctOfSameMultiset | hooks/useHabits.ts:23 | a permutation of a list with distinct ids has distinct ids |
| Registry.LastIndex | hooks/useHabits.ts:205-210 | the last position of an id in the list |
| Registry.Reordered | hooks/useHabits.ts:205-210 | every row keeps all fields but `"order"`, which is set from the list |
| Registry.ReorderedStep | hooks/useHabits.ts:205-210 | the loop's next UPDATE extends the reorder by one id |
| Registry.ReorderedSpec | hooks/useHabits.ts:205-210 | a listed id gets 1 + its last position in the list; an unlisted id keeps its order; nothing else changes |
| Registry.ReorderedEmpty | hooks/useHabits.ts:188-190 | an empty list changes nothing |
| Store.ToggleKeepsLedgerInv | hooks/useToggle.ts:29-75 | a toggle keeps one row per (habit, date), fresh row ids, a well-keyed cache and both one-way invariants |
| Store.EnsureKeepsLedgerInv | hooks/useHabitEntriesByPeriod.ts:24-36 | the ensure step keeps the same invariant |
| Store.CascadeKeepsLedgerInv | services/migrations/001_init.ts:35-49 | the delete cascade keeps the same invariant |
| Store.AppendKeepsHabitsInv | hooks/useHabits.ts:59-72 | appending a row with the next id keeps ids distinct and below the counter |
| Store.CreateKeepsHabitsInv | hooks/useHabits.ts:53-72 | creating keeps the registry invariant and lists the new habit last |
| Store.SameIdsKeepHabitsInv | hooks/useHabits.ts:147-233 | updates that keep every id keep the registry invariant |
| Store.WithoutKeepsHabitsInv | hooks/useHabits.ts:252 | delete keeps the registry invariant |
| Store.Store.constructor | services/migrations/001_init.ts:13-50 | the tables start empty and the row-id counters start at 1 |
| Store.Store.Toggle | hooks/useToggle.ts:20-77 | the ledger is upserted and the cache slot set with the new status; afterwards the ledger status, the slot and the new status agree; the registry is unchanged; the caller's input is echoed |
| Store.Store.EnsureTodayEntries | hooks/useHabitEntriesByPeriod.ts:20-38 | the ledger becomes the ensure step of the old ledger; the cache and registry are unchanged |
| Store.Store.ListActive | hooks/useHabits.ts:22-24 | returns exactly the active habits, strictly ordered, as a permutation of them |
| Store.Store.Create | hooks/useHabits.ts:46-72 | a blank name changes nothing; otherwise one new habit with the next id, listed last; ledger and cache unchanged |
| Store.Store.Update | hooks/useHabits.ts:107-150 | a rejected name or no fields changes nothing; otherwise the row with that id is patched; ledger and cache unchanged |
| Store.Store.Reorder | hooks/useHabits.ts:187-210 | habits become the reorder of the list; ledger and cache unchanged |
| Store.Store.Archive | hooks/useHabits.ts:232-234 | the habit is archived; the new listing is the old one with that habit removed, in order, with nothing else changed |
| Store.Store.Delete | hooks/useHabits.ts:251-253 | the row is removed; the new listing is the old one with that habit removed, in order; entries and cache rows of the habit go only when the cascade is enabled |
| Store.Store.TodayQuery | hooks/useHabitEntriesByPeriod.ts:41-86 | after the ensure step, one row per listed habit in listing order, dated today, with its previous status today or 0 |
| TodayEntries.LatestFrom | hooks/useHabitEntriesByPeriod.ts:58-61 | the `LIMIT 1` subquery picks a matching row that no other matching row sorts before, or none when no row matches |
| TodayEntries.LatestStatus | hooks/useHabitEntriesByPeriod.ts:58-61 | a status is found exactly when a (habit, today) row exists |
| TodayEntries.LatestIsLedgerStatus | hooks/useHabitEntriesByPeriod.ts:58-61 | with one row per (habit, date), the subquery reads the ledger status |
| TodayEntries.TodayRows | hooks/useHabitEntriesByPeriod.ts:54-75 | one row per listed habit, in order, with entry date today and the subquery's status, null when absent |
| TodayEntries.RowIds | hooks/useHabitEntriesByPeriod.ts:78-83 | the ids present in the rows |
| TodayEntries.FirstPerIdSpec | hooks/useHabitEntriesByPeriod.ts:78-85 | the dedup keeps distinct ids, covers every input id, and keeps for each id its first row |
| TodayEntries.FirstPerIdKeepsOrder | hooks/useHabitEntriesByPeriod.ts:78-85 | the dedup is a subsequence of its input: kept rows sit at strictly increasing input positions, each the first position of its id |
| TodayEntries.FirstPerIdOfDistinct | hooks/useHabitEntriesByPeriod.ts:78-85 | on rows with distinct ids the dedup keeps everything |
| TodayEntries.Dedup | hooks/useHabitEntriesByPeriod.ts:78-85 | the `Map` loop computes the first-per-id rows, with distinct and complete ids |
| TodayEntries.ForPeriod | hooks/useHabitEntriesByPeriod.ts:90-95 | every period returns the today query |
| WeeklyHeatmap.JoinWeek | hooks/useWeeklyHeatmap.ts:52-66 | the LEFT JOIN gives one row per listed habit, carrying that week's cache row or NULLs |
| WeeklyHeatmap.Dated | hooks/useWeeklyHeatmap.ts:79-82 | cell i is dated start + i and carries status i |
| WeeklyHeatmap.MapRow | hooks/useWeeklyHeatmap.ts:68-89 | a matched row shows its statuses; an unmatched one shows seven nulls; start date falls back to the current week |
| WeeklyHeatmap.Weekly | hooks/useWeeklyHeatmap.ts:52-89 | one result per listed habit |
| WeeklyHeatmap.WeeklySpec | hooks/useWeeklyHeatmap.ts:52-89 | result k is listed habit k at the current week; cell i is dated week start + i and carries stored slot i, or null with no row |
| WeeklyHeatmap.WeeklyShowsSlots | hooks/useWeeklyHeatmap.ts:70-82 | from a Monday the seven cells are Monday to Sunday, each showing its own date's cache slot |
| WeeklyHeatmap.WeeklyShowsLedger | hooks/useWeeklyHeatmap.ts:70-82 | a non-null weekly cell equals the ledger status of its date |
| MonthlyHeatmap.WeekList | hooks/useMonthlyHeatmap.ts:56-63 | the `while` loop lists first, first + 7, … up to the last week start |
| MonthlyHeatmap.WeekStartMonotone | hooks/useMonthlyHeatmap.ts:48-54 | week start is monotone |
| MonthlyHeatmap.MonthWeeks | hooks/useMonthlyHeatmap.ts:48-63 | the weeks run from the month-start week to the month-end week, are Mondays 7 days apart, and cover every day of the month |
| MonthlyHeatmap.RangeRows | hooks/useMonthlyHeatmap.ts:27-29 | the joined rows of one habit all carry that habit and a week |
| MonthlyHeatmap.RangeRowsSpec | hooks/useMonthlyHeatmap.ts:27-31 | the joined rows are exactly the habit's cache rows with week start in range, ascending by week start |
| MonthlyHeatmap.GroupByHabit | hooks/useMonthlyHeatmap.ts:72-99 | the grouping loop computes the fold of the register/put step over the rows |
| MonthlyHeatmap.FoldAppend | hooks/useMonthlyHeatmap.ts:73-99 | grouping a concatenation groups the first part, then the second |
| MonthlyHeatmap.FoldRegistered | hooks/useMonthlyHeatmap.ts:74-88 | the first row of a habit registers it |
| MonthlyHeatmap.EntriesInSpec | hooks/useMonthlyHeatmap.ts:92-98 | the stored weeks are exactly the habit's cache rows in range, with their statuses |
| MonthlyHeatmap.FoldRange | hooks/useMonthlyHeatmap.ts:92-98 | grouping a habit's rows stores exactly its cache rows in range |
| MonthlyHeatmap.BlockEffect | hooks/useMonthlyHeatmap.ts:72-99 | grouping one habit's block of rows appends its id, records the habit, and stores its weeks |
| MonthlyHeatmap.JoinGroups | hooks/useMonthlyHeatmap.ts:21-99 | grouping the joined rows of the listing gives one group per habit, in listing order, with its weeks in range |
| MonthlyHeatmap.WeekEntries | hooks/useMonthlyHeatmap.ts:103-105 | week i shows the stored statuses, or seven nulls when nothing is stored |
| MonthlyHeatmap.Results | hooks/useMonthlyHeatmap.ts:102-110 | one result per group |
| MonthlyHeatmap.ResultsSpec | hooks/useMonthlyHeatmap.ts:102-110 | the results show, for each listed habit in order, the shared weeks with stored statuses or seven nulls |
| MonthlyHeatmap.Monthly | hooks/useMonthlyHeatmap.ts:44-110 | the weeks cover the month as Mondays 7 days apart; one result per active habit, in listing order, even without cache rows; each week shows its cache row or seven nulls; every habit carries the same weeks |
| MonthlyHeatmap.MonthlyShowsSlots | hooks/useMonthlyHeatmap.ts:103-105 | each monthly cell is the cache slot of its date |
| MonthlyCard.GetColor | components/MonthlyHabitCard.tsx:19-20 | status 1 gives the habit colour or `#40c463`; 0 and null give the cell colour |
| MonthlyCard.SlotOrNull | components/MonthlyHabitCard.tsx:72 | `week[d] ?? null`: the slot when present, otherwise null |
| MonthlyCard.ReferenceMonth | components/MonthlyHabitCard.tsx:55-56 | the month of the middle week start |
| MonthlyCard.ReferenceMonthIsViewedMonth | components/MonthlyHabitCard.tsx:55-56 | for the weeks of a month's view (first and last week of the month, 7 days apart) there are at least four weeks and the reference month is the viewed month |
| MonthlyCard.CellRectSpec | components/MonthlyHabitCard.tsx:58-84 | a cell sits at (d·18, w·18); out of the reference month it is null, transparent and at opacity 0; in the month it carries the slot and its colour at opacity 1 |
| MonthlyCard.GridAppend | components/MonthlyHabitCard.tsx:58-85 | one more week of seven cells extends the grid |
| MonthlyCard.WeekRects | components/MonthlyHabitCard.tsx:64-84 | the inner loop builds the seven cells of week w |
| MonthlyCard.BuildRects | components/MonthlyHabitCard.tsx:43-88 | no starts give no cells; otherwise seven cells per week that has both entries and a start, cell 7w+d being the derived cell |
| MonthlyCard.FirstCovering | components/MonthlyHabitCard.tsx:96-105 | the first week from i whose seven days contain the date, or none |
| MonthlyCard.WeekIndexFor | components/MonthlyHabitCard.tsx:94-106 | the first covering week, else max(0, n - 1) |
| MonthlyCard.FindWeekIndexForDate | components/MonthlyHabitCard.tsx:94-106 | the search loop returns that index |
| MonthlyCard.GetStatusForDate | components/MonthlyHabitCard.tsx:109-116 | null with no weeks or no entries |
| MonthlyCard.StatusOfUncoveredDate | components/MonthlyHabitCard.tsx:104-116 | a date no week covers falls back to the last week and reads its weekday's slot there, null when that week has no entries |
| MonthlyCard.OnPressToday | components/MonthlyHabitCard.tsx:119-124 | the toggle call names the habit and today |
| MonthlyCard.ConsecutiveApart | hooks/useMonthlyHeatmap.ts:60-63 | in consecutive week starts, week i is 7(i - j) days after week j |
| MonthlyCard.StatusOfCoveredDate | components/MonthlyHabitCard.tsx:94-116 | for Monday week starts 7 days apart, a covered date finds its own week; its status is that week's slot and equals the in-month cell's status |
| MonthlyCard.MonthlyStatusIsSlot | components/MonthlyHabitCard.tsx:109-124 | on the monthly result, the status of any day of the month, and the status that pressing it sends, is the cache slot of that day |
| MonthlyCard.MonthlyCellMasking | components/MonthlyHabitCard.tsx:55-84 | on the monthly result, a cell is at opacity 0 exactly when its date is outside the viewed month; then it is null and transparent, otherwise it carries the cache slot of its date |
| WeeklyCard.GetCellColor | components/WeeklyHabitCard.tsx:18-26 | disabled comes first; then status 1 gives a non-empty colour or `#40c463`; anything else gives the checkbox background |
| WeeklyCard.EmptyColorDiffers | components/WeeklyHabitCard.tsx:18-26 | for an empty colour, the weekly card falls back to the default while the monthly card uses the empty colour |
| WeeklyCard.IndexFrom | components/WeeklyHabitCard.tsx:36-41 | the first entry from i dated today, or -1 when there is none |
| WeeklyCard.TodayIndex | components/WeeklyHabitCard.tsx:36-41 | the first entry dated today, or -1 exactly when there is none |
| WeeklyCard.OnPressCell | components/WeeklyHabitCard.tsx:43-54 | nothing for a missing index or a future date; otherwise toggles that cell's date and status |
| WeeklyCard.CurrentWeekCard | components/WeeklyHabitCard.tsx:36-54 | on the current week, today's index is weekday - 1, a cell is in the future exactly after it, and exactly the cells up to today respond to a press |
| WeeklyCard.CheckmarkIffDone | components/WeeklyHabitCard.tsx:101 | under the invariants, a checkmark shows exactly when the ledger status of that day is 1 |
| HabitActions.RunSelection | hooks/useHabitActions.ts:13-44 | after any events the selection is the last opened habit, or the prior selection |
| HabitActions.NeverCleared | hooks/useHabitActions.ts:13-44 | once a habit is selected, no handler clears the selection |
| HabitActions.ConfirmSpec | hooks/useHabitActions.ts:31-44 | at most one callback, on the selected habit; archive exactly for an archive confirm, delete exactly for a delete confirm; with no selection nothing changes; with one the confirm sheet closes |
| HabitActions.ConfirmFlow | hooks/useHabitActions.ts:13-44 | open, choose, confirm calls the chosen callback once on the pressed habit and leaves both sheets closed with the habit selected |
| HabitActions.HabitActions.constructor | hooks/useHabitActions.ts:6-11 | no selection, action sheet closed, confirm hidden with no type |
| HabitActions.HabitActions.OpenActions | hooks/useHabitActions.ts:13-16 | selects the habit and opens the action sheet |
| HabitActions.HabitActions.CloseActions | hooks/useHabitActions.ts:18-20 | closes the action sheet, nothing else |
| HabitActions.HabitActions.ShowConfirm | hooks/useHabitActions.ts:22-25 | closes the action sheet and shows confirm with that type |
| HabitActions.HabitActions.CloseConfirm | hooks/useHabitActions.ts:27-29 | hides confirm and keeps the selection |
| HabitActions.HabitActions.HandleConfirm | hooks/useHabitActions.ts:31-44 | returns the callbacks and makes the state change that the confirm step defines |
| Migration.Exec | services/migrations/001_init.ts:67-70 | a statement fails only when it is the init script and `migrations` already holds version 1 |
| Migration.Plan | services/db.ts:16-39 | nothing runs exactly when the version is at least 1 |
| Migration.RunPlan | services/db.ts:21-39 | the statements run in order and stop at the first failure; success means all ran |
| Migration.MigrateCurrent | services/db.ts:16-18 | at version 1 or above nothing is executed |
| Migration.MissingIsZero | services/db.ts:13 | a missing version runs the version 0 plan |
| Migration.MigrateFresh | services/db.ts:21-39 | version 0 runs WAL, the init script and the version update once, and ends at version 1 |
| Migration.MigrateClash | services/db.ts:21-29 | if `migrations` already records version 1, the init script's insert fails and the version stays 0 |
| Migration.MigrateNegative | services/db.ts:21-39 | a negative version skips init but is still set to 1 |
| Migration.MigrateIdempotent | services/db.ts:16-39 | after a successful run the version is at least 1 and a second run does nothing |
| Migration.Database.constructor | services/db.ts:4 | wraps the given database state with an empty statement log |
| Migration.Database.ExecAsync | services/db.ts:23-39 | runs one statement, logs it and reports whether it succeeded |
| Migration.Database.MigrateDbIfNeeded | services/db.ts:4-40 | the statements it logs, the final state and the result are those of the version-gating plan |

## Left out

- SQL text, the SQLite engine and JSON encoding. The tables are a sequence and
  a map, and the `statuses` column is its decoded sequence of seven cells.
- Clocks. `DateTime.local()` and the `created_at`/`updated_at` texts become
  parameters: "today" is a day number and a timestamp is an opaque integer.
  Time zones, DST and the internals of the Luxon date library are not modelled.
- Dates outside years 1 to 9999, and malformed date strings.
- `getWeekDates` returns day numbers rather than their texts; `DateText.Format`
  gives the text.
- The monthly card's rectangle `dateIso` is a day number, for the same reason.
- The `if (!weekStartIso) continue` guard of the monthly card skips the weeks
  that have no start date (the loop runs over the entries, which may be longer
  than the starts). `BuildRects` models this by building only weeks
  `w < |starts|`. The guard's other case, an empty start text, cannot arise
  with day numbers.
- DateUtils.WeekdayName: states only the Monday and Sunday names, because
  Luxon's `EEE` names come from a locale table.
- Asynchronous execution and atomicity. The two writes of a toggle and all
  other mutations run one at a time, to completion.
- React-query cache invalidation, the `setTimeout` delays and `Alert` calls.
- The `ALTER TABLE` in reorder (`hooks/useHabits.ts:193-202`). It is a no-op
  because the column exists from the first migration.
- Store.Store.Delete: takes the foreign-key cascade as a parameter. The app
  never turns on SQLite foreign-key enforcement, so whether the cascade happens
  is outside the code.
- Row order among habits with equal `"order"` in the weekly and monthly
  queries. Their SQL orders only by `"order"`, while the model uses the
  listing order, `"order"` ASC then id DESC. In the monthly query, rows of
  habits with equal order may interleave; only the order of the results would
  differ.
- `MonthlyCard.GetColor` uses `??`, so an empty colour string is used as is,
  while the weekly card's `||` falls back to the default. Both are modelled as
  written; `WeeklyCard.EmptyColorDiffers` states the difference.
- `utils/getWeekStart.ts`, the overall view, `services/authStorage.ts`, the
  `user`/`subscription_history` tables, and the rendering and navigation
  components. They are UI, unused here, or I/O.
- The `isoTimestamp` field of `getDateInfo` and the `now` it returns are not
  modelled; they are clock values.
