/**
 * hooks/useHabitActions.ts: the sheets around a long-pressed habit. The
 * action sheet opens on a habit; choosing archive or delete swaps it for
 * a confirm sheet; confirming calls the matching callback on the selected
 * habit and closes the confirm sheet.
 */
module HabitActions {
  import opened Wrappers
  import opened Schema

  /** `"archive" | "delete"`. */
  datatype ConfirmKind = ArchiveKind | DeleteKind

  /** `confirmSheet`: `{ visible, type }`. */
  datatype ConfirmSheet = ConfirmSheet(visible: bool, kind: Option<ConfirmKind>)

  const ClosedConfirm: ConfirmSheet := ConfirmSheet(false, None)

  /** The hook's three pieces of state. */
  datatype Sheets = Sheets(selected: Option<Habit>, actionSheetOpen: bool, confirm: ConfirmSheet)

  /** The state of a fresh hook. */
  const Initial: Sheets := Sheets(None, false, ClosedConfirm)

  /** A handler call; `Confirm` says which of the optional callbacks were passed. */
  datatype Event =
    | OpenActions(habit: Habit)
    | CloseActions
    | ShowConfirm(kind: ConfirmKind)
    | CloseConfirm
    | Confirm(hasArchive: bool, hasDelete: bool)

  /** A callback invocation made by `handleConfirm`. */
  datatype Callback = OnArchive(habit: Habit) | OnDelete(habit: Habit)

  /** The state after one handler call. */
  function Apply(s: Sheets, e: Event): Sheets {
    match e
    case OpenActions(h) => s.(selected := Some(h), actionSheetOpen := true)
    case CloseActions => s.(actionSheetOpen := false)
    case ShowConfirm(k) => s.(actionSheetOpen := false, confirm := ConfirmSheet(true, Some(k)))
    case CloseConfirm => s.(confirm := ClosedConfirm)
    case Confirm(_, _) => if s.selected.None? then s else s.(confirm := ClosedConfirm)
  }

  /** The callbacks one handler call makes: only `handleConfirm` makes any. */
  function Calls(s: Sheets, e: Event): seq<Callback> {
    match e
    case Confirm(hasArchive, hasDelete) =>
      if s.selected.None? then []
      else if s.confirm.kind == Some(ArchiveKind) then (if hasArchive then [OnArchive(s.selected.value)] else [])
      else if s.confirm.kind == Some(DeleteKind) then (if hasDelete then [OnDelete(s.selected.value)] else [])
      else []
    case _ => []
  }

  /** The state after a run of handler calls. */
  function Run(s: Sheets, events: seq<Event>): Sheets
    decreases |events|
  {
    if events == [] then s else Run(Apply(s, events[0]), events[1..])
  }

  /** The habit of the last `openActions` of a run, if any. */
  function LastOpened(events: seq<Event>): (h: Option<Habit>)
    decreases |events|
  {
    if events == [] then None
    else
      var rest := LastOpened(events[1..]);
      if rest.Some? then rest
      else if events[0].OpenActions? then Some(events[0].habit)
      else None
  }

  /**
   * The selection after a run is the habit of its last `openActions`, or
   * the selection before the run when it has none: no handler clears it.
   */
  lemma {:induction false} RunSelection(s: Sheets, events: seq<Event>)
    ensures Run(s, events).selected == if LastOpened(events).Some? then LastOpened(events) else s.selected
    decreases |events|
  {
    if events != [] {
      RunSelection(Apply(s, events[0]), events[1..]);
    }
  }

  /** Once a habit is selected, some habit stays selected whatever handlers run. */
  lemma NeverCleared(s: Sheets, events: seq<Event>)
    requires s.selected.Some?
    ensures Run(s, events).selected.Some?
  {
    RunSelection(s, events);
  }

  /**
   * `handleConfirm` calls at most one callback. With a selection it calls
   * onArchive exactly when the confirm type is archive and onArchive was
   * passed, onDelete exactly when it is delete and onDelete was passed,
   * and closes the confirm sheet; without one it calls nothing and
   * changes nothing, so an open confirm sheet stays open.
   */
  lemma ConfirmSpec(s: Sheets, hasArchive: bool, hasDelete: bool)
    ensures var calls := Calls(s, Confirm(hasArchive, hasDelete));
      && |calls| <= 1
      && (calls == [] || calls[0].habit == s.selected.value)
      && ((exists h :: calls == [OnArchive(h)]) <==> (s.selected.Some? && s.confirm.kind == Some(ArchiveKind) && hasArchive))
    ensures var calls := Calls(s, Confirm(hasArchive, hasDelete));
      (exists h :: calls == [OnDelete(h)]) <==> (s.selected.Some? && s.confirm.kind == Some(DeleteKind) && hasDelete)
    ensures s.selected.None? ==> Apply(s, Confirm(hasArchive, hasDelete)) == s
    ensures s.selected.Some? ==> Apply(s, Confirm(hasArchive, hasDelete)) == s.(confirm := ClosedConfirm)
  {
    var calls := Calls(s, Confirm(hasArchive, hasDelete));
    if s.selected.Some? && s.confirm.kind == Some(ArchiveKind) && hasArchive {
      assert calls == [OnArchive(s.selected.value)];
    }
    if s.selected.Some? && s.confirm.kind == Some(DeleteKind) && hasDelete {
      assert calls == [OnDelete(s.selected.value)];
    }
  }

  /**
   * Long-press, choose, confirm: from any state, the confirm calls the
   * chosen callback once on the pressed habit and leaves both sheets
   * closed with the habit still selected.
   */
  lemma ConfirmFlow(s: Sheets, h: Habit, k: ConfirmKind)
    ensures var chosen := Run(s, [OpenActions(h), ShowConfirm(k)]);
      && chosen == Sheets(Some(h), false, ConfirmSheet(true, Some(k)))
      && Calls(chosen, Confirm(true, true)) == (if k == ArchiveKind then [OnArchive(h)] else [OnDelete(h)])
      && Apply(chosen, Confirm(true, true)) == Sheets(Some(h), false, ClosedConfirm)
  {
    var s1 := Apply(s, OpenActions(h));
    assert [OpenActions(h), ShowConfirm(k)][1..] == [ShowConfirm(k)];
    assert Run(s, [OpenActions(h), ShowConfirm(k)]) == Run(s1, [ShowConfirm(k)]);
    assert Run(s1, [ShowConfirm(k)]) == Run(Apply(s1, ShowConfirm(k)), []);
  }

  /** The hook's state: `useState` cells updated by its handlers. */
  class HabitActions {
    var selectedHabit: Option<Habit>
    var actionSheetOpen: bool
    var confirmSheet: ConfirmSheet

    function State(): Sheets
      reads this
    {
      Sheets(selectedHabit, actionSheetOpen, confirmSheet)
    }

    /** No selection, the action sheet closed, and confirm `{ visible: false, type: null }`. */
    constructor ()
      ensures State() == Initial
    {
      selectedHabit := None;
      actionSheetOpen := false;
      confirmSheet := ClosedConfirm;
    }

    /** `openActions`: select the habit and open the action sheet. */
    method OpenActions(habit: Habit)
      modifies this
      ensures selectedHabit == Some(habit) && actionSheetOpen && confirmSheet == old(confirmSheet)
      ensures State() == Apply(old(State()), Event.OpenActions(habit))
    {
      selectedHabit := Some(habit);
      actionSheetOpen := true;
    }

    /** `closeActions`: close the action sheet. */
    method CloseActions()
      modifies this
      ensures !actionSheetOpen && selectedHabit == old(selectedHabit) && confirmSheet == old(confirmSheet)
      ensures State() == Apply(old(State()), Event.CloseActions)
    {
      actionSheetOpen := false;
    }

    /** `showConfirm`: close the action sheet and show confirm with the type. */
    method ShowConfirm(kind: ConfirmKind)
      modifies this
      ensures !actionSheetOpen && confirmSheet == ConfirmSheet(true, Some(kind)) && selectedHabit == old(selectedHabit)
      ensures State() == Apply(old(State()), Event.ShowConfirm(kind))
    {
      CloseActions();
      confirmSheet := ConfirmSheet(true, Some(kind));
    }

    /** `closeConfirm`: reset confirm, leaving the selection as it is. */
    method CloseConfirm()
      modifies this
      ensures confirmSheet == ClosedConfirm && selectedHabit == old(selectedHabit) && actionSheetOpen == old(actionSheetOpen)
      ensures State() == Apply(old(State()), Event.CloseConfirm)
    {
      confirmSheet := ClosedConfirm;
    }

    /** `handleConfirm(onArchive?, onDelete?)`: the callbacks it calls, in order. */
    method HandleConfirm(hasArchive: bool, hasDelete: bool) returns (calls: seq<Callback>)
      modifies this
      ensures calls == Calls(old(State()), Confirm(hasArchive, hasDelete))
      ensures State() == Apply(old(State()), Confirm(hasArchive, hasDelete))
    {
      calls := [];
      if selectedHabit.None? {
        return;
      }
      if confirmSheet.kind == Some(ArchiveKind) {
        if hasArchive {
          calls := [OnArchive(selectedHabit.value)];
        }
      } else if confirmSheet.kind == Some(DeleteKind) {
        if hasDelete {
          calls := [OnDelete(selectedHabit.value)];
        }
      }
      CloseConfirm();
    }
  }
}
