/**
 * The undo/redo engine: pure operations on an `UndoHistory` value. Undo moves
 * the newest `past` entry to the front of `future`; redo moves it back; a new
 * action clears `future` and trims `past` to the newest `maxSize` entries.
 */
module UndoHistoryService {
  import opened ResultUtil
  import opened UndoActions

  const DefaultMaxSize: int := 50

  /** `createHistory(maxSize)`: an empty history with the given bound. */
  function CreateHistory(maxSize: int): (h: UndoHistory)
    ensures h.past == [] && h.future == [] && h.maxSize == maxSize
  {
    UndoHistory([], [], maxSize)
  }

  /** `createHistory()`: an empty history bounded by 50 actions. */
  function CreateDefaultHistory(): (h: UndoHistory)
    ensures h.past == [] && h.future == [] && h.maxSize == 50
  {
    CreateHistory(DefaultMaxSize)
  }

  /**
   * `s.slice(start)`: a negative start counts from the end and is clamped at
   * the front; a start past the end gives the empty sequence.
   */
  function SliceFrom<T>(s: seq<T>, start: int): (r: seq<T>)
    ensures |r| <= |s| && r == s[|s| - |r|..]
    ensures start >= 0 ==> |r| == if start <= |s| then |s| - start else 0
    ensures start < 0 ==> |r| == if -start <= |s| then -start else |s|
  {
    var from :=
      if start < 0 then (if |s| + start < 0 then 0 else |s| + start)
      else (if start > |s| then |s| else start);
    s[from..]
  }

  /**
   * `slice(-maxSize)`: a positive bound keeps the newest `maxSize` entries,
   * dropping the oldest first; a zero bound (`slice(-0)` is `slice(0)`) keeps
   * everything.
   */
  lemma KeepNewest<T>(s: seq<T>, maxSize: int)
    ensures maxSize > 0 && |s| <= maxSize ==> SliceFrom(s, -maxSize) == s
    ensures maxSize > 0 && |s| > maxSize ==> SliceFrom(s, -maxSize) == s[|s| - maxSize..]
    ensures maxSize == 0 ==> SliceFrom(s, -maxSize) == s
  {
  }

  /** `pushAction`: appends the action to `past`, trims `past` and clears `future`. */
  function PushAction(h: UndoHistory, a: UndoAction): (r: UndoHistory)
    ensures r.future == [] && r.maxSize == h.maxSize
    ensures |r.past| <= |h.past| + 1 && r.past == (h.past + [a])[|h.past| + 1 - |r.past|..]
    ensures h.maxSize >= 0 ==> |r.past| > 0 && r.past[|r.past| - 1] == a
    ensures h.maxSize > 0 ==> |r.past| == if |h.past| + 1 <= h.maxSize then |h.past| + 1 else h.maxSize
    ensures h.maxSize == 0 ==> r.past == h.past + [a]
  {
    UndoHistory(SliceFrom(h.past + [a], -h.maxSize), [], h.maxSize)
  }

  /** The result of a successful undo or redo: the action to replay and the new history. */
  datatype HistoryStep = HistoryStep(action: UndoAction, history: UndoHistory)

  /**
   * `undo`: fails with "Nothing to undo" exactly when `past` is empty;
   * otherwise hands out the newest past action and moves it to the front of `future`.
   */
  function Undo(h: UndoHistory): (r: Result<HistoryStep, string>)
    ensures r.Err? <==> h.past == []
    ensures r.Err? ==> r.error == "Nothing to undo"
    ensures r.Ok? ==> r.value.action == h.past[|h.past| - 1]
    ensures r.Ok? ==> r.value.history.past == h.past[..|h.past| - 1]
    ensures r.Ok? ==> r.value.history.future == [r.value.action] + h.future
    ensures r.Ok? ==> r.value.history.maxSize == h.maxSize
  {
    if |h.past| == 0 then Err("Nothing to undo")
    else
      var action := h.past[|h.past| - 1];
      Ok(HistoryStep(action, h.(past := h.past[..|h.past| - 1], future := [action] + h.future)))
  }

  /**
   * `redo`: fails with "Nothing to redo" exactly when `future` is empty;
   * otherwise hands out the first future action and appends it to `past`.
   */
  function Redo(h: UndoHistory): (r: Result<HistoryStep, string>)
    ensures r.Err? <==> h.future == []
    ensures r.Err? ==> r.error == "Nothing to redo"
    ensures r.Ok? ==> r.value.action == h.future[0]
    ensures r.Ok? ==> r.value.history.past == h.past + [r.value.action]
    ensures r.Ok? ==> r.value.history.future == h.future[1..]
    ensures r.Ok? ==> r.value.history.maxSize == h.maxSize
  {
    if |h.future| == 0 then Err("Nothing to redo")
    else
      var action := h.future[0];
      Ok(HistoryStep(action, h.(past := h.past + [action], future := h.future[1..])))
  }

  /** `canUndo`. */
  predicate CanUndo(h: UndoHistory)
  {
    |h.past| > 0
  }

  /** `canRedo`. */
  predicate CanRedo(h: UndoHistory)
  {
    |h.future| > 0
  }

  /** `canUndo`/`canRedo` say exactly whether `undo`/`redo` succeed. */
  lemma CanUndoRedoExact(h: UndoHistory)
    ensures CanUndo(h) <==> Undo(h).Ok?
    ensures CanRedo(h) <==> Redo(h).Ok?
  {
  }

  /** `clearHistory`: empties both stacks and keeps the bound. */
  function ClearHistory(h: UndoHistory): (r: UndoHistory)
    ensures r.past == [] && r.future == [] && r.maxSize == h.maxSize
    ensures !CanUndo(r) && !CanRedo(r)
  {
    h.(past := [], future := [])
  }

  /** The history holds at most `maxSize` actions in total. */
  predicate Bounded(h: UndoHistory)
  {
    |h.past| + |h.future| <= h.maxSize
  }

  /** With a positive bound every operation keeps the history within it. */
  lemma BoundedPreserved(h: UndoHistory, a: UndoAction)
    requires h.maxSize > 0
    ensures Bounded(PushAction(h, a))
    ensures Bounded(ClearHistory(h))
    ensures Bounded(h) && Undo(h).Ok? ==> Bounded(Undo(h).value.history)
    ensures Bounded(h) && Redo(h).Ok? ==> Bounded(Redo(h).value.history)
  {
  }

  /** With a zero bound nothing is ever trimmed: every pushed action stays. */
  lemma ZeroBoundUnbounded(h: UndoHistory, a: UndoAction)
    requires h.maxSize == 0
    ensures |PushAction(h, a).past| == |h.past| + 1
  {
  }

  /** Redo after undo gives back the original history and the same action. */
  lemma RedoAfterUndo(h: UndoHistory)
    requires h.past != []
    ensures Undo(h).Ok?
    ensures Redo(Undo(h).value.history) == Ok(HistoryStep(Undo(h).value.action, h))
  {
    var step := Undo(h).value;
    assert step.history.past + [step.action] == h.past;
  }

  /** Undo after redo gives back the original history and the same action. */
  lemma UndoAfterRedo(h: UndoHistory)
    requires h.future != []
    ensures Redo(h).Ok?
    ensures Undo(Redo(h).value.history) == Ok(HistoryStep(Redo(h).value.action, h))
  {
    var step := Redo(h).value;
    assert [step.action] + step.history.future == h.future;
  }

  /**
   * `getInverseAction`: add and delete swap into each other, update and
   * setName swap old and new, reorder swaps its indices, duplicate becomes the
   * delete of the copy.
   */
  function GetInverseAction(a: UndoAction): (r: UndoAction)
    ensures TypeOf(r) == InverseType(a)
    ensures a.Add? || a.Delete? || a.Duplicate? ==> r.field == a.field
    ensures a.Add? ==> r.Delete? && r.index == a.insertIndex
    ensures a.Delete? ==> r.Add? && r.insertIndex == a.index
    ensures a.Duplicate? ==> r.Delete? && r.index == a.insertIndex
    ensures a.Update? ==> r.Update? && r.index == a.index && r.previousField == a.newField && r.newField == a.previousField
    ensures a.Reorder? ==> r.Reorder? && r.fromIndex == a.toIndex && r.toIndex == a.fromIndex
    ensures a.SetName? ==> r.SetName? && r.previousName == a.newName && r.newName == a.previousName
  {
    match a
    case Add(f, i) => Delete(f, i)
    case Delete(f, i) => Add(f, i)
    case Update(i, prev, next) => Update(i, next, prev)
    case Reorder(from, to) => Reorder(to, from)
    case Duplicate(i, f) => Delete(f, i)
    case SetName(prev, next) => SetName(next, prev)
  }

  /**
   * Inverting twice gives the action back for every variant but `duplicate`,
   * whose double inverse is an `add` of the same field at the same index.
   */
  lemma InverseInvolution(a: UndoAction)
    ensures !a.Duplicate? ==> GetInverseAction(GetInverseAction(a)) == a
    ensures a.Duplicate? ==> GetInverseAction(GetInverseAction(a)) == Add(a.field, a.insertIndex)
  {
  }
}
