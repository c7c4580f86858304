/**
 * The state machine the schema editor runs: a reducer over the editing state
 * plus its undo history. Every edit records one undo action; UNDO and REDO
 * replay recorded effects. Unlike the builder service, the reducer checks no
 * index, so its index preconditions are stated in `ReducerDefined`.
 */
module SchemaBuilderReducer {
  import opened Options
  import opened ResultUtil
  import opened Sequences
  import opened SchemaTypes
  import opened SchemaKeys
  import opened UndoActions
  import opened UndoHistoryService
  import SchemaBuilder

  datatype BuilderState = BuilderState(
    name: string,
    fields: seq<FieldDefinition>,
    selectedIndex: Option<int>,
    isDirty: bool,
    history: UndoHistory)

  datatype BuilderAction =
    | SetNameAction(name: string)
    | AddFieldAction(fieldType: FieldType)
    | UpdateFieldAction(index: int, update: FieldUpdate)
    | DeleteFieldAction(index: int)
    | ReorderFieldsAction(fromIndex: int, toIndex: int)
    | SelectFieldAction(selection: Option<int>)
    | DuplicateFieldAction(index: int)
    | LoadSchemaAction(name: string, fields: seq<FieldDefinition>)
    | MarkCleanAction
    | ResetAction
    | UndoRequest
    | RedoRequest

  /** The part of the state that undo and redo restore: the name and the fields. */
  datatype Document = Document(name: string, fields: seq<FieldDefinition>)

  function DocOf(s: BuilderState): Document
  {
    Document(s.name, s.fields)
  }

  /** The six actions that edit the document and record an undo action. */
  predicate IsEdit(action: BuilderAction)
  {
    action.SetNameAction? || action.AddFieldAction? || action.UpdateFieldAction?
    || action.DeleteFieldAction? || action.ReorderFieldsAction? || action.DuplicateFieldAction?
  }

  // ---------------------------------------------------------------------------
  // Replaying recorded actions

  /** The indices an undo of `a` uses are defined on `d`. */
  predicate UndoApplicable(d: Document, a: UndoAction)
  {
    match a
    case Add(_, _) => true
    case Delete(_, i) => 0 <= i <= |d.fields|
    case Update(i, _, _) => 0 <= i < |d.fields|
    case Reorder(f, t) => 0 <= f < |d.fields| && 0 <= t < |d.fields|
    case Duplicate(_, _) => true
    case SetName(_, _) => true
  }

  /** The indices a redo of `a` uses are defined on `d`. */
  predicate RedoApplicable(d: Document, a: UndoAction)
  {
    match a
    case Add(_, i) => 0 <= i <= |d.fields|
    case Delete(_, _) => true
    case Update(i, _, _) => 0 <= i < |d.fields|
    case Reorder(f, t) => 0 <= f < |d.fields| && 0 <= t < |d.fields|
    case Duplicate(i, _) => 0 <= i <= |d.fields|
    case SetName(_, _) => true
  }

  /**
   * The document after undoing `a`: an added or duplicated field is filtered
   * out, a deleted one spliced back, an updated one replaced by its previous
   * value, a move reversed, a name restored.
   */
  function UndoneDocument(d: Document, a: UndoAction): Document
    requires UndoApplicable(d, a)
  {
    match a
    case Add(_, i) => d.(fields := RemoveAt(d.fields, i))
    case Delete(f, i) => d.(fields := InsertAt(d.fields, i, f))
    case Update(i, prev, _) => d.(fields := d.fields[i := prev])
    case Reorder(from, to) => d.(fields := Move(d.fields, to, from))
    case Duplicate(i, _) => d.(fields := RemoveAt(d.fields, i))
    case SetName(prev, _) => d.(name := prev)
  }

  /** The document after redoing `a`: the recorded effect applied again. */
  function RedoneDocument(d: Document, a: UndoAction): Document
    requires RedoApplicable(d, a)
  {
    match a
    case Add(f, i) => d.(fields := InsertAt(d.fields, i, f))
    case Delete(_, i) => d.(fields := RemoveAt(d.fields, i))
    case Update(i, _, nf) => d.(fields := d.fields[i := nf])
    case Reorder(from, to) => d.(fields := Move(d.fields, from, to))
    case Duplicate(i, f) => d.(fields := InsertAt(d.fields, i, f))
    case SetName(_, n) => d.(name := n)
  }

  /**
   * The selection after undoing `a`, given the fields after the undo: an
   * undone add repairs it as a removal does, an undone delete selects the
   * restored index, an undone move only moves a selection on the moved
   * field's new index back, and an undone duplicate moves a selection at or
   * above the copy down by one.
   */
  function UndoSelection(sel: Option<int>, fields: seq<FieldDefinition>, a: UndoAction): Option<int>
  {
    match a
    case Add(_, i) => SchemaBuilder.SelectionAfterRemoval(sel, i, |fields|)
    case Delete(_, i) => Some(i)
    case Update(_, _, _) => sel
    case Reorder(from, to) => if sel == Some(to) then Some(from) else sel
    case Duplicate(i, _) =>
      if sel.Some? && sel.value >= i then Some(if sel.value > i then sel.value - 1 else i - 1) else sel
    case SetName(_, _) => sel
  }

  /**
   * The selection after redoing `a`, given the fields after the redo: a
   * redone add or duplicate selects the inserted index, a redone delete
   * repairs it as a removal does, and a redone move only moves a selection
   * on the moved field's old index.
   */
  function RedoSelection(sel: Option<int>, fields: seq<FieldDefinition>, a: UndoAction): Option<int>
  {
    match a
    case Add(_, i) => Some(i)
    case Delete(_, i) => SchemaBuilder.SelectionAfterRemoval(sel, i, |fields|)
    case Update(_, _, _) => sel
    case Reorder(from, to) => if sel == Some(from) then Some(to) else sel
    case Duplicate(i, _) => Some(i)
    case SetName(_, _) => sel
  }

  /** `applyUndoAction`: undo the document, repair the selection, mark dirty; the history is left alone. */
  function ApplyUndoAction(s: BuilderState, a: UndoAction): (r: BuilderState)
    requires UndoApplicable(DocOf(s), a)
    ensures DocOf(r) == UndoneDocument(DocOf(s), a)
    ensures r.selectedIndex == UndoSelection(s.selectedIndex, r.fields, a)
    ensures r.isDirty && r.history == s.history
  {
    var d := UndoneDocument(DocOf(s), a);
    s.(name := d.name, fields := d.fields, selectedIndex := UndoSelection(s.selectedIndex, d.fields, a), isDirty := true)
  }

  /** `applyRedoAction`: redo the document, repair the selection, mark dirty; the history is left alone. */
  function ApplyRedoAction(s: BuilderState, a: UndoAction): (r: BuilderState)
    requires RedoApplicable(DocOf(s), a)
    ensures DocOf(r) == RedoneDocument(DocOf(s), a)
    ensures r.selectedIndex == RedoSelection(s.selectedIndex, r.fields, a)
    ensures r.isDirty && r.history == s.history
  {
    var d := RedoneDocument(DocOf(s), a);
    s.(name := d.name, fields := d.fields, selectedIndex := RedoSelection(s.selectedIndex, d.fields, a), isDirty := true)
  }

  // ---------------------------------------------------------------------------
  // The reducer

  function LastOf<T>(s: seq<T>): T
    requires s != []
  {
    s[|s| - 1]
  }

  /**
   * What the reducer needs to stay inside the arrays: every index it reads
   * is in range (the source reads `fields[index]` unchecked), and the action
   * UNDO or REDO would replay fits the current fields.
   */
  predicate ReducerDefined(s: BuilderState, action: BuilderAction)
  {
    match action
    case AddFieldAction(_) => |s.fields| < MaxArrayLength
    case UpdateFieldAction(i, _) => 0 <= i < |s.fields|
    case DeleteFieldAction(i) => 0 <= i < |s.fields|
    case ReorderFieldsAction(f, t) => 0 <= f < |s.fields| && 0 <= t < |s.fields|
    case DuplicateFieldAction(i) => 0 <= i < |s.fields|
    case UndoRequest => s.history.past != [] ==> UndoApplicable(DocOf(s), LastOf(s.history.past))
    case RedoRequest => s.history.future != [] ==> RedoApplicable(DocOf(s), s.history.future[0])
    case _ => true
  }

  /** The undo action an edit records. */
  function Recorded(s: BuilderState, action: BuilderAction): (a: UndoAction)
    requires IsEdit(action) && ReducerDefined(s, action)
  {
    match action
    case SetNameAction(n) => SetName(s.name, n)
    case AddFieldAction(t) => Add(NewField(t, KeysOf(s.fields)), |s.fields|)
    case UpdateFieldAction(i, u) => Update(i, s.fields[i], SchemaBuilder.AutoKeyed(s.fields, i, u))
    case DeleteFieldAction(i) => Delete(s.fields[i], i)
    case ReorderFieldsAction(f, t) => Reorder(f, t)
    case DuplicateFieldAction(i) => Duplicate(i + 1, SchemaBuilder.CopyOf(s.fields[i], KeysOf(s.fields)))
  }

  /**
   * `builderReducer`. An edit applies its recorded action forwards (the same
   * effect REDO replays) with the edit's own selection rule, marks the state
   * dirty and pushes the action; UPDATE_FIELD does not check for a duplicate
   * key, and REORDER_FIELDS records a move even when both indices are equal.
   */
  function BuilderReducer(s: BuilderState, action: BuilderAction): BuilderState
    requires ReducerDefined(s, action)
  {
    match action
    case SetNameAction(n) =>
      s.(name := n, isDirty := true, history := PushAction(s.history, Recorded(s, action)))
    case AddFieldAction(_) =>
      var a := Recorded(s, action);
      s.(fields := s.fields + [a.field], selectedIndex := Some(|s.fields|), isDirty := true,
         history := PushAction(s.history, a))
    case UpdateFieldAction(i, _) =>
      var a := Recorded(s, action);
      s.(fields := s.fields[i := a.newField], isDirty := true, history := PushAction(s.history, a))
    case DeleteFieldAction(i) =>
      var fields := RemoveAt(s.fields, i);
      s.(fields := fields, selectedIndex := SchemaBuilder.SelectionAfterRemoval(s.selectedIndex, i, |fields|),
         isDirty := true, history := PushAction(s.history, Recorded(s, action)))
    case ReorderFieldsAction(f, t) =>
      s.(fields := Move(s.fields, f, t), selectedIndex := SchemaBuilder.SelectionAfterMove(s.selectedIndex, f, t),
         isDirty := true, history := PushAction(s.history, Recorded(s, action)))
    case SelectFieldAction(sel) =>
      s.(selectedIndex := sel)
    case DuplicateFieldAction(i) =>
      var a := Recorded(s, action);
      s.(fields := InsertAt(s.fields, i + 1, a.field), selectedIndex := Some(i + 1), isDirty := true,
         history := PushAction(s.history, a))
    case LoadSchemaAction(n, fields) =>
      BuilderState(n, fields, if |fields| > 0 then Some(0) else None, false, CreateDefaultHistory())
    case MarkCleanAction =>
      s.(isDirty := false)
    case ResetAction =>
      InitialState()
    case UndoRequest =>
      var result := Undo(s.history);
      if result.Err? then s else ApplyUndoAction(s, result.value.action).(history := result.value.history)
    case RedoRequest =>
      var result := Redo(s.history);
      if result.Err? then s else ApplyRedoAction(s, result.value.action).(history := result.value.history)
  }

  /** `initialState`: unnamed, empty, nothing selected, clean, with a fresh history. */
  function InitialState(): (s: BuilderState)
    ensures s.name == "" && s.fields == [] && s.selectedIndex == None && !s.isDirty
    ensures s.history == CreateDefaultHistory() && !CanUndo(s.history) && !CanRedo(s.history)
  {
    BuilderState("", [], None, false, CreateDefaultHistory())
  }

  // ---------------------------------------------------------------------------
  // History consistency

  /** Action `a` has just been applied to reach `d`: undoing it is defined and meaningful. */
  predicate AppliedAt(d: Document, a: UndoAction)
  {
    match a
    case Add(f, i) => 0 <= i < |d.fields| && d.fields[i] == f
    case Delete(_, i) => 0 <= i <= |d.fields|
    case Update(i, _, nf) => 0 <= i < |d.fields| && d.fields[i] == nf
    case Reorder(f, t) => 0 <= f < |d.fields| && 0 <= t < |d.fields|
    case Duplicate(i, f) => 1 <= i < |d.fields| && d.fields[i] == f
    case SetName(_, n) => d.name == n
  }

  /** Action `a` can be applied to `d` as recorded: redoing it is defined and meaningful. */
  predicate PendingAt(d: Document, a: UndoAction)
  {
    match a
    case Add(_, i) => 0 <= i <= |d.fields|
    case Delete(f, i) => 0 <= i < |d.fields| && d.fields[i] == f
    case Update(i, prev, _) => 0 <= i < |d.fields| && d.fields[i] == prev
    case Reorder(f, t) => 0 <= f < |d.fields| && 0 <= t < |d.fields|
    case Duplicate(i, _) => 1 <= i <= |d.fields|
    case SetName(p, _) => d.name == p
  }

  /** Undoing the past actions, newest first, walks back through valid documents. */
  predicate PastMatches(d: Document, past: seq<UndoAction>)
    decreases |past|
  {
    past == [] ||
    (AppliedAt(d, LastOf(past)) && PastMatches(UndoneDocument(d, LastOf(past)), past[..|past| - 1]))
  }

  /** Redoing the future actions, next first, walks forward through valid documents. */
  predicate FutureMatches(d: Document, future: seq<UndoAction>)
    decreases |future|
  {
    future == [] ||
    (PendingAt(d, future[0]) && FutureMatches(RedoneDocument(d, future[0]), future[1..]))
  }

  /** The history fits the document: every undo and every redo the stacks hold replays cleanly. */
  predicate Consistent(s: BuilderState)
  {
    PastMatches(DocOf(s), s.history.past) && FutureMatches(DocOf(s), s.history.future)
  }
}
