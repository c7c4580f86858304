/** What the reducer promises: undo and redo are round trips, edits record one action each, and more. */
module ReducerProperties {
  import opened Options
  import opened ResultUtil
  import opened Sequences
  import opened SchemaTypes
  import opened SchemaKeys
  import opened UndoActions
  import opened UndoHistoryService
  import SchemaBuilder
  import opened SchemaBuilderReducer

  // ---------------------------------------------------------------------------
  // Round trips on documents

  /** Undoing an applied action leaves it pending, and redoing it restores the document. */
  lemma UndoRedoDocument(d: Document, a: UndoAction)
    requires AppliedAt(d, a)
    ensures PendingAt(UndoneDocument(d, a), a)
    ensures RedoneDocument(UndoneDocument(d, a), a) == d
  {
    match a
    case Add(f, i) => InsertRemove(d.fields, i);
    case Delete(f, i) => RemoveInsert(d.fields, i, f);
    case Update(i, prev, nf) => ReplaceSame(d.fields, i);
    case Reorder(from, to) => MoveBack(d.fields, to, from);
    case Duplicate(i, f) => InsertRemove(d.fields, i);
    case SetName(_, _) =>
  }

  /** Redoing a pending action leaves it applied, and undoing it restores the document. */
  lemma RedoUndoDocument(d: Document, a: UndoAction)
    requires PendingAt(d, a)
    ensures AppliedAt(RedoneDocument(d, a), a)
    ensures UndoneDocument(RedoneDocument(d, a), a) == d
  {
    match a
    case Add(f, i) => RemoveInsert(d.fields, i, f);
    case Delete(f, i) => InsertRemove(d.fields, i);
    case Update(i, prev, nf) => ReplaceSame(d.fields, i);
    case Reorder(from, to) => MoveBack(d.fields, from, to);
    case Duplicate(i, f) => RemoveInsert(d.fields, i, f);
    case SetName(_, _) =>
  }

  // ---------------------------------------------------------------------------
  // Edits

  /**
   * Every edit pushes exactly its recorded action (whose inverse tag the
   * union fixes), empties the redo stack and marks the state dirty.
   */
  lemma EditRecordsOneAction(s: BuilderState, action: BuilderAction)
    requires IsEdit(action) && ReducerDefined(s, action)
    ensures var r := BuilderReducer(s, action);
      && r.history == PushAction(s.history, Recorded(s, action))
      && (s.history.maxSize >= 0 ==> CanUndo(r.history) && LastOf(r.history.past) == Recorded(s, action))
      && !CanRedo(r.history) && r.isDirty
  {
  }

  /** The recorded action is pending on the old document, and redoing it gives the edited one. */
  predicate RecordFits(s: BuilderState, action: BuilderAction)
    requires IsEdit(action) && ReducerDefined(s, action)
  {
    && PendingAt(DocOf(s), Recorded(s, action))
    && AppliedAt(DocOf(BuilderReducer(s, action)), Recorded(s, action))
    && DocOf(BuilderReducer(s, action)) == RedoneDocument(DocOf(s), Recorded(s, action))
  }

  lemma AddRecordFits(s: BuilderState, t: FieldType)
    requires |s.fields| < MaxArrayLength
    ensures RecordFits(s, AddFieldAction(t))
  {
    var a := Recorded(s, AddFieldAction(t));
    assert s.fields + [a.field] == InsertAt(s.fields, |s.fields|, a.field);
  }

  lemma UpdateRecordFits(s: BuilderState, i: int, u: FieldUpdate)
    requires 0 <= i < |s.fields|
    ensures RecordFits(s, UpdateFieldAction(i, u))
  {
  }

  lemma DeleteRecordFits(s: BuilderState, i: int)
    requires 0 <= i < |s.fields|
    ensures RecordFits(s, DeleteFieldAction(i))
  {
  }

  lemma ReorderRecordFits(s: BuilderState, f: int, t: int)
    requires 0 <= f < |s.fields| && 0 <= t < |s.fields|
    ensures RecordFits(s, ReorderFieldsAction(f, t))
  {
  }

  lemma DuplicateRecordFits(s: BuilderState, i: int)
    requires 0 <= i < |s.fields|
    ensures RecordFits(s, DuplicateFieldAction(i))
  {
  }

  /** The recorded action of an edit is applied to the edited document and was pending on the old one. */
  lemma EditMatchesRecord(s: BuilderState, action: BuilderAction)
    requires IsEdit(action) && ReducerDefined(s, action)
    ensures PendingAt(DocOf(s), Recorded(s, action))
    ensures AppliedAt(DocOf(BuilderReducer(s, action)), Recorded(s, action))
    ensures DocOf(BuilderReducer(s, action)) == RedoneDocument(DocOf(s), Recorded(s, action))
  {
    match action
    case SetNameAction(_) =>
    case AddFieldAction(t) => AddRecordFits(s, t);
    case UpdateFieldAction(i, u) => UpdateRecordFits(s, i, u);
    case DeleteFieldAction(i) => DeleteRecordFits(s, i);
    case ReorderFieldsAction(f, t) => ReorderRecordFits(s, f, t);
    case DuplicateFieldAction(i) => DuplicateRecordFits(s, i);
  }

  /**
   * With a non-negative bound, any edit followed by UNDO restores the name and
   * the fields, leaves the state dirty and makes the edit redoable.
   */
  lemma EditThenUndo(s: BuilderState, action: BuilderAction)
    requires IsEdit(action) && ReducerDefined(s, action) && s.history.maxSize >= 0
    ensures var s1 := BuilderReducer(s, action);
      && ReducerDefined(s1, UndoRequest)
      && var s2 := BuilderReducer(s1, UndoRequest);
      && DocOf(s2) == DocOf(s) && s2.isDirty
      && s2.history.future == [Recorded(s, action)]
      && CanRedo(s2.history)
  {
    var a := Recorded(s, action);
    var s1 := BuilderReducer(s, action);
    EditRecordsOneAction(s, action);
    EditMatchesRecord(s, action);
    RedoUndoDocument(DocOf(s), a);
  }

  /** Without eviction, undoing a push restores the undo stack. */
  lemma PushThenUndoHistory(h: UndoHistory, a: UndoAction)
    requires h.maxSize == 0 || |h.past| < h.maxSize
    ensures Undo(PushAction(h, a)).Ok?
    ensures Undo(PushAction(h, a)).value.history.past == h.past
  {
    var full := h.past + [a];
    KeepNewest(full, h.maxSize);
    assert full[..|full| - 1] == h.past;
  }

  /** Without eviction, edit then undo also restores the undo stack. */
  lemma EditThenUndoKeepsPast(s: BuilderState, action: BuilderAction)
    requires IsEdit(action) && ReducerDefined(s, action)
    requires s.history.maxSize == 0 || |s.history.past| < s.history.maxSize
    ensures var s1 := BuilderReducer(s, action);
      ReducerDefined(s1, UndoRequest) && BuilderReducer(s1, UndoRequest).history.past == s.history.past
  {
    var s1 := BuilderReducer(s, action);
    EditRecordsOneAction(s, action);
    EditMatchesRecord(s, action);
    PushThenUndoHistory(s.history, Recorded(s, action));
    UndoStep(s1);
  }

  /** REORDER_FIELDS with equal indices keeps the fields but still records a move and marks the state dirty. */
  lemma ReorderSameIndexRecords(s: BuilderState, i: int)
    requires 0 <= i < |s.fields| && s.history.maxSize >= 0
    ensures var r := BuilderReducer(s, ReorderFieldsAction(i, i));
      && r.fields == s.fields && r.isDirty
      && LastOf(r.history.past) == Reorder(i, i)
      && SchemaBuilder.ReorderField(SchemaBuilder.SchemaBuilderState(s.name, s.fields, s.selectedIndex, s.isDirty), i, i)
         == Ok(SchemaBuilder.SchemaBuilderState(s.name, s.fields, s.selectedIndex, s.isDirty))
  {
    MoveInPlace(s.fields, i);
  }

  /** ADD_FIELD adds a field whose key no existing field has, so distinct keys stay distinct. */
  lemma AddKeyIsFresh(s: BuilderState, t: FieldType)
    requires |s.fields| < MaxArrayLength
    ensures var r := BuilderReducer(s, AddFieldAction(t));
      && |r.fields| == |s.fields| + 1 && LastOf(r.fields).key !in KeysOf(s.fields)
      && (DistinctKeys(s.fields) ==> DistinctKeys(r.fields))
  {
    var f := NewField(t, KeysOf(s.fields));
    var r := BuilderReducer(s, AddFieldAction(t));
    assert r.fields == s.fields + [f];
    if DistinctKeys(s.fields) {
      SchemaBuilder.AppendKeepsDistinct(s.fields, f);
    }
  }

  /** DUPLICATE_FIELD inserts the copy right after the original. */
  lemma DuplicateStep(s: BuilderState, i: int)
    requires 0 <= i < |s.fields|
    ensures BuilderReducer(s, DuplicateFieldAction(i)).fields
            == InsertAt(s.fields, i + 1, SchemaBuilder.CopyOf(s.fields[i], KeysOf(s.fields)))
  {
  }

  /** DUPLICATE_FIELD inserts a copy whose key no existing field has, so distinct keys stay distinct. */
  lemma DuplicateKeyIsFresh(s: BuilderState, i: int)
    requires 0 <= i < |s.fields|
    ensures var r := BuilderReducer(s, DuplicateFieldAction(i));
      && r.fields[i + 1].key !in KeysOf(s.fields)
      && (DistinctKeys(s.fields) ==> DistinctKeys(r.fields))
  {
    var c := SchemaBuilder.CopyOf(s.fields[i], KeysOf(s.fields));
    DuplicateStep(s, i);
    if DistinctKeys(s.fields) {
      SchemaBuilder.InsertKeepsDistinct(s.fields, i + 1, c);
    }
  }

  /**
   * UPDATE_FIELD keeps no duplicate-key guard: an explicit key already used by
   * another field is written as is, where the builder service reports a
   * `DUPLICATE_KEY` error.
   */
  lemma ReducerUpdateAcceptsDuplicateKey(s: BuilderState)
    requires |s.fields| == 2 && s.fields[0].key != s.fields[1].key && s.fields[0].key != ""
    ensures var u := NoUpdate.(key := Set(s.fields[0].key));
      var r := BuilderReducer(s, UpdateFieldAction(1, u));
      && DistinctKeys(s.fields) && !DistinctKeys(r.fields)
      && SchemaBuilder.UpdateField(SchemaBuilder.SchemaBuilderState(s.name, s.fields, s.selectedIndex, s.isDirty), 1, u).Err?
  {
    var k := s.fields[0].key;
    var u := NoUpdate.(key := Set(k));
    assert k in SchemaBuilder.OtherKeys(s.fields, 1) by {
      assert RemoveAt(s.fields, 1) == [s.fields[0]];
      assert KeysOf([s.fields[0]])[0] == k;
    }
    var r := BuilderReducer(s, UpdateFieldAction(1, u));
    assert r.fields[1] == SchemaBuilder.AutoKeyed(s.fields, 1, u);
    assert r.fields[0].key == r.fields[1].key;
  }

  // ---------------------------------------------------------------------------
  // The other actions

  /** SELECT_FIELD changes only the selection; MARK_CLEAN changes only the dirty flag. */
  lemma SelectAndMarkCleanKeepDocument(s: BuilderState, sel: Option<int>)
    ensures var r := BuilderReducer(s, SelectFieldAction(sel));
      DocOf(r) == DocOf(s) && r.history == s.history && r.isDirty == s.isDirty && r.selectedIndex == sel
    ensures var r := BuilderReducer(s, MarkCleanAction);
      DocOf(r) == DocOf(s) && r.history == s.history && r.selectedIndex == s.selectedIndex && !r.isDirty
  {
  }

  /** SELECT_FIELD does not check its index, so it can leave the selection out of range. */
  lemma SelectIsUnchecked(s: BuilderState)
    ensures var r := BuilderReducer(s, SelectFieldAction(Some(|s.fields|)));
      !SchemaBuilder.SelectionValid(r.fields, r.selectedIndex)
  {
  }

  /**
   * LOAD_SCHEMA and RESET start a fresh, empty history and a clean state, so
   * no undo reaches back across them; RESET yields the initial state.
   */
  lemma LoadAndResetStartFresh(s: BuilderState, name: string, fields: seq<FieldDefinition>)
    ensures var r := BuilderReducer(s, LoadSchemaAction(name, fields));
      && r.name == name && r.fields == fields && !r.isDirty
      && r.selectedIndex == (if |fields| > 0 then Some(0) else None)
      && r.history == CreateDefaultHistory() && !CanUndo(r.history) && !CanRedo(r.history)
      && BuilderReducer(r, UndoRequest) == r
    ensures BuilderReducer(s, ResetAction) == InitialState()
    ensures BuilderReducer(BuilderReducer(s, ResetAction), UndoRequest) == InitialState()
  {
  }

  /** UNDO with nothing to undo, and REDO with nothing to redo, return the state unchanged. */
  lemma EmptyStacksChangeNothing(s: BuilderState)
    ensures s.history.past == [] ==> BuilderReducer(s, UndoRequest) == s
    ensures s.history.future == [] ==> BuilderReducer(s, RedoRequest) == s
  {
  }

  // ---------------------------------------------------------------------------
  // Undo and redo

  /** UNDO replays the newest action backwards, moves it to the redo stack and marks the state dirty. */
  lemma UndoStep(s: BuilderState)
    requires s.history.past != [] && ReducerDefined(s, UndoRequest)
    ensures var r := BuilderReducer(s, UndoRequest);
      && DocOf(r) == UndoneDocument(DocOf(s), LastOf(s.history.past))
      && r.history.past == s.history.past[..|s.history.past| - 1]
      && r.history.future == [LastOf(s.history.past)] + s.history.future
      && r.isDirty
  {
  }

  /** REDO replays the next action forwards, moves it to the undo stack and marks the state dirty. */
  lemma RedoStep(s: BuilderState)
    requires s.history.future != [] && ReducerDefined(s, RedoRequest)
    ensures var r := BuilderReducer(s, RedoRequest);
      && DocOf(r) == RedoneDocument(DocOf(s), s.history.future[0])
      && r.history.past == s.history.past + [s.history.future[0]]
      && r.history.future == s.history.future[1..]
      && r.isDirty
  {
  }

  /** UNDO then REDO restores the name, the fields and the history. */
  lemma UndoThenRedo(s: BuilderState)
    requires s.history.past != [] && AppliedAt(DocOf(s), LastOf(s.history.past))
    ensures ReducerDefined(s, UndoRequest)
    ensures var s1 := BuilderReducer(s, UndoRequest);
      && ReducerDefined(s1, RedoRequest)
      && var s2 := BuilderReducer(s1, RedoRequest);
      && DocOf(s2) == DocOf(s) && s2.history == s.history && s2.isDirty
  {
    var a := LastOf(s.history.past);
    UndoRedoDocument(DocOf(s), a);
    RedoAfterUndo(s.history);
  }

  /** REDO then UNDO restores the name, the fields and the history. */
  lemma RedoThenUndo(s: BuilderState)
    requires s.history.future != [] && PendingAt(DocOf(s), s.history.future[0])
    ensures ReducerDefined(s, RedoRequest)
    ensures var s1 := BuilderReducer(s, RedoRequest);
      && ReducerDefined(s1, UndoRequest)
      && var s2 := BuilderReducer(s1, UndoRequest);
      && DocOf(s2) == DocOf(s) && s2.history == s.history && s2.isDirty
  {
    var a := s.history.future[0];
    RedoUndoDocument(DocOf(s), a);
    UndoAfterRedo(s.history);
  }

  /** Undoing a duplicate right after it selects the original field. */
  lemma UndoDuplicateSelectsOriginal(s: BuilderState, i: int)
    requires 0 <= i < |s.fields| && s.history.maxSize >= 0
    ensures var s1 := BuilderReducer(s, DuplicateFieldAction(i));
      && ReducerDefined(s1, UndoRequest)
      && var s2 := BuilderReducer(s1, UndoRequest);
      && s2.selectedIndex == Some(i) && s2.fields[i] == s.fields[i]
  {
    EditThenUndo(s, DuplicateFieldAction(i));
  }

  /** Undoing a delete right after it selects the restored field. */
  lemma UndoDeleteSelectsRestored(s: BuilderState, i: int)
    requires 0 <= i < |s.fields| && s.history.maxSize >= 0
    ensures var s1 := BuilderReducer(s, DeleteFieldAction(i));
      && ReducerDefined(s1, UndoRequest)
      && var s2 := BuilderReducer(s1, UndoRequest);
      && s2.selectedIndex == Some(i) && s2.fields[i] == s.fields[i]
  {
    EditThenUndo(s, DeleteFieldAction(i));
  }

  /** Redoing an add or a duplicate selects the inserted field. */
  lemma RedoInsertSelectsInserted(s: BuilderState)
    requires s.history.future != [] && ReducerDefined(s, RedoRequest)
    requires s.history.future[0].Add? || s.history.future[0].Duplicate?
    ensures var r := BuilderReducer(s, RedoRequest);
      var i := s.history.future[0].insertIndex;
      && r.selectedIndex == Some(i) && SchemaBuilder.SelectionValid(r.fields, r.selectedIndex)
      && r.fields[i] == s.history.future[0].field
  {
  }

  /** REORDER_FIELDS moves the field and lets the selection follow the field it was on. */
  lemma ReorderStep(s: BuilderState, from: int, to: int)
    requires 0 <= from < |s.fields| && 0 <= to < |s.fields|
    ensures var r := BuilderReducer(s, ReorderFieldsAction(from, to));
      && r.fields == Move(s.fields, from, to)
      && multiset(r.fields) == multiset(s.fields)
      && (s.selectedIndex.Some? && 0 <= s.selectedIndex.value < |s.fields| ==>
            r.selectedIndex.Some? && r.fields[r.selectedIndex.value] == s.fields[s.selectedIndex.value])
  {
    MovePermutes(s.fields, from, to);
    if s.selectedIndex.Some? && 0 <= s.selectedIndex.value < |s.fields| {
      MoveAt(s.fields, from, to, s.selectedIndex.value);
    }
  }

  /**
   * Undoing a move only repairs a selection on the moved field's new index:
   * any other selection keeps its index even if the field there has moved.
   */
  lemma UndoReorderSelection(s: BuilderState, from: int, to: int)
    requires s.history.past != [] && LastOf(s.history.past) == Reorder(from, to)
    requires ReducerDefined(s, UndoRequest)
    ensures var r := BuilderReducer(s, UndoRequest);
      && r.fields == Move(s.fields, to, from)
      && r.selectedIndex == (if s.selectedIndex == Some(to) then Some(from) else s.selectedIndex)
  {
  }

  /** With fields a, b, c and b selected, moving a to the end and undoing leaves a selected. */
  lemma UndoReorderKeepsOtherSelection(a: FieldDefinition, b: FieldDefinition, c: FieldDefinition)
    ensures var s := BuilderState("", [a, b, c], Some(1), false, CreateDefaultHistory());
      var s1 := BuilderReducer(s, ReorderFieldsAction(0, 2));
      && s1.selectedIndex == Some(0) && s1.fields[0] == b
      && ReducerDefined(s1, UndoRequest)
      && var s2 := BuilderReducer(s1, UndoRequest);
      && s2.fields == s.fields && s2.selectedIndex == Some(0) && s2.fields[0] == a
  {
    var s := BuilderState("", [a, b, c], Some(1), false, CreateDefaultHistory());
    ReorderStep(s, 0, 2);
    EditThenUndo(s, ReorderFieldsAction(0, 2));
    var s1 := BuilderReducer(s, ReorderFieldsAction(0, 2));
    assert s1.selectedIndex == Some(MovedIndex(0, 2, 1));
    assert s1.history.past == [Reorder(0, 2)];
    UndoReorderSelection(s1, 0, 2);
  }

  // ---------------------------------------------------------------------------
  // Consistency of the history with the document

  /** Dropping the oldest entries of a matching undo stack keeps it matching. */
  lemma {:induction false} PastMatchesSuffix(d: Document, past: seq<UndoAction>, k: nat)
    requires PastMatches(d, past) && k <= |past|
    ensures PastMatches(d, past[k..])
    decreases |past|
  {
    if k < |past| {
      var last := LastOf(past);
      assert LastOf(past[k..]) == last;
      PastMatchesSuffix(UndoneDocument(d, last), past[..|past| - 1], k);
      assert past[k..][..|past[k..]| - 1] == past[..|past| - 1][k..];
    } else {
      assert past[k..] == [];
    }
  }

  /** A consistent state can always undo and redo. */
  lemma ConsistentIsDefined(s: BuilderState)
    requires Consistent(s)
    ensures ReducerDefined(s, UndoRequest) && ReducerDefined(s, RedoRequest)
  {
  }

  /** Undoing keeps a consistent state consistent. */
  lemma UndoKeepsConsistent(s: BuilderState)
    requires Consistent(s)
    ensures ReducerDefined(s, UndoRequest) && Consistent(BuilderReducer(s, UndoRequest))
  {
    var h := s.history;
    if h.past != [] {
      UndoRedoDocument(DocOf(s), LastOf(h.past));
      var r := BuilderReducer(s, UndoRequest);
      assert r.history.future[1..] == h.future;
    }
  }

  /** Redoing keeps a consistent state consistent. */
  lemma RedoKeepsConsistent(s: BuilderState)
    requires Consistent(s)
    ensures ReducerDefined(s, RedoRequest) && Consistent(BuilderReducer(s, RedoRequest))
  {
    var h := s.history;
    if h.future != [] {
      RedoUndoDocument(DocOf(s), h.future[0]);
      var r := BuilderReducer(s, RedoRequest);
      assert r.history.past[..|r.history.past| - 1] == h.past;
    }
  }

  /**
   * Pushing an action that is applied to the new document and whose undo
   * gives back a document the old undo stack fits leaves a history that
   * fits the new document, whatever the bound.
   */
  lemma PushKeepsMatching(d: Document, d1: Document, h: UndoHistory, a: UndoAction)
    requires PastMatches(d, h.past) && AppliedAt(d1, a) && UndoneDocument(d1, a) == d
    ensures PastMatches(d1, PushAction(h, a).past) && FutureMatches(d1, PushAction(h, a).future)
  {
    var full := h.past + [a];
    assert PastMatches(d1, full) by {
      assert LastOf(full) == a && full[..|full| - 1] == h.past;
    }
    PastMatchesSuffix(d1, full, |full| - |PushAction(h, a).past|);
  }

  /** Every edit keeps a consistent state consistent, whatever the bound. */
  lemma EditKeepsConsistent(s: BuilderState, action: BuilderAction)
    requires Consistent(s) && IsEdit(action) && ReducerDefined(s, action)
    ensures Consistent(BuilderReducer(s, action))
  {
    var a := Recorded(s, action);
    var r := BuilderReducer(s, action);
    EditRecordsOneAction(s, action);
    EditMatchesRecord(s, action);
    RedoUndoDocument(DocOf(s), a);
    PushKeepsMatching(DocOf(s), DocOf(r), s.history, a);
  }

  /** Every action keeps the history consistent with the document, so UNDO and REDO stay defined. */
  lemma ReducerKeepsConsistent(s: BuilderState, action: BuilderAction)
    requires Consistent(s) && ReducerDefined(s, action)
    ensures Consistent(BuilderReducer(s, action))
  {
    if IsEdit(action) {
      EditKeepsConsistent(s, action);
    } else if action.UndoRequest? || action.RedoRequest? {
      if action.UndoRequest? {
        UndoKeepsConsistent(s);
      } else {
        RedoKeepsConsistent(s);
      }
    }
  }

  // ---------------------------------------------------------------------------
  // Selection

  /** Every action except SELECT_FIELD keeps a valid selection valid in a consistent state. */
  lemma SelectionStaysValid(s: BuilderState, action: BuilderAction)
    requires Consistent(s) && ReducerDefined(s, action) && !action.SelectFieldAction?
    requires SchemaBuilder.SelectionValid(s.fields, s.selectedIndex)
    ensures var r := BuilderReducer(s, action); SchemaBuilder.SelectionValid(r.fields, r.selectedIndex)
  {
    match action
    case DeleteFieldAction(i) => SchemaBuilder.RemovalSelection(s.fields, s.selectedIndex, i);
    case ReorderFieldsAction(f, t) =>
      if s.selectedIndex.Some? {
        MoveAt(s.fields, f, t, s.selectedIndex.value);
      }
    case UndoRequest =>
      if s.history.past != [] {
        var a := LastOf(s.history.past);
        assert AppliedAt(DocOf(s), a);
        if a.Add? {
          SchemaBuilder.RemovalSelection(s.fields, s.selectedIndex, a.insertIndex);
        }
      }
    case RedoRequest =>
      if s.history.future != [] {
        var a := s.history.future[0];
        assert PendingAt(DocOf(s), a);
        if a.Delete? {
          SchemaBuilder.RemovalSelection(s.fields, s.selectedIndex, a.index);
        }
      }
    case _ =>
  }
}
