/**
 * The one state cell the schema editor dispatches into, with one method per
 * reducer action. Each method changes the state exactly as the reducer does
 * and keeps the history consistent with the document, so UNDO and REDO never
 * leave the arrays.
 */
module BuilderStore {
  import opened Options
  import opened Sequences
  import opened SchemaTypes
  import opened SchemaKeys
  import opened UndoActions
  import opened UndoHistoryService
  import SchemaBuilder
  import opened SchemaBuilderReducer
  import opened ReducerProperties

  class SchemaBuilderStore {
    var state: BuilderState

    /** The history fits the document. */
    ghost predicate Valid()
      reads this
    {
      Consistent(state)
    }

    constructor()
      ensures state == InitialState()
      ensures Valid()
    {
      state := InitialState();
    }

    method SetName(name: string)
      requires Valid()
      modifies this
      ensures state == BuilderReducer(old(state), SetNameAction(name))
      ensures Valid()
    {
      ReducerKeepsConsistent(state, SetNameAction(name));
      state := state.(name := name, isDirty := true,
                      history := PushAction(state.history, UndoActions.SetName(state.name, name)));
    }

    /** ADD_FIELD, running the `createField` search loop. */
    method AddField(fieldType: FieldType)
      requires Valid() && |state.fields| < MaxArrayLength
      modifies this
      ensures state == BuilderReducer(old(state), AddFieldAction(fieldType))
      ensures Valid()
    {
      ReducerKeepsConsistent(state, AddFieldAction(fieldType));
      var field := CreateField(fieldType, KeysOf(state.fields));
      var insertIndex := |state.fields|;
      state := state.(fields := state.fields + [field], selectedIndex := Some(insertIndex), isDirty := true,
                      history := PushAction(state.history, Add(field, insertIndex)));
    }

    method UpdateField(index: int, update: FieldUpdate)
      requires Valid() && 0 <= index < |state.fields|
      modifies this
      ensures state == BuilderReducer(old(state), UpdateFieldAction(index, update))
      ensures Valid()
    {
      ReducerKeepsConsistent(state, UpdateFieldAction(index, update));
      var current := state.fields[index];
      var updated := SchemaBuilder.AutoKeyed(state.fields, index, update);
      state := state.(fields := state.fields[index := updated], isDirty := true,
                      history := PushAction(state.history, Update(index, current, updated)));
    }

    method DeleteField(index: int)
      requires Valid() && 0 <= index < |state.fields|
      modifies this
      ensures state == BuilderReducer(old(state), DeleteFieldAction(index))
      ensures Valid()
    {
      ReducerKeepsConsistent(state, DeleteFieldAction(index));
      var deleted := state.fields[index];
      var fields := RemoveAt(state.fields, index);
      var sel := SchemaBuilder.SelectionAfterRemoval(state.selectedIndex, index, |fields|);
      state := state.(fields := fields, selectedIndex := sel, isDirty := true,
                      history := PushAction(state.history, Delete(deleted, index)));
    }

    method ReorderFields(fromIndex: int, toIndex: int)
      requires Valid() && 0 <= fromIndex < |state.fields| && 0 <= toIndex < |state.fields|
      modifies this
      ensures state == BuilderReducer(old(state), ReorderFieldsAction(fromIndex, toIndex))
      ensures Valid()
    {
      ReducerKeepsConsistent(state, ReorderFieldsAction(fromIndex, toIndex));
      var fields := Move(state.fields, fromIndex, toIndex);
      var sel := SchemaBuilder.SelectionAfterMove(state.selectedIndex, fromIndex, toIndex);
      state := state.(fields := fields, selectedIndex := sel, isDirty := true,
                      history := PushAction(state.history, Reorder(fromIndex, toIndex)));
    }

    method SelectField(selection: Option<int>)
      requires Valid()
      modifies this
      ensures state == BuilderReducer(old(state), SelectFieldAction(selection))
      ensures Valid()
    {
      state := state.(selectedIndex := selection);
    }

    /** DUPLICATE_FIELD, running the copy-key search loop. */
    method DuplicateField(index: int)
      requires Valid() && 0 <= index < |state.fields|
      modifies this
      ensures state == BuilderReducer(old(state), DuplicateFieldAction(index))
      ensures Valid()
    {
      ReducerKeepsConsistent(state, DuplicateFieldAction(index));
      var original := state.fields[index];
      var newKey := FindCopyKey(original.key, KeysOf(state.fields));
      var duplicate := original.(key := newKey, labelText := original.labelText + " (Copy)");
      var insertIndex := index + 1;
      state := state.(fields := InsertAt(state.fields, insertIndex, duplicate), selectedIndex := Some(insertIndex),
                      isDirty := true, history := PushAction(state.history, Duplicate(insertIndex, duplicate)));
    }

    method LoadSchema(name: string, fields: seq<FieldDefinition>)
      modifies this
      ensures state == BuilderReducer(old(state), LoadSchemaAction(name, fields))
      ensures Valid()
    {
      state := BuilderState(name, fields, if |fields| > 0 then Some(0) else None, false, CreateDefaultHistory());
    }

    method MarkClean()
      requires Valid()
      modifies this
      ensures state == BuilderReducer(old(state), MarkCleanAction)
      ensures Valid()
    {
      state := state.(isDirty := false);
    }

    method Reset()
      modifies this
      ensures state == BuilderReducer(old(state), ResetAction)
      ensures Valid()
    {
      state := InitialState();
    }

    /** UNDO: always defined on a valid store. */
    method Undo()
      requires Valid()
      modifies this
      ensures state == BuilderReducer(old(state), UndoRequest)
      ensures Valid()
    {
      ConsistentIsDefined(state);
      ReducerKeepsConsistent(state, UndoRequest);
      var result := UndoHistoryService.Undo(state.history);
      if result.Ok? {
        var next := ApplyUndoAction(state, result.value.action);
        state := next.(history := result.value.history);
      }
    }

    /** REDO: always defined on a valid store. */
    method Redo()
      requires Valid()
      modifies this
      ensures state == BuilderReducer(old(state), RedoRequest)
      ensures Valid()
    {
      ConsistentIsDefined(state);
      ReducerKeepsConsistent(state, RedoRequest);
      var result := UndoHistoryService.Redo(state.history);
      if result.Ok? {
        var next := ApplyRedoAction(state, result.value.action);
        state := next.(history := result.value.history);
      }
    }
  }
}
