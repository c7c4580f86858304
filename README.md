# Schema builder core of the antechamber console, in Dafny

This project models the editing core of the antechamber web console, the
screen where a user designs an extraction schema: an ordered list of field
definitions, each with a key, a label, a type and options. The model covers:

- **The schema-builder service** (`SchemaBuilder`, `SchemaKeys`, `SchemaTypes`).
  It adds, removes, updates, reorders and duplicates fields in an immutable
  builder state. It derives keys from labels, picks the first free default key
  and the first free copy key, and reports bad indices and duplicate keys as
  validation errors (`ValidationErrors`) inside a `Result` (`ResultUtil`).
- **The undo model and history service** (`UndoActions`, `UndoHistoryService`).
  This is a bounded undo stack with a redo stack, and the inverse of each
  recorded action.
- **The editor's reducer** (`SchemaBuilderReducer`). It applies one action to
  the editor state and records it for undo. UNDO and REDO replay a recorded
  action backwards or forwards.
- **The proofs about the reducer** (`ReducerProperties`). An edit followed by
  UNDO restores the document, and UNDO and REDO cancel each other. The
  history stays *consistent* with the document: every action on the undo
  stack can be undone, and every action on the redo stack can be redone,
  in order. So UNDO and REDO never index outside the field list.
- **The state cell the editor dispatches into** (`BuilderStore`), as a class
  with one method per action. This class runs the key-search loops and keeps
  the consistency invariant.
- **Small helpers:**
  - `truncate` and `getInitials` (`Utils`);
  - the organisation slug (`OrganizationSetup`);
  - the tag-list input (`TagInput`);
  - the command palette's ranking and grouping (`CommandPalette`);
  - the template catalog lookups (`ExampleSchemas`).
  - `Text` and `Sequences` hold the string and list operations they share, written with JavaScript's semantics.

Keys and labels are sequences of characters, indices are unbounded
integers, and a list has at most 2^32 - 1 elements, the longest
JavaScript array.

## Model

| member | source | states |
|---|---|---|
| ResultUtil.OkOf | src/lib/utils/result.ts:48-54 | `ok(v)` is a success holding `v`, and the two flags disagree |
| ResultUtil.ErrOf | src/lib/utils/result.ts:59-65 | `err(e)` is a failure holding `e` |
| ResultUtil.FlagsExclusive | src/lib/utils/result.ts:70-79 | exactly one of `isOk` and `isErr` holds |
| ResultUtil.IsOk | src/lib/utils/result.ts:70-72 | `isOk` reads the success flag; FlagsExclusive states that it holds exactly when `isErr` does not |
| ResultUtil.IsErr | src/lib/utils/result.ts:77-79 | `isErr` reads the failure flag; FlagsExclusive states that it holds exactly when `isOk` does not |
| ResultUtil.Map | src/lib/utils/result.ts:84-92 | maps a success value and passes a failure through unchanged |
| ResultUtil.FlatMap | src/lib/utils/result.ts:97-105 | chains on success and passes a failure through |
| ResultUtil.Unwrap | src/lib/utils/result.ts:113-118 | on a success, returns exactly its value |
| ResultUtil.UnwrapOr | src/lib/utils/result.ts:123-128 | the value on success, the default on failure |
| ResultUtil.MapErr | src/lib/utils/result.ts:133-141 | maps a failure's error and passes a success through |
| ResultUtil.Match | src/lib/utils/result.ts:146-157 | calls the success branch on a success and the failure branch on a failure |
| ResultUtil.MapFunctorLaws | src/lib/utils/result.ts:84-92 | mapping the identity changes nothing; mapping twice equals mapping the composition |
| ResultUtil.FlatMapMonadLaws | src/lib/utils/result.ts:97-105 | left identity, right identity and associativity of `flatMap` |
| ResultUtil.UnwrapOrIsMatch | src/lib/utils/result.ts:123-157 | `unwrapOr` is `match` with the identity and a constant |
| ValidationErrors.CodeName | src/lib/errors/validation-errors.ts:5-10 | each code has a non-empty wire name |
| ValidationErrors.CodeNamesDistinct | src/lib/errors/validation-errors.ts:5-10 | different codes have different wire names |
| ValidationErrors.Duplicate | src/lib/errors/validation-errors.ts:21-27 | code DUPLICATE_KEY; names the field; the message quotes the key |
| ValidationErrors.NotFoundError | src/lib/errors/validation-errors.ts:32-38 | code NOT_FOUND; names the field; the message quotes the key |
| ValidationErrors.InvalidIndexError | src/lib/errors/validation-errors.ts:43-48 | code INVALID_INDEX with no field; the message holds the index and the valid range `(0-(length-1))` |
| ValidationErrors.EmptyValueError | src/lib/errors/validation-errors.ts:53-59 | code EMPTY_VALUE; the message starts with the field name |
| ValidationErrors.CustomError | src/lib/errors/validation-errors.ts:64-70 | code CUSTOM with the given message and optional field |
| SchemaTypes.Patched | src/domain/schema/services/schema-builder.ts:148-150 | an absent update attribute keeps the current value; a present one replaces it |
| SchemaTypes.Merge | src/domain/schema/services/schema-builder.ts:148-150 | the spread `{...field, ...updates}`: each attribute comes from the update when present, otherwise from the field |
| SchemaTypes.MergeLaws | src/domain/schema/services/schema-builder.ts:148-150 | an empty update changes nothing; applying the same update twice equals applying it once |
| SchemaTypes.MergeClears | src/domain/schema/services/schema-builder.ts:148-150 | an update that sets the enum options and source hints to undefined clears them; one that omits them keeps them |
| SchemaTypes.KeysOf | src/domain/schema/services/schema-builder.ts:54 | the keys of the fields, position by position |
| SchemaTypes.KeysOfMembership | src/domain/schema/services/schema-builder.ts:54 | a key is listed iff some field has it |
| SchemaKeys.GenerateKey | src/domain/schema/services/schema-builder.ts:24-30 | lower-case, `[^a-z0-9]+` to `_`, strip one edge `_`, cut at 100; its meaning is stated by GenerateKeyShape, PlainLabelKey, LabelWithNumberKey and the idempotence lemmas |
| SchemaKeys.GenerateKeyShape | src/domain/schema/services/schema-builder.ts:24-30 | a generated key has at most 100 characters from `[a-z0-9_]`, never two `_` in a row, no leading `_`, and no trailing `_` unless the 100-character cut made one |
| SchemaKeys.GenerateKeyIdempotent | src/domain/schema/services/schema-builder.ts:24-30 | a key that does not end in `_` is its own key |
| SchemaKeys.ShortKeyIdempotent | src/domain/schema/services/schema-builder.ts:24-30 | a key shorter than the cut is its own key |
| SchemaKeys.DefaultLabel | src/domain/schema/services/schema-builder.ts:35-44 | each type's default label, `New … Field` |
| SchemaKeys.DefaultLabelsDistinct | src/domain/schema/services/schema-builder.ts:35-44 | different types have different default labels |
| SchemaKeys.PlainLabelKey | src/domain/schema/services/schema-builder.ts:24-30 | a short label that starts and ends in `[a-z0-9]` after lower-casing keys to its lower-cased collapse, with no edge `_` |
| SchemaKeys.LabelWithNumberKey | src/domain/schema/services/schema-builder.ts:24-30 | appending ` n` to such a label appends `_n` to its key |
| SchemaKeys.CandidateKeyForm | src/domain/schema/services/schema-builder.ts:56-62 | the n-th candidate key (n ≥ 2) is the base key, `_` and the number |
| SchemaKeys.CandidateKeyInjective | src/domain/schema/services/schema-builder.ts:56-62 | different counters give different candidate keys |
| SchemaKeys.CandidatesDistinct | src/domain/schema/services/schema-builder.ts:56-62 | the candidates the search tries are pairwise distinct |
| SchemaKeys.CandidatesBound | src/domain/schema/services/schema-builder.ts:56-62 | c taken candidates need at least c existing keys, so the search stops within `length + 1` tries |
| SchemaKeys.FreshCounter | src/domain/schema/services/schema-builder.ts:56-62 | the search counter ends at the first candidate not taken, at most `length + 1` |
| SchemaKeys.DefaultEnumOptions | src/domain/schema/services/schema-builder.ts:72-74 | an enum field starts with `Option 1` and `Option 2`; other types have none |
| SchemaKeys.NewField | src/domain/schema/services/schema-builder.ts:49-77 | the new field's key is free and is derived from its label; its label is the first free candidate; it is optional, with empty instructions, the enum defaults and no other options |
| SchemaKeys.NewFieldForm | src/domain/schema/services/schema-builder.ts:56-68 | the label and key are either the defaults, or the defaults followed by ` n` and `_n` for some n ≥ 2 |
| SchemaKeys.CounterForm | src/domain/schema/services/schema-builder.ts:56-62 | candidate 1 is the bare default; candidate n ≥ 2 carries the number |
| SchemaKeys.CreateField | src/domain/schema/services/schema-builder.ts:49-77 | the `while` search loop returns exactly `NewField` |
| SchemaKeys.CopyKeyInjective | src/domain/schema/services/schema-builder.ts:245-250 | different counters give different `key_copy_n` keys |
| SchemaKeys.CopyCandidatesBound | src/domain/schema/services/schema-builder.ts:245-250 | the copy search stops within `length + 1` tries |
| SchemaKeys.FreshCopyCounter | src/domain/schema/services/schema-builder.ts:245-250 | the copy counter ends at the first free `_copy_n` |
| SchemaKeys.CopyKey | src/domain/schema/services/schema-builder.ts:244-249 | `key_copy` for counter 1 and `key_copy_n` after; its meaning is stated by CopyKeyInjective |
| SchemaKeys.UniqueCopyKey | src/domain/schema/services/schema-builder.ts:245-250 | the copy key is free and is the first free `key_copy_n` |
| SchemaKeys.FindCopyKey | src/domain/schema/services/schema-builder.ts:245-250 | the copy-key `while` loop returns exactly `UniqueCopyKey` |
| SchemaBuilder.OtherKeysMembership | src/domain/schema/services/schema-builder.ts:153-159 | a key is among the other fields' keys iff a field at another index has it |
| SchemaBuilder.AddField | src/domain/schema/services/schema-builder.ts:82-99 | always succeeds; appends exactly the new field, keeps the others and the name, selects the new index, marks dirty; the new key is free, so keys stay distinct |
| SchemaBuilder.RemovalSelection | src/domain/schema/services/schema-builder.ts:116-122 | the repaired selection stays valid; a selection on another field still points at that field; removing the selected field clears the selection only when the list becomes empty |
| SchemaBuilder.SelectionAfterRemoval | src/domain/schema/services/schema-builder.ts:116-122 | the selection after a removal: the removed field's place, clamped to the new end, or none when the list empties; a later one moves down by one; its meaning is stated by RemovalSelection |
| SchemaBuilder.RemoveKeepsDistinct | src/domain/schema/services/schema-builder.ts:104-134 | removing a field keeps keys distinct |
| SchemaBuilder.RemoveField | src/domain/schema/services/schema-builder.ts:104-134 | fails with INVALID_INDEX iff the index is out of range; otherwise returns the removed field, the list without it, the repaired selection and a dirty state |
| SchemaBuilder.AutoKeyed | src/domain/schema/services/schema-builder.ts:148-164 | the merge of the update; when the label changes, the key was auto-generated and no key is given, the key is re-derived from the new label unless another field has that key |
| SchemaBuilder.RekeysFromLabel | src/domain/schema/services/schema-builder.ts:152-156 | holds when the update gives a non-empty label different from the current one and the current key is the one generated from the current label; AutoKeyed and UpdateField state the re-keying it triggers |
| SchemaBuilder.UpdateField | src/domain/schema/services/schema-builder.ts:139-187 | INVALID_INDEX out of range; DUPLICATE_KEY iff a non-empty explicit key belongs to another field; otherwise only that field changes, to `AutoKeyed` |
| SchemaBuilder.DuplicateKeyUpdate | src/domain/schema/services/schema-builder.ts:166-171 | holds when the update gives a non-empty key different from the current one that another field has; UpdateField states that the update fails with DUPLICATE_KEY exactly then |
| SchemaBuilder.UpdateKeepsDistinct | src/domain/schema/services/schema-builder.ts:152-174 | a successful update that does not set the key to empty keeps keys distinct |
| SchemaBuilder.UpdateEmptyKeyMayDuplicate | src/domain/schema/services/schema-builder.ts:166-174 | an explicit empty key skips the duplicate check and can duplicate another field's empty key |
| SchemaBuilder.MoveKeepsDistinct | src/domain/schema/services/schema-builder.ts:208-210 | moving a field keeps keys distinct |
| SchemaBuilder.ReorderField | src/domain/schema/services/schema-builder.ts:192-229 | INVALID_INDEX for the source index first, then the target; equal indices return the state itself; otherwise the move is a permutation, the selection follows its field, and keys stay distinct |
| SchemaBuilder.SelectionAfterMove | src/domain/schema/services/schema-builder.ts:212-221 | the selection after a move: each position goes to its `MovedIndex`; ReorderField and ReorderStep state that it follows the field it was on |
| SchemaBuilder.CopyOf | src/domain/schema/services/schema-builder.ts:252-256 | the copy has the first free copy key and the label with ` (Copy)`, and equals the original otherwise |
| SchemaBuilder.InsertKeepsDistinct | src/domain/schema/services/schema-builder.ts:258-259 | inserting a field with a free key keeps keys distinct |
| SchemaBuilder.DuplicateField | src/domain/schema/services/schema-builder.ts:234-272 | INVALID_INDEX iff out of range; otherwise inserts the copy right after the original, selects it and marks dirty; keys stay distinct |
| SchemaBuilder.SetName | src/domain/schema/services/schema-builder.ts:277-286 | sets the name and marks dirty; fields and selection unchanged |
| SchemaBuilder.SelectField | src/domain/schema/services/schema-builder.ts:291-303 | fails iff an index is given out of range; otherwise only the selection changes |
| SchemaBuilder.LoadSchema | src/domain/schema/services/schema-builder.ts:308-318 | the given name and fields, clean, with the first field selected when there is one |
| SchemaBuilder.MarkClean | src/domain/schema/services/schema-builder.ts:323-328 | clears the dirty flag and nothing else |
| SchemaBuilder.Reset | src/domain/schema/services/schema-builder.ts:333-340 | the empty, clean state with nothing selected |
| SchemaBuilder.SelectionStaysValid | src/domain/schema/services/schema-builder.ts:82-303 | every service operation keeps a valid selection valid, for every name, index, update and selection; loading and resetting give a valid one |
| UndoActions.InverseType | src/domain/undo/models/undo-action.ts:6-43 | the action kind undoing replays: delete for add and duplicate, add for delete, the same kind otherwise |
| UndoActions.AddDuplicateDistinct | src/domain/undo/models/undo-action.ts:7-12 | an add and a duplicate of the same field and index are different actions with the same inverse kind |
| UndoHistoryService.CreateHistory | src/domain/undo/services/undo-history.ts:12-18 | empty stacks with the given bound |
| UndoHistoryService.CreateDefaultHistory | src/domain/undo/services/undo-history.ts:12-18 | empty stacks with bound 50 |
| UndoHistoryService.SliceFrom | src/domain/undo/services/undo-history.ts:29 | `slice(start)`: a suffix, as long as JavaScript makes it for negative and non-negative starts |
| UndoHistoryService.KeepNewest | src/domain/undo/services/undo-history.ts:29 | `slice(-maxSize)` keeps everything when it fits or when the bound is 0, else the newest `maxSize` entries |
| UndoHistoryService.PushAction | src/domain/undo/services/undo-history.ts:24-35 | the new action ends the undo stack, only the newest entries are kept, the redo stack is emptied and the bound is kept |
| UndoHistoryService.Undo | src/domain/undo/services/undo-history.ts:41-59 | fails with "Nothing to undo" iff the undo stack is empty; otherwise pops its last action and puts that action at the front of the redo stack |
| UndoHistoryService.Redo | src/domain/undo/services/undo-history.ts:65-83 | fails with "Nothing to redo" iff the redo stack is empty; otherwise moves its first action to the end of the undo stack |
| UndoHistoryService.CanUndoRedoExact | src/domain/undo/services/undo-history.ts:88-97 | `canUndo` and `canRedo` hold exactly when undo and redo succeed |
| UndoHistoryService.CanUndo | src/domain/undo/services/undo-history.ts:88-90 | `canUndo`: the undo stack is non-empty; CanUndoRedoExact states that this is exactly when undo succeeds |
| UndoHistoryService.CanRedo | src/domain/undo/services/undo-history.ts:95-97 | `canRedo`: the redo stack is non-empty; CanUndoRedoExact states that this is exactly when redo succeeds |
| UndoHistoryService.ClearHistory | src/domain/undo/services/undo-history.ts:102-108 | empties both stacks and keeps the bound |
| UndoHistoryService.BoundedPreserved | src/domain/undo/services/undo-history.ts:24-108 | with a positive bound, push and clear produce a bounded undo stack, and undo and redo keep it bounded |
| UndoHistoryService.ZeroBoundUnbounded | src/domain/undo/services/undo-history.ts:29 | with bound 0 nothing is ever evicted |
| UndoHistoryService.RedoAfterUndo | src/domain/undo/services/undo-history.ts:41-83 | redo after undo gives back the same action and the original history |
| UndoHistoryService.UndoAfterRedo | src/domain/undo/services/undo-history.ts:41-83 | undo after redo gives back the same action and the original history |
| UndoHistoryService.GetInverseAction | src/domain/undo/services/undo-history.ts:113-159 | add and delete turn into each other, and duplicate into the delete of the copy, each keeping its field and index; update swaps the previous and new field at the same index; reorder swaps its two indices; setName swaps the old and new name |
| UndoHistoryService.InverseInvolution | src/domain/undo/services/undo-history.ts:113-159 | inverting twice gives the action back, except that a duplicate comes back as an add |
| SchemaBuilderReducer.BuilderReducer | src/hooks/useSchemaBuilder.ts:183-411 | the reducer, one case per action; its meaning is stated by the ReducerProperties lemmas |
| SchemaBuilderReducer.ApplyUndoAction | src/hooks/useSchemaBuilder.ts:74-128 | the document after undoing the action, the reducer's selection rule for that kind, dirty, history untouched |
| SchemaBuilderReducer.ApplyRedoAction | src/hooks/useSchemaBuilder.ts:130-181 | the document after redoing the action, the reducer's selection rule for that kind, dirty, history untouched |
| SchemaBuilderReducer.UndoneDocument | src/hooks/useSchemaBuilder.ts:74-124 | the name and fields after undoing one action: delete the added or duplicated field, reinsert the deleted one, restore the previous field or name, move the field back; UndoRedoDocument and RedoUndoDocument state that it is the inverse of RedoneDocument |
| SchemaBuilderReducer.RedoneDocument | src/hooks/useSchemaBuilder.ts:130-177 | the name and fields after redoing one action; UndoRedoDocument and RedoUndoDocument state that it is the inverse of UndoneDocument |
| SchemaBuilderReducer.UndoSelection | src/hooks/useSchemaBuilder.ts:74-124 | the selection after undoing each kind of action; UndoDeleteSelectsRestored, UndoDuplicateSelectsOriginal and UndoReorderSelection state what it selects |
| SchemaBuilderReducer.RedoSelection | src/hooks/useSchemaBuilder.ts:130-177 | the selection after redoing each kind of action; RedoInsertSelectsInserted states that a redone insertion is selected |
| SchemaBuilderReducer.InitialState | src/hooks/useSchemaBuilder.ts:413-419 | empty, clean, nothing selected, a fresh bound-50 history with nothing to undo or redo |
| ReducerProperties.UndoRedoDocument | src/hooks/useSchemaBuilder.ts:74-181 | undoing an action that fits the document leaves it redoable, and redoing it restores the document |
| ReducerProperties.RedoUndoDocument | src/hooks/useSchemaBuilder.ts:74-181 | redoing a pending action leaves it undoable, and undoing it restores the document |
| ReducerProperties.EditRecordsOneAction | src/hooks/useSchemaBuilder.ts:185-362 | every edit pushes exactly its recorded action, empties the redo stack and marks dirty |
| SchemaBuilderReducer.Recorded | src/hooks/useSchemaBuilder.ts:185-362 | the undo action each edit pushes, with the old and new field or name; EditRecordsOneAction and EditMatchesRecord state that it is pushed and that redoing it from the old document gives the new one |
| ReducerProperties.EditMatchesRecord | src/hooks/useSchemaBuilder.ts:185-362 | the recorded action was pending before the edit, is applied after it, and redoing it from the old document gives the new one |
| ReducerProperties.EditThenUndo | src/hooks/useSchemaBuilder.ts:185-396 | any edit followed by UNDO restores the name and the fields and leaves exactly that edit to redo |
| ReducerProperties.PushThenUndoHistory | src/domain/undo/services/undo-history.ts:24-59 | when nothing is evicted, undo after push restores the undo stack |
| ReducerProperties.EditThenUndoKeepsPast | src/hooks/useSchemaBuilder.ts:185-396 | below the bound, edit then UNDO restores the undo stack too |
| ReducerProperties.ReorderSameIndexRecords | src/hooks/useSchemaBuilder.ts:289-319 | a move onto the same index still marks dirty and records a reorder, while the service's `reorderField` returns the state unchanged |
| ReducerProperties.AddKeyIsFresh | src/hooks/useSchemaBuilder.ts:200-220 | ADD_FIELD appends one field whose key is new, so keys stay distinct |
| ReducerProperties.DuplicateKeyIsFresh | src/hooks/useSchemaBuilder.ts:327-362 | DUPLICATE_FIELD inserts a field whose key is new, so keys stay distinct |
| ReducerProperties.ReducerUpdateAcceptsDuplicateKey | src/hooks/useSchemaBuilder.ts:222-258 | UPDATE_FIELD accepts an explicit key another field has, so keys can repeat, where the service's `updateField` fails |
| ReducerProperties.SelectAndMarkCleanKeepDocument | src/hooks/useSchemaBuilder.ts:321-377 | SELECT_FIELD only sets the selection and MARK_CLEAN only clears the dirty flag; neither records history |
| ReducerProperties.SelectIsUnchecked | src/hooks/useSchemaBuilder.ts:321-325 | SELECT_FIELD accepts an index one past the end |
| ReducerProperties.LoadAndResetStartFresh | src/hooks/useSchemaBuilder.ts:364-386 | LOAD_SCHEMA and RESET start a clean state with a fresh history, so UNDO then changes nothing |
| ReducerProperties.EmptyStacksChangeNothing | src/hooks/useSchemaBuilder.ts:388-406 | UNDO with nothing to undo and REDO with nothing to redo return the state unchanged |
| ReducerProperties.UndoStep | src/hooks/useSchemaBuilder.ts:388-396 | UNDO undoes the last action on the document, moves it to the redo stack and marks dirty |
| ReducerProperties.RedoStep | src/hooks/useSchemaBuilder.ts:398-406 | REDO redoes the next action on the document, moves it to the undo stack and marks dirty |
| ReducerProperties.UndoThenRedo | src/hooks/useSchemaBuilder.ts:388-406 | UNDO then REDO restores the document and the whole history |
| ReducerProperties.RedoThenUndo | src/hooks/useSchemaBuilder.ts:388-406 | REDO then UNDO restores the document and the whole history |
| ReducerProperties.UndoDuplicateSelectsOriginal | src/hooks/useSchemaBuilder.ts:112-120 | undoing a duplicate selects the original field |
| ReducerProperties.UndoDeleteSelectsRestored | src/hooks/useSchemaBuilder.ts:89-94 | undoing a delete selects the restored field |
| ReducerProperties.RedoInsertSelectsInserted | src/hooks/useSchemaBuilder.ts:132-173 | redoing an add or a duplicate selects the inserted field |
| ReducerProperties.ReorderStep | src/hooks/useSchemaBuilder.ts:289-319 | REORDER_FIELDS is a permutation, and the selection follows the field it was on |
| ReducerProperties.DuplicateStep | src/hooks/useSchemaBuilder.ts:327-345 | DUPLICATE_FIELD inserts the copy of the field right after it |
| ReducerProperties.UndoReorderSelection | src/hooks/useSchemaBuilder.ts:101-111 | undoing a move moves the field back but only repairs a selection on the target index |
| ReducerProperties.UndoReorderKeepsOtherSelection | src/hooks/useSchemaBuilder.ts:101-111 | with a, b, c and b selected, moving a to the end selects b at 0, and UNDO then leaves index 0 selected, which is a |
| ReducerProperties.PastMatchesSuffix | src/domain/undo/services/undo-history.ts:29 | evicting the oldest entries keeps the undo stack consistent |
| ReducerProperties.ConsistentIsDefined | src/hooks/useSchemaBuilder.ts:388-406 | in a consistent state, UNDO and REDO stay within the field list |
| ReducerProperties.UndoKeepsConsistent | src/hooks/useSchemaBuilder.ts:388-396 | UNDO keeps the history consistent |
| ReducerProperties.RedoKeepsConsistent | src/hooks/useSchemaBuilder.ts:398-406 | REDO keeps the history consistent |
| ReducerProperties.PushKeepsMatching | src/domain/undo/services/undo-history.ts:24-35 | pushing an action that fits the new document keeps the history consistent, whatever gets evicted |
| ReducerProperties.EditKeepsConsistent | src/hooks/useSchemaBuilder.ts:185-362 | every edit keeps the history consistent |
| ReducerProperties.ReducerKeepsConsistent | src/hooks/useSchemaBuilder.ts:183-411 | every action keeps the history consistent |
| ReducerProperties.SelectionStaysValid | src/hooks/useSchemaBuilder.ts:183-411 | every action except SELECT_FIELD keeps a valid selection valid, UNDO and REDO included |
| BuilderStore.SchemaBuilderStore.constructor | src/hooks/useSchemaBuilder.ts:413-419 | starts in the initial state, consistent |
| BuilderStore.SchemaBuilderStore.SetName | src/hooks/useSchemaBuilder.ts:185-198 | the state becomes the reducer's SET_NAME result and stays consistent |
| BuilderStore.SchemaBuilderStore.AddField | src/hooks/useSchemaBuilder.ts:200-220 | runs the key-search loop; the state becomes the reducer's ADD_FIELD result and stays consistent |
| BuilderStore.SchemaBuilderStore.UpdateField | src/hooks/useSchemaBuilder.ts:222-258 | the state becomes the reducer's UPDATE_FIELD result and stays consistent |
| BuilderStore.SchemaBuilderStore.DeleteField | src/hooks/useSchemaBuilder.ts:260-287 | the state becomes the reducer's DELETE_FIELD result and stays consistent |
| BuilderStore.SchemaBuilderStore.ReorderFields | src/hooks/useSchemaBuilder.ts:289-319 | the state becomes the reducer's REORDER_FIELDS result and stays consistent |
| BuilderStore.SchemaBuilderStore.SelectField | src/hooks/useSchemaBuilder.ts:321-325 | the state becomes the reducer's SELECT_FIELD result and stays consistent |
| BuilderStore.SchemaBuilderStore.DuplicateField | src/hooks/useSchemaBuilder.ts:327-362 | runs the copy-key loop; the state becomes the reducer's DUPLICATE_FIELD result and stays consistent |
| BuilderStore.SchemaBuilderStore.LoadSchema | src/hooks/useSchemaBuilder.ts:364-371 | from any state, the reducer's LOAD_SCHEMA result, consistent |
| BuilderStore.SchemaBuilderStore.MarkClean | src/hooks/useSchemaBuilder.ts:373-377 | the state becomes the reducer's MARK_CLEAN result and stays consistent |
| BuilderStore.SchemaBuilderStore.Reset | src/hooks/useSchemaBuilder.ts:379-386 | from any state, the initial state, consistent |
| BuilderStore.SchemaBuilderStore.Undo | src/hooks/useSchemaBuilder.ts:388-396 | always defined on a consistent store; the state becomes the reducer's UNDO result and stays consistent |
| BuilderStore.SchemaBuilderStore.Redo | src/hooks/useSchemaBuilder.ts:398-406 | always defined on a consistent store; the state becomes the reducer's REDO result and stays consistent |
| Text.Lower | src/lib/example-schemas.ts:1037 | `toLowerCase` on ASCII, character by character |
| Text.Upper | src/lib/utils.ts:70 | `toUpperCase` on ASCII, character by character, keeping the length |
| Text.Take | src/domain/schema/services/schema-builder.ts:30 | `slice(0, n)`: the whole string when it fits, otherwise its first n characters |
| Text.CollapseNonAlnum | src/domain/schema/services/schema-builder.ts:28 | `replace(/[^a-z0-9]+/g, sep)`, never longer than its input; CollapseShape, CollapseKeepsAlnum and CollapseFixpoint state its meaning |
| Text.CollapseRepeats | src/pages/setup/OrganizationSetup.tsx:31 | `replace(/-+/g, '-')`: no doubled separator is left, never longer than its input, and the first character is kept |
| Text.StripEdge | src/domain/schema/services/schema-builder.ts:29 | `replace(/^_\|_$/g, '')`: a string with no separator at either end is unchanged |
| Text.StripEdgeSlice | src/domain/schema/services/schema-builder.ts:29 | the stripped string is the input without at most its first and its last character |
| Text.StripEdgeKeepsAlnum | src/domain/schema/services/schema-builder.ts:29 | stripping a non-alphanumeric separator keeps every alphanumeric character in order |
| Text.LowerIdempotent | src/lib/example-schemas.ts:1037 | lower-casing twice equals lower-casing once |
| Text.CollapseShape | src/pages/setup/OrganizationSetup.tsx:30 | replacing each run outside `[a-z0-9]` by one separator leaves only `[a-z0-9]` and the separator, never doubled |
| Text.CollapseKeepsAlnum | src/pages/setup/OrganizationSetup.tsx:30 | that replacement keeps the `[a-z0-9]` characters, in order |
| Text.CollapseFixpoint | src/pages/setup/OrganizationSetup.tsx:30 | a string already of that shape is left alone |
| Text.CollapseRepeatsFixpoint | src/pages/setup/OrganizationSetup.tsx:31 | `replace(/-+/g, '-')` leaves a string without doubled separators alone |
| Text.StripCollapsed | src/pages/setup/OrganizationSetup.tsx:32 | stripping one edge separator from a collapsed string leaves none at either end |
| Text.NatToStringInjective | src/domain/schema/services/schema-builder.ts:56-62 | different counters print differently |
| Text.ContainsEmpty | src/lib/example-schemas.ts:1040 | every string includes the empty string |
| Text.Contains | src/lib/example-schemas.ts:1040-1042 | `includes`: the second string occurs in the first as a contiguous block; ContainsEmpty and ContainedIsInOrder state its properties |
| Text.IntToString | src/lib/errors/validation-errors.ts:43-48 | a number in a template literal: a negative one is `-` before its magnitude's digits, a non-negative one its digits |
| OrganizationSetup.GenerateSlug | src/pages/setup/OrganizationSetup.tsx:27-33 | `generateSlug`; its meaning is stated by SlugShape, SlugIdempotent and SlugKeepsAlnum |
| OrganizationSetup.SqueezeIsRedundant | src/pages/setup/OrganizationSetup.tsx:27-33 | after the first replacement, the second one changes nothing |
| OrganizationSetup.SlugShape | src/pages/setup/OrganizationSetup.tsx:27-33 | a slug holds only `[a-z0-9-]`, never `--`, and no `-` at either end |
| OrganizationSetup.SlugIdempotent | src/pages/setup/OrganizationSetup.tsx:27-33 | the slug of a slug is the slug |
| OrganizationSetup.SlugKeepsAlnum | src/pages/setup/OrganizationSetup.tsx:27-33 | the slug keeps exactly the `[a-z0-9]` characters of the lower-cased name, in order |
| Utils.SliceTo | src/lib/utils.ts:59 | `slice(0, end)`, with a negative end counting from the back |
| Utils.Truncate | src/lib/utils.ts:57-60 | the string when it fits; otherwise its first `length` characters and `...`; a negative length cuts from the back |
| Utils.TruncateBounds | src/lib/utils.ts:57-60 | for a non-negative length, the result is at most `length + 3` long and starts like the input |
| Utils.SplitOn | src/lib/utils.ts:67 | `split(' ')` gives at least one piece and no piece holds a space |
| Utils.SplitJoin | src/lib/utils.ts:67 | joining the pieces of a split gives the string back |
| Utils.JoinSplit | src/lib/utils.ts:67 | splitting a join of space-free pieces gives the pieces back |
| Utils.FirstChars | src/lib/utils.ts:68-69 | `map(word => word[0]).join('')`; bounded by the number of words, and EmptyWordAddsNothing states that an empty word adds nothing |
| Utils.GetInitials | src/lib/utils.ts:65-72 | at most two characters |
| Utils.InitialsOfWords | src/lib/utils.ts:65-72 | for words joined by single spaces, the upper-cased first characters of the words, cut at two |
| Utils.EmptyWordAddsNothing | src/lib/utils.ts:68-69 | an empty word, such as a doubled space makes, adds no initial |
| Utils.InitialsOfTwoWords | src/lib/utils.ts:65-72 | `first last` gives the upper-cased first letters of both |
| TagInput.Trim | src/components/common/TagInput.tsx:25 | `trim()`: one slice of the input with only white space cut before and after it; no white space is left at either end; empty iff the input is all white space |
| TagInput.TrimStart | src/components/common/TagInput.tsx:25 | a suffix of the input that starts with no white space, everything cut being white space |
| TagInput.TrimEnd | src/components/common/TagInput.tsx:25 | a prefix of the input that ends with no white space, everything cut being white space |
| TagInput.TrimEdges | src/components/common/TagInput.tsx:25 | cutting leading and then trailing white space leaves neither edge white, and leaves nothing only from all white space |
| TagInput.TrimIsSlice | src/components/common/TagInput.tsx:25 | what the two cuts keep is one slice of the input with only white space around it |
| TagInput.TrimIdempotent | src/components/common/TagInput.tsx:25 | trimming twice equals trimming once |
| TagInput.AddTag | src/components/common/TagInput.tsx:23-34 | no change for blank input, a tag already present, or a truthy `maxTags` reached (0 means no limit); otherwise appends the trimmed tag |
| TagInput.AddTagKeepsInvariant | src/components/common/TagInput.tsx:27-30 | adding keeps tags distinct and within a positive limit |
| Sequences.RemoveAtKeepsDistinct | src/components/common/TagInput.tsx:36-41 | removing an element by index keeps distinct tags distinct |
| TagInput.TagBox.AddTagFrom | src/components/common/TagInput.tsx:23-34 | on acceptance the new list is kept and the input cleared; otherwise nothing changes; distinct tags within the limit stay so |
| TagInput.TagBox.RemoveTagAt | src/components/common/TagInput.tsx:36-41 | the list becomes `RemoveAt` of the old list: the element at the index removed and the order kept, or no change for another index; the input is untouched; distinct tags stay distinct |
| TagInput.TagBox.HandleKeyDown | src/components/common/TagInput.tsx:43-53 | Enter or `,` adds the typed text; Backspace on an empty input drops the last tag when there is one; other keys change nothing |
| TagInput.TagBox.HandleBlur | src/components/common/TagInput.tsx:55-59 | leaving the input adds the typed text unless it is blank |
| CommandPalette.FilterScore | src/components/command-palette/CommandPalette.tsx:60-74 | 1 iff the lower-cased value contains the lower-cased search; 0.5 iff it does not but the search is an in-order subsequence; else 0 |
| CommandPalette.Score | src/components/command-palette/CommandPalette.tsx:60-74 | the greedy scan with early returns computes exactly `FilterScore` |
| CommandPalette.ScoreIgnoresCase | src/components/command-palette/CommandPalette.tsx:61-62 | the score depends only on the lower-cased texts |
| CommandPalette.EmptySearchScoresOne | src/components/command-palette/CommandPalette.tsx:63 | an empty search scores 1 |
| CommandPalette.ContainedIsInOrder | src/components/command-palette/CommandPalette.tsx:63-72 | a substring is also an in-order match |
| CommandPalette.CommandsIn | src/components/command-palette/CommandPalette.tsx:30-39 | the commands of one section in input order; its meaning is stated by CommandsInIsFilter |
| CommandPalette.CommandsInIsFilter | src/components/command-palette/CommandPalette.tsx:30-39 | a group lists exactly the commands that name it, in input order |
| CommandPalette.SectionsPartition | src/components/command-palette/CommandPalette.tsx:30-39 | the three groups together hold every command exactly once |
| CommandPalette.GroupCommands | src/components/command-palette/CommandPalette.tsx:30-39 | the loop creates a group exactly for the sections some command names, each holding that section's commands in order |
| ExampleSchemas.CategoryLabel | src/lib/example-schemas.ts:20-27 | the non-empty label of each of the six categories |
| ExampleSchemas.CategoryDescription | src/lib/example-schemas.ts:29-36 | the non-empty description of each of the six categories |
| ExampleSchemas.CategoryTextsDistinct | src/lib/example-schemas.ts:20-36 | different categories have different labels and descriptions |
| ExampleSchemas.SchemasByCategory | src/lib/example-schemas.ts:1028-1030 | an order-preserving sublist of templates of the category, in which every template of the category appears |
| ExampleSchemas.SchemasByCategoryCounts | src/lib/example-schemas.ts:1028-1030 | each template of the category appears as often as in the list, any other not at all, which with the sublist order fixes the result |
| ExampleSchemas.CategoriesPartition | src/lib/example-schemas.ts:1028-1030 | the six category lists together are as long as the list |
| ExampleSchemas.SchemaById | src/lib/example-schemas.ts:1032-1034 | nothing iff no template has the id; otherwise the first template that has it |
| ExampleSchemas.SchemaByIdFindsEach | src/lib/example-schemas.ts:1032-1034 | with distinct ids, every template is found by its own id |
| ExampleSchemas.SearchSchemas | src/lib/example-schemas.ts:1036-1044 | an order-preserving sublist of matching templates in which every matching template appears; a template matches when its lower-cased name or description, or one of its tags as written, contains the lower-cased query |
| ExampleSchemas.MatchesQuery | src/lib/example-schemas.ts:1039-1042 | the search predicate: the lower-cased name or description, or a tag as written, contains the lower-cased query; SearchSchemas and SearchSchemasCounts state that exactly the matching templates are kept |
| ExampleSchemas.SearchSchemasCounts | src/lib/example-schemas.ts:1036-1044 | each matching template appears as often as in the list, any other not at all, which with the sublist order fixes the result |
| ExampleSchemas.SearchEmptyReturnsAll | src/lib/example-schemas.ts:1036-1044 | an empty query returns the whole list |
| ExampleSchemas.CapitalTagNotFound | src/lib/example-schemas.ts:1042 | tags are not lower-cased, so a tag in capitals is not found by those capitals |
| Sequences.RemoveAt | src/hooks/useSchemaBuilder.ts:264 | `filter((_, i) => i !== index)`: the element at the index removed, or the list unchanged out of range |
| Sequences.InsertAt | src/hooks/useSchemaBuilder.ts:335-337 | `splice(i, 0, x)`: x at position i, everything else shifted |
| Sequences.MoveAt | src/hooks/useSchemaBuilder.ts:293-295 | the splice-out, splice-in move sends each element to its moved index |
| Sequences.MoveBack | src/hooks/useSchemaBuilder.ts:101-111 | moving back from the target to the source restores the list |
| Sequences.Move | src/hooks/useSchemaBuilder.ts:289-292 | the two-splice move keeps the length and puts the moved element at the target; MoveAt, MoveBack and MovePermutes state its meaning |
| Sequences.MoveInPlace | src/hooks/useSchemaBuilder.ts:289-292 | moving an element onto its own position leaves the list as it is |
| Sequences.MovePermutes | src/hooks/useSchemaBuilder.ts:293-295 | a move is a permutation |
| Sequences.Filter | src/lib/example-schemas.ts:1029 | `filter`: an order-preserving sublist of passing elements in which every passing element appears |
| Sequences.FilterCounts | src/lib/example-schemas.ts:1029 | every passing element is kept as often as it occurs and every other dropped, so with the sublist order the result is fixed |
| Sequences.FilterSnoc | src/components/command-palette/CommandPalette.tsx:33-38 | filtering a list with one more element at the end adds that element exactly when it passes |
| Sequences.FilterKeepsAll | src/lib/example-schemas.ts:1036-1044 | filtering with a condition every element meets keeps the whole list |
| Sequences.GreedyMatch | src/components/command-palette/CommandPalette.tsx:65-71 | matching the next search character at the first chance is never wrong |

## Left out

- **React plumbing.** The `useSchemaBuilder` hook (`src/hooks/useSchemaBuilder.ts:421-505`) only wraps `useReducer` and `useCallback`. `BuilderStore.SchemaBuilderStore` stands in for the reducer's state cell.
- **React rendering.** Rendering, `e.preventDefault()` and `onChange` callbacks are left out. `TagInput.TagBox` holds the list the parent passes back as its own field.
- **Template bodies.** The twelve template records of `exampleSchemas` and their field lists are not carried, because their long string literals are too costly for the verifier. The three lookups are modelled over any list of templates.
- **Unicode case mapping.** `toLowerCase` and `toUpperCase` are modelled on ASCII letters only; other characters are left as they are. JavaScript also maps non-ASCII letters.
- **Code points and code units.** `for…of` walks code points, while `includes` and `length` use UTF-16 units. The model treats a string as one sequence of characters.
- **Floating point.** The ranking score is a `real` taking only 0, 0.5 or 1. `confidenceThreshold` is carried as an optional `real` and never computed on.
- **Key order in the command groups.** `groupedCommands` returns an object whose keys keep first-seen order. `CommandPalette.GroupCommands` returns a map, which has no order.
- **`maxTags` edge cases.** `maxTags` is an optional integer. A `NaN` limit, which is falsy in JavaScript, is not modelled.
- **Out-of-range indices in the reducer.** The reducer never checks its indices. Out of range, the source reads `undefined` fields or lets `splice` clamp, and the model does not follow it there.
- SchemaBuilderReducer.BuilderReducer: requires the index bounds the reducer relies on (`ReducerDefined`). A consistent history keeps UNDO and REDO within them, and that is proved (`ReducerProperties.ConsistentIsDefined`).
- BuilderStore.SchemaBuilderStore.UpdateField: requires in-range indices, for the same reason.
- BuilderStore.SchemaBuilderStore.DeleteField: requires in-range indices, for the same reason.
- BuilderStore.SchemaBuilderStore.ReorderFields: requires in-range indices, for the same reason.
- BuilderStore.SchemaBuilderStore.DuplicateField: requires in-range indices, for the same reason.
- SchemaBuilder.AddField: requires fewer than 2^32 - 1 fields, the longest JavaScript array. This bounds the key-search counter.
- SchemaKeys.NewField: requires at most 2^32 - 1 existing keys, for the same reason.
- SchemaKeys.CreateField: requires at most 2^32 - 1 existing keys, for the same reason.
- BuilderStore.SchemaBuilderStore.AddField: requires fewer than 2^32 - 1 fields, for the same reason.
- ResultUtil.Unwrap: requires a success. On a failure the source throws, and exceptions are not modelled.
- **Selection after UNDO.** The selection after UNDO follows the source's rule for each action kind. It is not the selection from before the edit, because the source does not restore that. `ReducerProperties.UndoReorderKeepsOtherSelection` shows a case.
- **Duplicated helpers.** The duplicate `generateKey`, `getDefaultLabel` and `createField` copies in `src/hooks/useSchemaBuilder.ts:28-72` behave like the service's, and the reducer uses the service's model.
