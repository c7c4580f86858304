/**
 * The schema builder service: total transitions on the editing state
 * `{name, fields, selectedIndex, isDirty}`, each returning a `Result` that
 * carries an `INVALID_INDEX` or `DUPLICATE_KEY` error instead of throwing.
 */
module SchemaBuilder {
  import opened Options
  import opened ResultUtil
  import opened Text
  import opened Sequences
  import opened SchemaTypes
  import opened SchemaKeys
  import opened ValidationErrors

  datatype SchemaBuilderState = SchemaBuilderState(
    name: string,
    fields: seq<FieldDefinition>,
    selectedIndex: Option<int>,
    isDirty: bool)

  /** The selection is nothing or the index of an existing field. */
  predicate SelectionValid(fields: seq<FieldDefinition>, sel: Option<int>)
  {
    sel.None? || 0 <= sel.value < |fields|
  }

  predicate InRange(fields: seq<FieldDefinition>, i: int)
  {
    0 <= i < |fields|
  }

  /** The keys of every field but the one at `index`. */
  function OtherKeys(fields: seq<FieldDefinition>, index: int): seq<string>
  {
    KeysOf(RemoveAt(fields, index))
  }

  /** A key is among the other keys iff a field at another index carries it. */
  lemma OtherKeysMembership(fields: seq<FieldDefinition>, index: int, k: string)
    requires InRange(fields, index)
    ensures k in OtherKeys(fields, index) <==> exists j :: 0 <= j < |fields| && j != index && fields[j].key == k
  {
    var rest := RemoveAt(fields, index);
    if k in OtherKeys(fields, index) {
      var p :| 0 <= p < |rest| && KeysOf(rest)[p] == k;
      var j := if p < index then p else p + 1;
      assert fields[j].key == k;
    }
    if exists j :: 0 <= j < |fields| && j != index && fields[j].key == k {
      var j :| 0 <= j < |fields| && j != index && fields[j].key == k;
      var p := if j < index then j else j - 1;
      assert KeysOf(rest)[p] == k;
    }
  }

  datatype Added = Added(state: SchemaBuilderState, field: FieldDefinition)
  datatype Removed = Removed(state: SchemaBuilderState, field: FieldDefinition, index: int)
  datatype Updated = Updated(state: SchemaBuilderState, previousField: FieldDefinition)
  datatype Duplicated = Duplicated(state: SchemaBuilderState, field: FieldDefinition, insertIndex: int)

  /** Appending a field whose key is not in use keeps the keys distinct. */
  lemma AppendKeepsDistinct(fields: seq<FieldDefinition>, f: FieldDefinition)
    requires DistinctKeys(fields) && f.key !in KeysOf(fields)
    ensures DistinctKeys(fields + [f])
  {
    var nf := fields + [f];
    forall i, j | 0 <= i < j < |nf| ensures nf[i].key != nf[j].key {
      if j == |fields| {
        assert KeysOf(fields)[i] == nf[i].key;
      }
    }
  }

  /**
   * `addField`: appends one new field with a fresh key, selects it and marks
   * the state dirty. It never fails.
   */
  function AddField(state: SchemaBuilderState, t: FieldType): (r: Result<Added, ValidationError>)
    requires |state.fields| < MaxArrayLength
    ensures r.Ok?
    ensures var s := r.value.state;
      && |s.fields| == |state.fields| + 1
      && s.fields[..|state.fields|] == state.fields
      && s.fields[|state.fields|] == r.value.field
      && s.name == state.name
      && s.selectedIndex == Some(|state.fields|) && s.isDirty
      && SelectionValid(s.fields, s.selectedIndex)
    ensures r.value.field == NewField(t, KeysOf(state.fields))
    ensures r.value.field.key !in KeysOf(state.fields)
    ensures DistinctKeys(state.fields) ==> DistinctKeys(r.value.state.fields)
  {
    var f := NewField(t, KeysOf(state.fields));
    var fields := state.fields + [f];
    assert fields[..|state.fields|] == state.fields;
    assert DistinctKeys(state.fields) ==> DistinctKeys(fields) by {
      if DistinctKeys(state.fields) {
        AppendKeepsDistinct(state.fields, f);
      }
    }
    Ok(Added(state.(fields := fields, selectedIndex := Some(|state.fields|), isDirty := true), f))
  }

  /**
   * The selection after the field at `index` is removed, leaving `newLen`
   * fields: a selected removed field passes the selection to the field now at
   * its place (or the new last one, or nothing when none is left); a selection
   * above it moves down by one; one below it stays.
   */
  function SelectionAfterRemoval(sel: Option<int>, index: int, newLen: int): Option<int>
  {
    match sel
    case None => None
    case Some(s) =>
      if s == index then (if newLen > 0 then Some(if index < newLen - 1 then index else newLen - 1) else None)
      else if s > index then Some(s - 1)
      else Some(s)
  }

  /** Removal repair keeps a valid selection valid, and a selection of another field stays on it. */
  lemma RemovalSelection(fields: seq<FieldDefinition>, sel: Option<int>, index: int)
    requires InRange(fields, index) && SelectionValid(fields, sel)
    ensures var rest := RemoveAt(fields, index);
      var sel' := SelectionAfterRemoval(sel, index, |rest|);
      && SelectionValid(rest, sel')
      && (sel.Some? && sel.value != index ==> rest[sel'.value] == fields[sel.value])
      && (sel == Some(index) ==> (sel'.None? <==> rest == []))
  {
  }

  /** Removing a field keeps the remaining keys distinct. */
  lemma RemoveKeepsDistinct(fields: seq<FieldDefinition>, index: int)
    requires DistinctKeys(fields)
    ensures DistinctKeys(RemoveAt(fields, index))
  {
    var rest := RemoveAt(fields, index);
    if InRange(fields, index) {
      forall i, j | 0 <= i < j < |rest| ensures rest[i].key != rest[j].key {
        var i0 := if i < index then i else i + 1;
        var j0 := if j < index then j else j + 1;
        assert rest[i] == fields[i0] && rest[j] == fields[j0];
      }
    }
  }

  /**
   * `removeField`: an out-of-range index is an `INVALID_INDEX` error;
   * otherwise the field is dropped, the selection repaired and the state marked dirty.
   */
  function RemoveField(state: SchemaBuilderState, index: int): (r: Result<Removed, ValidationError>)
    ensures r.Err? <==> !InRange(state.fields, index)
    ensures r.Err? ==> r.error == InvalidIndexError(index, |state.fields|) && r.error.code == InvalidIndex
    ensures r.Ok? ==> var s := r.value.state;
      && r.value.field == state.fields[index] && r.value.index == index
      && |s.fields| == |state.fields| - 1
      && s.fields == RemoveAt(state.fields, index)
      && s.selectedIndex == SelectionAfterRemoval(state.selectedIndex, index, |s.fields|)
      && s.name == state.name && s.isDirty
    ensures r.Ok? && SelectionValid(state.fields, state.selectedIndex) ==>
      SelectionValid(r.value.state.fields, r.value.state.selectedIndex)
    ensures r.Ok? && DistinctKeys(state.fields) ==> DistinctKeys(r.value.state.fields)
  {
    if !InRange(state.fields, index) then Err(InvalidIndexError(index, |state.fields|))
    else
      var fields := RemoveAt(state.fields, index);
      var sel := SelectionAfterRemoval(state.selectedIndex, index, |fields|);
      assert SelectionValid(state.fields, state.selectedIndex) ==> SelectionValid(fields, sel) by {
        if SelectionValid(state.fields, state.selectedIndex) {
          RemovalSelection(state.fields, state.selectedIndex, index);
        }
      }
      assert DistinctKeys(state.fields) ==> DistinctKeys(fields) by {
        if DistinctKeys(state.fields) {
          RemoveKeepsDistinct(state.fields, index);
        }
      }
      Ok(Removed(state.(fields := fields, selectedIndex := sel, isDirty := true), state.fields[index], index))
  }

  /**
   * Whether the label update re-derives the key: the new label is present and
   * non-empty, differs from the current label, and the current key is the one
   * generated from the current label.
   */
  predicate RekeysFromLabel(cur: FieldDefinition, u: FieldUpdate)
  {
    u.labelText.Set? && u.labelText.value != "" && u.labelText.value != cur.labelText
    && cur.key == GenerateKey(cur.labelText)
  }

  /**
   * The updated field: the update merged over the current field, with the key
   * re-derived from the new label when `RekeysFromLabel` holds and no other
   * field has that key. The re-derived key wins over an explicit key.
   */
  function AutoKeyed(fields: seq<FieldDefinition>, index: int, u: FieldUpdate): (f: FieldDefinition)
    requires InRange(fields, index)
    ensures f.(key := Merge(fields[index], u).key) == Merge(fields[index], u)
    ensures RekeysFromLabel(fields[index], u) && GenerateKey(u.labelText.value) !in OtherKeys(fields, index) ==>
      f.key == GenerateKey(u.labelText.value)
    ensures !(RekeysFromLabel(fields[index], u) && GenerateKey(u.labelText.value) !in OtherKeys(fields, index)) ==>
      f.key == Patched(u.key, fields[index].key)
  {
    var cur := fields[index];
    var merged := Merge(cur, u);
    if RekeysFromLabel(cur, u) then
      var newKey := GenerateKey(u.labelText.value);
      if newKey !in OtherKeys(fields, index) then merged.(key := newKey) else merged
    else merged
  }

  /** The explicit key of the update clashes with another field's key. */
  predicate DuplicateKeyUpdate(fields: seq<FieldDefinition>, index: int, u: FieldUpdate)
    requires InRange(fields, index)
  {
    u.key.Set? && u.key.value != "" && u.key.value != fields[index].key
    && u.key.value in OtherKeys(fields, index)
  }

  /**
   * `updateField`: an out-of-range index is an `INVALID_INDEX` error; a present,
   * non-empty, changed key that another field uses is a `DUPLICATE_KEY` error;
   * otherwise only the field at `index` changes, to `AutoKeyed`, and the state
   * is marked dirty.
   */
  function UpdateField(state: SchemaBuilderState, index: int, u: FieldUpdate): (r: Result<Updated, ValidationError>)
    ensures !InRange(state.fields, index) ==> r == Err(InvalidIndexError(index, |state.fields|))
    ensures InRange(state.fields, index) ==> (r.Err? <==> DuplicateKeyUpdate(state.fields, index, u))
    ensures InRange(state.fields, index) && r.Err? ==>
      r.error == Duplicate("key", u.key.value) && r.error.code == DuplicateKey
    ensures r.Ok? ==> var s := r.value.state;
      && r.value.previousField == state.fields[index]
      && |s.fields| == |state.fields|
      && s.fields[index] == AutoKeyed(state.fields, index, u)
      && (forall j :: 0 <= j < |s.fields| && j != index ==> s.fields[j] == state.fields[j])
      && s.name == state.name && s.selectedIndex == state.selectedIndex && s.isDirty
  {
    if !InRange(state.fields, index) then Err(InvalidIndexError(index, |state.fields|))
    else
      var cur := state.fields[index];
      var updated := AutoKeyed(state.fields, index, u);
      if DuplicateKeyUpdate(state.fields, index, u) then Err(Duplicate("key", u.key.value))
      else Ok(Updated(state.(fields := state.fields[index := updated], isDirty := true), cur))
  }

  /**
   * An accepted update keeps the keys distinct, unless it sets the key to the
   * empty string, which the duplicate check lets through.
   */
  lemma UpdateKeepsDistinct(state: SchemaBuilderState, index: int, u: FieldUpdate)
    requires DistinctKeys(state.fields)
    requires UpdateField(state, index, u).Ok?
    requires u.key != Set("")
    ensures DistinctKeys(UpdateField(state, index, u).value.state.fields)
  {
    var fields := state.fields;
    var cur := fields[index];
    var f := AutoKeyed(fields, index, u);
    var nf := fields[index := f];
    assert f.key !in OtherKeys(fields, index) || f.key == cur.key by {
      if RekeysFromLabel(cur, u) && GenerateKey(u.labelText.value) !in OtherKeys(fields, index) {
      } else if u.key.Set? {
        assert !DuplicateKeyUpdate(fields, index, u);
      }
    }
    forall i, j | 0 <= i < j < |nf| ensures nf[i].key != nf[j].key {
      if i == index || j == index {
        var other := if i == index then j else i;
        if f.key == nf[other].key {
          if f.key != cur.key {
            OtherKeysMembership(fields, index, f.key);
          }
        }
      }
    }
  }

  /** With an empty explicit key, an update can give two fields the same (empty) key. */
  lemma UpdateEmptyKeyMayDuplicate()
    ensures var a := FieldDefinition("", "A", Text, false, "", None, None, None, None);
      var b := FieldDefinition("b", "B", Text, false, "", None, None, None, None);
      var st := SchemaBuilderState("", [a, b], None, false);
      var r := UpdateField(st, 1, NoUpdate.(key := Set("")));
      && DistinctKeys(st.fields) && r.Ok? && !DistinctKeys(r.value.state.fields)
  {
    var a := FieldDefinition("", "A", Text, false, "", None, None, None, None);
    var b := FieldDefinition("b", "B", Text, false, "", None, None, None, None);
    var st := SchemaBuilderState("", [a, b], None, false);
    var r := UpdateField(st, 1, NoUpdate.(key := Set("")));
    assert r.value.state.fields[0].key == r.value.state.fields[1].key;
  }

  /** The selection after a move: it follows the field it was on. */
  function SelectionAfterMove(sel: Option<int>, from: int, to: int): Option<int>
  {
    match sel
    case None => None
    case Some(s) => Some(MovedIndex(from, to, s))
  }

  /** A move keeps the keys distinct. */
  lemma MoveKeepsDistinct(fields: seq<FieldDefinition>, from: int, to: int)
    requires InRange(fields, from) && InRange(fields, to) && DistinctKeys(fields)
    ensures DistinctKeys(Move(fields, from, to))
  {
    var m := Move(fields, from, to);
    MoveBack(fields, from, to);
    forall i, j | 0 <= i < j < |m| ensures m[i].key != m[j].key {
      MoveAt(m, to, from, i);
      MoveAt(m, to, from, j);
      MovedIndexInjective(to, from, i, j);
    }
  }

  /**
   * `reorderField`: either index out of range is an `INVALID_INDEX` error (the
   * source index is checked first); equal indices return the state itself;
   * otherwise the field moves, the selection follows the field it was on, and
   * the state is marked dirty.
   */
  function ReorderField(state: SchemaBuilderState, from: int, to: int): (r: Result<SchemaBuilderState, ValidationError>)
    ensures r.Err? <==> !InRange(state.fields, from) || !InRange(state.fields, to)
    ensures !InRange(state.fields, from) ==> r == Err(InvalidIndexError(from, |state.fields|))
    ensures InRange(state.fields, from) && !InRange(state.fields, to) ==> r == Err(InvalidIndexError(to, |state.fields|))
    ensures r.Ok? && from == to ==> r.value == state
    ensures r.Ok? && from != to ==> var s := r.value;
      && s.fields == Move(state.fields, from, to)
      && s.selectedIndex == SelectionAfterMove(state.selectedIndex, from, to)
      && s.name == state.name && s.isDirty
    ensures r.Ok? ==> multiset(r.value.fields) == multiset(state.fields)
    ensures r.Ok? && SelectionValid(state.fields, state.selectedIndex) ==>
      SelectionValid(r.value.fields, r.value.selectedIndex)
      && (state.selectedIndex.Some? ==> r.value.fields[r.value.selectedIndex.value] == state.fields[state.selectedIndex.value])
    ensures r.Ok? && DistinctKeys(state.fields) ==> DistinctKeys(r.value.fields)
  {
    if !InRange(state.fields, from) then Err(InvalidIndexError(from, |state.fields|))
    else if !InRange(state.fields, to) then Err(InvalidIndexError(to, |state.fields|))
    else if from == to then Ok(state)
    else
      var fields := Move(state.fields, from, to);
      var sel := SelectionAfterMove(state.selectedIndex, from, to);
      MovePermutes(state.fields, from, to);
      assert SelectionValid(state.fields, state.selectedIndex) && state.selectedIndex.Some? ==>
        SelectionValid(fields, sel) && fields[sel.value] == state.fields[state.selectedIndex.value] by {
        if SelectionValid(state.fields, state.selectedIndex) && state.selectedIndex.Some? {
          MoveAt(state.fields, from, to, state.selectedIndex.value);
        }
      }
      assert DistinctKeys(state.fields) ==> DistinctKeys(fields) by {
        if DistinctKeys(state.fields) {
          MoveKeepsDistinct(state.fields, from, to);
        }
      }
      Ok(state.(fields := fields, selectedIndex := sel, isDirty := true))
  }

  /** The copy the duplicate operation inserts: a fresh copy key, the label with ` (Copy)`, all else equal. */
  function CopyOf(original: FieldDefinition, keys: seq<string>): (f: FieldDefinition)
    ensures f.key == UniqueCopyKey(original.key, keys) && f.key !in keys
    ensures f.labelText == original.labelText + " (Copy)"
    ensures f.(key := original.key, labelText := original.labelText) == original
  {
    original.(key := UniqueCopyKey(original.key, keys), labelText := original.labelText + " (Copy)")
  }

  /** Inserting a field whose key is not in use keeps the keys distinct. */
  lemma InsertKeepsDistinct(fields: seq<FieldDefinition>, i: int, f: FieldDefinition)
    requires 0 <= i <= |fields| && DistinctKeys(fields) && f.key !in KeysOf(fields)
    ensures DistinctKeys(InsertAt(fields, i, f))
  {
    var nf := InsertAt(fields, i, f);
    forall p, q | 0 <= p < q < |nf| ensures nf[p].key != nf[q].key {
      var p0 := if p < i then p else p - 1;
      var q0 := if q < i then q else q - 1;
      if p != i && q != i {
        assert nf[p] == fields[p0] && nf[q] == fields[q0];
      } else if p == i {
        assert KeysOf(fields)[q0] == nf[q].key;
      } else {
        assert KeysOf(fields)[p0] == nf[p].key;
      }
    }
  }

  /**
   * `duplicateField`: an out-of-range index is an `INVALID_INDEX` error;
   * otherwise a copy with a fresh key is inserted right after the original
   * and selected, and the state is marked dirty.
   */
  function DuplicateField(state: SchemaBuilderState, index: int): (r: Result<Duplicated, ValidationError>)
    ensures r.Err? <==> !InRange(state.fields, index)
    ensures r.Err? ==> r.error == InvalidIndexError(index, |state.fields|)
    ensures r.Ok? ==> var s := r.value.state;
      && r.value.insertIndex == index + 1
      && r.value.field == CopyOf(state.fields[index], KeysOf(state.fields))
      && r.value.field.key !in KeysOf(state.fields)
      && s.fields == InsertAt(state.fields, index + 1, r.value.field)
      && s.selectedIndex == Some(index + 1) && SelectionValid(s.fields, s.selectedIndex)
      && s.name == state.name && s.isDirty
    ensures r.Ok? && DistinctKeys(state.fields) ==> DistinctKeys(r.value.state.fields)
  {
    if !InRange(state.fields, index) then Err(InvalidIndexError(index, |state.fields|))
    else
      var copy := CopyOf(state.fields[index], KeysOf(state.fields));
      var fields := InsertAt(state.fields, index + 1, copy);
      assert DistinctKeys(state.fields) ==> DistinctKeys(fields) by {
        if DistinctKeys(state.fields) {
          InsertKeepsDistinct(state.fields, index + 1, copy);
        }
      }
      Ok(Duplicated(state.(fields := fields, selectedIndex := Some(index + 1), isDirty := true), copy, index + 1))
  }

  /** `setName`: renames and marks the state dirty; nothing else changes. */
  function SetName(state: SchemaBuilderState, name: string): (r: Result<SchemaBuilderState, ValidationError>)
    ensures r.Ok? && r.value.name == name && r.value.isDirty
    ensures r.value.fields == state.fields && r.value.selectedIndex == state.selectedIndex
  {
    Ok(state.(name := name, isDirty := true))
  }

  /**
   * `selectField`: a present index out of range is an `INVALID_INDEX` error;
   * otherwise the selection becomes `index`. The dirty flag never changes.
   */
  function SelectField(state: SchemaBuilderState, index: Option<int>): (r: Result<SchemaBuilderState, ValidationError>)
    ensures r.Err? <==> index.Some? && !InRange(state.fields, index.value)
    ensures r.Err? ==> r.error == InvalidIndexError(index.value, |state.fields|)
    ensures r.Ok? ==> r.value == state.(selectedIndex := index) && SelectionValid(r.value.fields, r.value.selectedIndex)
  {
    if index.Some? && !InRange(state.fields, index.value) then Err(InvalidIndexError(index.value, |state.fields|))
    else Ok(state.(selectedIndex := index))
  }

  /** `loadSchema`: a clean state holding the fields, with the first one selected when there is one. */
  function LoadSchema(name: string, fields: seq<FieldDefinition>): (s: SchemaBuilderState)
    ensures s.name == name && s.fields == fields && !s.isDirty
    ensures s.selectedIndex == (if |fields| > 0 then Some(0) else None)
    ensures SelectionValid(s.fields, s.selectedIndex)
  {
    SchemaBuilderState(name, fields, if |fields| > 0 then Some(0) else None, false)
  }

  /** `markClean`: clears the dirty flag; nothing else changes. */
  function MarkClean(state: SchemaBuilderState): (s: SchemaBuilderState)
    ensures !s.isDirty && s.name == state.name && s.fields == state.fields && s.selectedIndex == state.selectedIndex
  {
    state.(isDirty := false)
  }

  /** `reset`: the empty, clean state. */
  function Reset(): (s: SchemaBuilderState)
    ensures s.name == "" && s.fields == [] && s.selectedIndex == None && !s.isDirty
  {
    SchemaBuilderState("", [], None, false)
  }

  /** Every transition keeps a valid selection valid; loading and resetting start from a valid one. */
  lemma SelectionStaysValid(state: SchemaBuilderState, t: FieldType, index: int, from: int, to: int, u: FieldUpdate, sel: Option<int>,
                            name: string, loaded: seq<FieldDefinition>)
    requires SelectionValid(state.fields, state.selectedIndex)
    requires |state.fields| < MaxArrayLength
    ensures var r := AddField(state, t).value.state; SelectionValid(r.fields, r.selectedIndex)
    ensures var r := RemoveField(state, index); r.Ok? ==> SelectionValid(r.value.state.fields, r.value.state.selectedIndex)
    ensures var r := UpdateField(state, index, u); r.Ok? ==> SelectionValid(r.value.state.fields, r.value.state.selectedIndex)
    ensures var r := ReorderField(state, from, to); r.Ok? ==> SelectionValid(r.value.fields, r.value.selectedIndex)
    ensures var r := DuplicateField(state, index); r.Ok? ==> SelectionValid(r.value.state.fields, r.value.state.selectedIndex)
    ensures var r := SetName(state, name).value; SelectionValid(r.fields, r.selectedIndex)
    ensures var r := SelectField(state, sel); r.Ok? ==> SelectionValid(r.value.fields, r.value.selectedIndex)
    ensures var r := MarkClean(state); SelectionValid(r.fields, r.selectedIndex)
    ensures var r := LoadSchema(name, loaded); SelectionValid(r.fields, r.selectedIndex)
    ensures var r := Reset(); SelectionValid(r.fields, r.selectedIndex)
  {
  }
}
