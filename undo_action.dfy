/**
 * The undoable edits of the schema builder and the bounded history that
 * records them.
 */
module UndoActions {
  import opened SchemaTypes

  /**
   * The six recorded edits. Each carries what is needed to replay it in either
   * direction; `Add` and `Duplicate` have the same payload but are different edits.
   */
  datatype UndoAction =
    | Add(field: FieldDefinition, insertIndex: int)
    | Delete(field: FieldDefinition, index: int)
    | Update(index: int, previousField: FieldDefinition, newField: FieldDefinition)
    | Reorder(fromIndex: int, toIndex: int)
    | Duplicate(insertIndex: int, field: FieldDefinition)
    | SetName(previousName: string, newName: string)

  /** The `type` tags of the union. */
  datatype ActionType = AddType | DeleteType | UpdateType | ReorderType | DuplicateType | SetNameType

  function TypeOf(a: UndoAction): ActionType
  {
    match a
    case Add(_, _) => AddType
    case Delete(_, _) => DeleteType
    case Update(_, _, _) => UpdateType
    case Reorder(_, _) => ReorderType
    case Duplicate(_, _) => DuplicateType
    case SetName(_, _) => SetNameType
  }

  /** The `inverse: { type }` tag that each variant of the union fixes. */
  function InverseType(a: UndoAction): (t: ActionType)
    ensures t == DeleteType <==> a.Add? || a.Duplicate?
    ensures t == AddType <==> a.Delete?
    ensures !(a.Add? || a.Delete? || a.Duplicate?) ==> t == TypeOf(a)
  {
    match a
    case Add(_, _) => DeleteType
    case Delete(_, _) => AddType
    case Update(_, _, _) => UpdateType
    case Reorder(_, _) => ReorderType
    case Duplicate(_, _) => DeleteType
    case SetName(_, _) => SetNameType
  }

  /** `add` and `duplicate` with the same payload are still different actions. */
  lemma AddDuplicateDistinct(f: FieldDefinition, i: int)
    ensures Add(f, i) != Duplicate(i, f)
    ensures TypeOf(Add(f, i)) != TypeOf(Duplicate(i, f))
    ensures InverseType(Add(f, i)) == InverseType(Duplicate(i, f))
  {
  }

  /** The history: `past` (oldest first), `future` (next redo first) and the bound `maxSize`. */
  datatype UndoHistory = UndoHistory(past: seq<UndoAction>, future: seq<UndoAction>, maxSize: int)
}
