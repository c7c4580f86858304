/**
 * The field definitions a schema is made of, and the partial-update record
 * the inspector sends to change one of them.
 */
module SchemaTypes {
  import opened Options

  /** `'string' | 'number' | 'boolean' | 'enum' | 'string[]'`. */
  datatype FieldType = Text | Number | Boolean | Enum | TextList

  /** The optional `validation` block of a field. */
  datatype Validation = Validation(regex: Option<string>, minLen: Option<int>, maxLen: Option<int>)

  /**
   * One extracted field. The optional attributes are `Option`s; the confidence
   * threshold is carried along and never computed on.
   */
  datatype FieldDefinition = FieldDefinition(
    key: string,
    labelText: string,
    fieldType: FieldType,
    required: bool,
    instructions: string,
    enumOptions: Option<seq<string>>,
    validation: Option<Validation>,
    confidenceThreshold: Option<real>,
    sourceHints: Option<seq<string>>)

  /**
   * One attribute of a `Partial<FieldDefinition>`: absent (`Keep`) or present
   * with a value. For an optional attribute the value is itself an `Option`, so
   * `Set(None)` is the explicit `undefined` that clears it.
   */
  datatype Patch<T> = Keep | Set(value: T)

  function Patched<T>(p: Patch<T>, current: T): (r: T)
    ensures p.Keep? ==> r == current
    ensures p.Set? ==> r == p.value
  {
    match p
    case Keep => current
    case Set(v) => v
  }

  datatype FieldUpdate = FieldUpdate(
    key: Patch<string>,
    labelText: Patch<string>,
    fieldType: Patch<FieldType>,
    required: Patch<bool>,
    instructions: Patch<string>,
    enumOptions: Patch<Option<seq<string>>>,
    validation: Patch<Option<Validation>>,
    confidenceThreshold: Patch<Option<real>>,
    sourceHints: Patch<Option<seq<string>>>)

  /** The empty update `{}`. */
  const NoUpdate: FieldUpdate := FieldUpdate(Keep, Keep, Keep, Keep, Keep, Keep, Keep, Keep, Keep)

  /**
   * `{ ...field, ...updates }`: every attribute present in the update wins,
   * every absent one keeps the field's value.
   */
  function Merge(f: FieldDefinition, u: FieldUpdate): (r: FieldDefinition)
    ensures r.key == Patched(u.key, f.key) && r.labelText == Patched(u.labelText, f.labelText)
    ensures r.fieldType == Patched(u.fieldType, f.fieldType) && r.required == Patched(u.required, f.required)
    ensures r.instructions == Patched(u.instructions, f.instructions)
    ensures r.enumOptions == Patched(u.enumOptions, f.enumOptions)
    ensures r.validation == Patched(u.validation, f.validation)
    ensures r.confidenceThreshold == Patched(u.confidenceThreshold, f.confidenceThreshold)
    ensures r.sourceHints == Patched(u.sourceHints, f.sourceHints)
  {
    FieldDefinition(
      Patched(u.key, f.key),
      Patched(u.labelText, f.labelText),
      Patched(u.fieldType, f.fieldType),
      Patched(u.required, f.required),
      Patched(u.instructions, f.instructions),
      Patched(u.enumOptions, f.enumOptions),
      Patched(u.validation, f.validation),
      Patched(u.confidenceThreshold, f.confidenceThreshold),
      Patched(u.sourceHints, f.sourceHints))
  }

  /** The empty update changes nothing, and applying the same update twice is applying it once. */
  lemma MergeLaws(f: FieldDefinition, u: FieldUpdate)
    ensures Merge(f, NoUpdate) == f
    ensures Merge(Merge(f, u), u) == Merge(f, u)
  {
  }

  /** An explicit `undefined` for an optional attribute clears it; leaving it out keeps it. */
  lemma MergeClears(f: FieldDefinition, u: FieldUpdate)
    requires u.enumOptions == Set(None) && u.sourceHints == Set(None)
    ensures Merge(f, u).enumOptions == None && Merge(f, u).sourceHints == None
    ensures Merge(f, u.(enumOptions := Keep, sourceHints := Keep)).enumOptions == f.enumOptions
    ensures Merge(f, u.(enumOptions := Keep, sourceHints := Keep)).sourceHints == f.sourceHints
  {
  }

  /** `fields.map((f) => f.key)`. */
  function KeysOf(fields: seq<FieldDefinition>): (r: seq<string>)
    ensures |r| == |fields|
    ensures forall i :: 0 <= i < |fields| ==> r[i] == fields[i].key
  {
    seq(|fields|, i requires 0 <= i < |fields| => fields[i].key)
  }

  /** No two fields share a key. */
  predicate DistinctKeys(fields: seq<FieldDefinition>)
  {
    forall i, j :: 0 <= i < j < |fields| ==> fields[i].key != fields[j].key
  }

  /** A key is in use iff some field carries it. */
  lemma KeysOfMembership(fields: seq<FieldDefinition>, k: string)
    ensures k in KeysOf(fields) <==> exists i :: 0 <= i < |fields| && fields[i].key == k
  {
    if k in KeysOf(fields) {
      var i :| 0 <= i < |fields| && KeysOf(fields)[i] == k;
    }
  }
}
