/** The error taxonomy of the schema operations: a code, an optional field name and a message. */
module ValidationErrors {
  import opened Options
  import opened Text

  datatype ValidationErrorCode = DuplicateKey | NotFound | InvalidIndex | EmptyValue | Custom

  datatype ValidationError = ValidationError(code: ValidationErrorCode, field: Option<string>, message: string)

  /** The code as it appears on the wire. */
  function CodeName(c: ValidationErrorCode): (r: string)
    ensures |r| > 0
  {
    match c
    case DuplicateKey => "DUPLICATE_KEY"
    case NotFound => "NOT_FOUND"
    case InvalidIndex => "INVALID_INDEX"
    case EmptyValue => "EMPTY_VALUE"
    case Custom => "CUSTOM"
  }

  /** Distinct codes have distinct wire names. */
  lemma CodeNamesDistinct(c: ValidationErrorCode, d: ValidationErrorCode)
    requires CodeName(c) == CodeName(d)
    ensures c == d
  {
  }

  /** `"` + s + `"`. */
  function Quoted(s: string): string
  {
    "\"" + s + "\""
  }

  /** `duplicate(field, key)`: a `DUPLICATE_KEY` error on `field` whose message quotes the key. */
  function Duplicate(field: string, key: string): (e: ValidationError)
    ensures e.code == DuplicateKey && e.field == Some(field)
    ensures Contains(e.message, Quoted(key))
  {
    var m := "A field with key " + Quoted(key) + " already exists";
    ContainsMiddle("A field with key ", Quoted(key), " already exists");
    ValidationError(DuplicateKey, Some(field), m)
  }

  /** `notFound(field, key)`: a `NOT_FOUND` error on `field` whose message quotes the key. */
  function NotFoundError(field: string, key: string): (e: ValidationError)
    ensures e.code == NotFound && e.field == Some(field)
    ensures Contains(e.message, Quoted(key))
  {
    var m := "Field " + Quoted(key) + " not found";
    ContainsMiddle("Field ", Quoted(key), " not found");
    ValidationError(NotFound, Some(field), m)
  }

  /**
   * `invalidIndex(index, length)`: an `INVALID_INDEX` error with no field whose
   * message names the index and the valid range `0..length-1`.
   */
  function InvalidIndexError(index: int, length: int): (e: ValidationError)
    ensures e.code == InvalidIndex && e.field == None
    ensures Contains(e.message, IntToString(index))
    ensures Contains(e.message, "(0-" + IntToString(length - 1) + ")")
  {
    var pre := "Index ";
    var mid := " is out of bounds ";
    var range := "(0-" + IntToString(length - 1) + ")";
    var m := pre + IntToString(index) + mid + range;
    ContainsMiddle(pre, IntToString(index), mid + range);
    assert m == pre + IntToString(index) + (mid + range);
    ContainsMiddle(pre + IntToString(index) + mid, range, "");
    assert m == pre + IntToString(index) + mid + range + "";
    ValidationError(InvalidIndex, None, m)
  }

  /** `emptyValue(field)`: an `EMPTY_VALUE` error on `field` whose message starts with the field name. */
  function EmptyValueError(field: string): (e: ValidationError)
    ensures e.code == EmptyValue && e.field == Some(field)
    ensures |e.message| >= |field| && e.message[..|field|] == field
  {
    ValidationError(EmptyValue, Some(field), field + " cannot be empty")
  }

  /** `custom(message, field?)`: a `CUSTOM` error that keeps the message and the optional field as given. */
  function CustomError(message: string, field: Option<string>): (e: ValidationError)
    ensures e.code == Custom && e.field == field && e.message == message
  {
    ValidationError(Custom, field, message)
  }
}
