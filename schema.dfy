/**
 * What a mongoose schema does with one field of a document before it is stored:
 * a field may be left out of the document, given as null, or given a value.
 * Defaults replace only a left-out field; `required` rejects a left-out or null
 * field and, for strings, the empty string; an enum constraint skips null.
 */
module Schema {
  import opened Wrappers

  datatype Field<+T> = Absent | Null | Given(value: T)

  /** A schema path that failed validation, with the validator that failed. */
  datatype Violation = Required(path: string) | NotInEnum(path: string)

  datatype SchemaError =
    | ValidationFailed(violations: seq<Violation>)
    | DuplicateKey(path: string)

  /** `default: d` — applied only when the field is left out. */
  function WithDefault<T>(f: Field<T>, d: Field<T>): (r: Field<T>)
    ensures f.Absent? ==> r == d
    ensures !f.Absent? ==> r == f
  {
    if f.Absent? then d else f
  }

  /** The `required` validator of a String path: a non-empty string. */
  predicate RequiredString(f: Field<string>)
  {
    f.Given? && |f.value| > 0
  }

  /** The `required` validator of a Number path: any number. */
  predicate RequiredNumber(f: Field<int>)
  {
    f.Given?
  }

  /** The violation list entry for a required path. */
  function CheckRequired(ok: bool, path: string): (r: seq<Violation>)
    ensures r == [] <==> ok
  {
    if ok then [] else [Required(path)]
  }

  /** The value of a field as an optional one once null and absent collapse. */
  function ToOption<T>(f: Field<T>): Option<T>
  {
    if f.Given? then Some(f.value) else None
  }
}
