/** Values shared by both request handlers: nullable column values and the
    JSON-or-query string fields a request may carry. */
module Values {

  /** A nullable value; `None` stands for SQL/JSON `null`. */
  datatype Option<+T> = None | Some(value: T)

  /** One string-valued field of a request body or query string. `Undefined`
      is an absent key, `Null` an explicit JSON `null`. */
  datatype Field = Undefined | Null | Str(text: string)

  /** JavaScript truthiness of a field: only a non-empty string is truthy. */
  predicate Truthy(f: Field) {
    f.Str? && f.text != ""
  }

  /** `f || fallback`: the field's string when it is truthy, else the fallback.
      With a non-empty fallback the result is never empty, so a defaulted
      column is never left blank. */
  function OrElse(f: Field, fallback: string): (s: string)
    ensures fallback != "" ==> s != ""
    ensures s == "" ==> !Truthy(f)
  {
    if Truthy(f) then f.text else fallback
  }

  /** The field as written into a nullable column (`undefined` is never written). */
  function AsNullable(f: Field): (v: Option<string>)
    requires !f.Undefined?
    ensures v.Some? <==> f.Str?
    ensures v.Some? ==> v.value == f.text
  {
    if f.Str? then Some(f.text) else None
  }

  /** `f !== undefined ? f : previous`: the field overwrites a column only when supplied. */
  function Overwrite(f: Field, previous: Option<string>): Option<string>
  {
    if f.Undefined? then previous else AsNullable(f)
  }

  /** The JSON field carrying a nullable value. */
  function FromNullable(v: Option<string>): (f: Field)
    ensures !f.Undefined?
    ensures AsNullable(f) == v
  {
    if v.Some? then Str(v.value) else Null
  }

  /** Supplying any nullable value, `null` included, writes exactly that
      value whatever the column held before. */
  lemma OverwriteWritesSuppliedValue(v: Option<string>, previous: Option<string>)
    ensures Overwrite(FromNullable(v), previous) == v
  {
  }
}
