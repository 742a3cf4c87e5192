/** An already-decoded JSON value, as `JSON.parse` hands it to the sanitizers. */
module Json {

  /** `Undefined` is what reading a missing property yields; `NonFinite` is the
      infinite number a numeral too large for a double decodes to. */
  datatype Json =
    | Undefined
    | Null
    | Bool(b: bool)
    | Num(n: real)
    | NonFinite
    | Str(s: string)
    | Arr(items: seq<Json>)
    | Obj(fields: map<string, Json>)

  /** `typeof value === 'object' && value !== null`: arrays count as records too. */
  predicate IsRecord(v: Json) {
    v.Arr? || v.Obj?
  }

  /** `value.name` on a record; an array has none of the game's property names. */
  function Field(v: Json, name: string): (r: Json)
    ensures !v.Obj? ==> r == Undefined
    ensures v.Obj? && name !in v.fields ==> r == Undefined
  {
    if v.Obj? && name in v.fields then v.fields[name] else Undefined
  }

  /** `Boolean(value)`: JavaScript truthiness. */
  predicate Truthy(v: Json) {
    match v
    case Undefined => false
    case Null => false
    case Bool(b) => b
    case Num(n) => n != 0.0
    case NonFinite => true
    case Str(s) => s != ""
    case Arr(_) => true
    case Obj(_) => true
  }
}
