/** JSON values and the lookups the browser host makes in them. */
module Json {
  import opened Wrappers

  const I64_LIMIT := 0x8000_0000_0000_0000

  datatype Value =
    | Null
    | Bool(b: bool)
    | Integer(n: int)
    | Fraction
    | String(s: string)
    | Array(items: seq<Value>)
    | Object(fields: map<string, Value>)

  function Get(v: Value, key: string): Option<Value> {
    if v.Object? && key in v.fields then Some(v.fields[key]) else None
  }

  /** `pointer` for a path of object keys. */
  function Pointer(v: Value, path: seq<string>): Option<Value> {
    if path == [] then Some(v)
    else match Get(v, path[0])
      case None => None
      case Some(inner) => Pointer(inner, path[1..])
  }

  function AsString(v: Option<Value>): Option<string> {
    if v.Some? && v.value.String? then Some(v.value.s) else None
  }

  function AsI64(v: Option<Value>): Option<int> {
    if v.Some? && v.value.Integer? && -I64_LIMIT <= v.value.n < I64_LIMIT then Some(v.value.n) else None
  }
}
