/** JSON values as `serde_json` holds them. */
module Json {
  import opened Text

  datatype Number = Int(i: int) | Float(r: real)

  datatype Value =
    | Null
    | Bool(b: bool)
    | Num(n: Number)
    | Str(s: string)
    | Arr(items: seq<Value>)
    | Obj(fields: map<string, Value>)

  /** `Value::get` with a string key. */
  function Get(v: Value, key: string): (r: Option<Value>)
    ensures r.Some? ==> r.value < v
  {
    if v.Obj? && key in v.fields then Some(v.fields[key]) else None
  }

  function StrAt(v: Value, key: string): Option<string> {
    match Get(v, key) case Some(Str(s)) => Some(s) case _ => None
  }

  function ArrAt(v: Value, key: string): Option<seq<Value>> {
    match Get(v, key) case Some(Arr(items)) => Some(items) case _ => None
  }

  function ObjAt(v: Value, key: string): Option<map<string, Value>> {
    match Get(v, key) case Some(Obj(fields)) => Some(fields) case _ => None
  }

  /** `as_bool().unwrap_or(false)` at a key. */
  predicate TrueAt(v: Value, key: string) {
    Get(v, key) == Some(Bool(true))
  }

  /** The object has this value under the key. */
  ghost predicate Holds(v: Value, key: string, value: Value) {
    v.Obj? && key in v.fields && v.fields[key] == value
  }
}
