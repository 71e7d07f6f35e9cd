/**
  A decoded JSON value, as the importers see it after `json.loads`.
  Objects map keys to values; a key given twice keeps its last value, as
  Python's decoder does.  Numbers keep only their value as an integer,
  which is all the importers look at (whether it is zero).
 */
module Json {

  datatype Json =
    | Null
    | Bool(b: bool)
    | Num(n: int)
    | Str(s: string)
    | Arr(items: seq<Json>)
    | Obj(fields: map<string, Json>)

  /** Python truthiness: `None`, `False`, `0`, `""`, `[]` and `{}` are false. */
  predicate Truthy(v: Json) {
    match v
    case Null => false
    case Bool(b) => b
    case Num(n) => n != 0
    case Str(s) => s != ""
    case Arr(items) => items != []
    case Obj(fields) => fields != map[]
  }

  /** Python `d.get(key, default)` on an object's fields. */
  function Get(fields: map<string, Json>, key: string, default: Json): (v: Json)
    ensures key in fields ==> v == fields[key]
    ensures key !in fields ==> v == default
  {
    if key in fields then fields[key] else default
  }
}
