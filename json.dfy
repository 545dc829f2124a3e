/** Loosely typed values of the review records: the pipeline reads and writes
    Python dictionaries with open key sets, so a record is a map from key to a
    JSON-like value. */
module Json {

  datatype Value =
    | Null
    | Bool(b: bool)
    | Num(n: real)
    | Str(s: string)
    | Arr(items: seq<Value>)
    | Obj(fields: map<string, Value>)

  /** A review record (raw or annotated). */
  type Record = map<string, Value>

  /** `d.get(key, default)`: the value under `key`, or `default` when the key is absent. */
  function Get(d: Record, key: string, default: Value): (v: Value)
    ensures key in d ==> v == d[key]
    ensures key !in d ==> v == default
  {
    if key in d then d[key] else default
  }
}
