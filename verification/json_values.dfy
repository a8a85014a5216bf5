/** JSON values as the server handles them: Python's None, bool, int,
    float, str, list and dict, as decoded from and encoded to JSON. An
    object is a map from keys to values (an unordered collection of
    members, as section 4 of RFC 8259 defines it). */
module JsonValues {

  datatype Option<+T> = None | Some(value: T)

  /** Floats are kept as `real`: the server only copies them (scores) or
      writes them as literals (boosts), it never computes with them. */
  datatype Json =
    | JNull
    | JBool(b: bool)
    | JInt(i: int)
    | JFloat(f: real)
    | JStr(s: string)
    | JArr(items: seq<Json>)
    | JObj(fields: map<string, Json>)

  /** `v[key]` where `v` may not be a dict: the value when `v` is a dict
      holding `key`, nothing otherwise. */
  function Lookup(v: Json, key: string): Option<Json>
  {
    if v.JObj? && key in v.fields then Some(v.fields[key]) else None
  }

  /** One more subscript on a value that may be missing. Chains of `Sub`
      follow a path of keys through nested dicts. */
  function Sub(o: Option<Json>, key: string): Option<Json>
  {
    if o.Some? then Lookup(o.value, key) else None
  }

  /** `d.get(key, default)`. */
  function GetOr(fields: map<string, Json>, key: string, default: Json): Json
  {
    if key in fields then fields[key] else default
  }

  /** A list of strings, such as `["content", "file.filename"]`. */
  function StrList(xs: seq<string>): (r: Json)
    ensures r.JArr? && |r.items| == |xs|
    ensures forall i :: 0 <= i < |xs| ==> r.items[i] == JStr(xs[i])
  {
    JArr(seq(|xs|, i requires 0 <= i < |xs| => JStr(xs[i])))
  }

  /** Python truthiness: `not v` holds exactly for these values. */
  predicate Falsy(v: Json)
  {
    match v
    case JNull => true
    case JBool(b) => !b
    case JInt(i) => i == 0
    case JFloat(f) => f == 0.0
    case JStr(s) => s == []
    case JArr(items) => items == []
    case JObj(fields) => fields == map[]
  }
}
