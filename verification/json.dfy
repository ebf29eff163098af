/** Values as `json.load` returns them and as the graph driver receives them
    as parameters, with the handful of Python operations the normaliser
    applies to them. */
module JsonValue {
  import opened Wrappers

  datatype Json =
    | JNull
    | JBool(b: bool)
    | JInt(i: int)
    | JFloat(r: real)
    | JStr(s: string)
    | JArr(items: seq<Json>)
    | JObj(fields: map<string, Json>)

  type Object = map<string, Json>

  /** Python's truth value of the value: `None`, `False`, zero and empty
      containers are falsy. */
  predicate Truthy(v: Json) {
    match v
    case JNull => false
    case JBool(b) => b
    case JInt(i) => i != 0
    case JFloat(r) => r != 0.0
    case JStr(s) => s != ""
    case JArr(items) => items != []
    case JObj(fields) => fields != map[]
  }

  /** `d.get(key)`: the value, or `None` for a missing key. */
  function Get(d: Object, key: string): (v: Json)
    ensures key !in d ==> v == JNull
    ensures key in d ==> v == d[key]
  {
    if key in d then d[key] else JNull
  }

  /** `d.get(key, {})` followed by a dict operation: a missing key gives the
      empty dict, a dict is taken as it is, and anything else (including a
      stored `null`) raises `AttributeError` at the next `.get`. */
  function GetObject(d: Object, key: string): (r: Result<Object, string>)
    ensures key !in d ==> r == Success(map[])
    ensures key in d && d[key].JObj? ==> r == Success(d[key].fields)
    ensures key in d && !d[key].JObj? ==> r.Failure?
  {
    if key !in d then Success(map[])
    else match d[key]
      case JObj(fields) => Success(fields)
      case _ => Failure("AttributeError")
  }

  /** The string or `None` a CSV cell read with `row.get(key)` becomes. */
  function OptionalString(s: Option<string>): (v: Json)
    ensures s.None? <==> v == JNull
    ensures s.Some? ==> v == JStr(s.value)
  {
    match s
    case None => JNull
    case Some(x) => JStr(x)
  }

  /** An optional integer as a JSON value. */
  function OptionalInt(n: Option<int>): (v: Json)
    ensures n.None? <==> v == JNull
    ensures n.Some? ==> v == JInt(n.value)
  {
    match n
    case None => JNull
    case Some(x) => JInt(x)
  }
}
