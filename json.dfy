/**
 * An abstract stand-in for `serde_json::Value`, with the two accessors the
 * core uses: indexing an object by key and `as_str`.
 */
module Json {
  import opened Wrappers

  /** JSON numbers are kept as integers; floating point is not modelled. */
  datatype Value =
    | JNull
    | JBool(b: bool)
    | JNumber(n: int)
    | JString(s: string)
    | JArray(items: seq<Value>)
    | JObject(fields: map<string, Value>)

  /**
   * `v[key]`: the member of an object, or `Null` when `v` is not an object
   * or has no such member (serde_json never panics on a string index).
   */
  function Index(v: Value, key: string): (r: Value)
    ensures r != JNull ==> v.JObject? && key in v.fields && r == v.fields[key]
    ensures v.JObject? && key in v.fields ==> r == v.fields[key]
  {
    match v
    case JObject(fields) => if key in fields then fields[key] else JNull
    case _ => JNull
  }

  /** `Value::as_str`: the text of a string value, nothing for any other kind. */
  function AsStr(v: Value): (r: Option<string>)
    ensures r.Some? <==> v.JString?
    ensures r.Some? ==> v == JString(r.value)
  {
    match v
    case JString(s) => Some(s)
    case _ => None
  }
}
