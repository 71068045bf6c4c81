/** JSON values as `JSON.parse` produces them, and the JavaScript notions
    (truthiness, property access) that the client and server code apply to them. */
module Json {
  import opened Wrappers

  /** A parsed JSON value. JSON text has no NaN or Infinity, so a number is a real. */
  datatype Json =
    | JNull
    | JBool(b: bool)
    | JNum(n: real)
    | JStr(s: string)
    | JArr(items: seq<Json>)
    | JObj(fields: map<string, Json>)

  /** JavaScript truthiness of a parsed value: `null`, `false`, `0` and `""` are
      falsy, every array and every object is truthy. */
  predicate Truthy(j: Json) {
    match j
    case JNull => false
    case JBool(b) => b
    case JNum(n) => n != 0.0
    case JStr(s) => s != ""
    case JArr(_) => true
    case JObj(_) => true
  }

  /** The property `key` of an object; None when the value is not an object or
      has no such property (JavaScript reads `undefined` there). */
  function Property(j: Json, key: string): (r: Option<Json>)
    ensures r.Some? <==> j.JObj? && key in j.fields
    ensures r.Some? ==> r.value == j.fields[key]
  {
    if j.JObj? && key in j.fields then Some(j.fields[key]) else None
  }
}
