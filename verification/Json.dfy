/**
 * The value JSON.parse produces, and the two JavaScript operations the
 * client applies to it: reading a property and testing truthiness.
 * JSON.parse itself is not modelled: callers receive it as a parameter
 * of type `string -> Option<Json>` (None standing for a SyntaxError).
 */
module Json {
  import opened Wrappers

  /** A parsed JSON value. Numbers hold the double they parse to; objects map each key to its last value. */
  datatype Json =
    | JNull
    | JBool(b: bool)
    | JNumber(n: real)
    | JString(s: string)
    | JArray(items: seq<Json>)
    | JObject(fields: map<string, Json>)

  /** JavaScript truthiness: null, false, 0 and "" are falsy; every array and object, even an empty one, is truthy. */
  predicate Truthy(v: Json) {
    match v
    case JNull => false
    case JBool(b) => b
    case JNumber(n) => n != 0.0
    case JString(s) => s != ""
    case JArray(_) => true
    case JObject(_) => true
  }

  /** Reading `o.key` on an object: None stands for `undefined`. */
  function Property(fields: map<string, Json>, key: string): Option<Json> {
    if key in fields then Some(fields[key]) else None
  }
}
