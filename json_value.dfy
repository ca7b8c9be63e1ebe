/**
 * A parsed JSON value, standing for the JavaScript values that reach the
 * options page from `JSON.parse` (and for any value handed to a check that
 * first asks whether it is truthy and a string).
 */
module JsonValue {

  datatype Json =
    | JNull
    | JBool(b: bool)
    | JNumber(n: real)
    | JString(s: string)
    | JArray(items: seq<Json>)
    | JObject(members: map<string, Json>)

  /** JavaScript truthiness (`Boolean(v)`, `!v`); JSON has no NaN or undefined. */
  predicate Truthy(v: Json) {
    match v
    case JNull => false
    case JBool(b) => b
    case JNumber(n) => n != 0.0
    case JString(s) => s != ""
    case JArray(_) => true
    case JObject(_) => true
  }

  /** `typeof v === 'object'`, which holds for null and for arrays too. */
  predicate TypeofObject(v: Json) {
    v.JNull? || v.JArray? || v.JObject?
  }
}
