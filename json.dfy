/**
 * JSON values as `JSON.parse` produces them, with numbers taken to be
 * integers, and the JavaScript operations the packet validator applies
 * to them: truthiness, `typeof` and property access.
 */
module Json {
  import opened Wrappers

  datatype Json =
    | JNull
    | JBool(b: bool)
    | JNumber(n: int)
    | JString(s: string)
    | JArray(elems: seq<Json>)
    | JObject(fields: map<string, Json>)

  /** The text of a datagram: JSON text, or text `JSON.parse` throws on. */
  datatype Input = Unparsable | Parsed(value: Json)

  /** JavaScript truthiness (`!!v`) of a parsed value. */
  predicate Truthy(v: Json) {
    match v
    case JNull => false
    case JBool(b) => b
    case JNumber(n) => n != 0
    case JString(s) => s != ""
    case _ => true
  }

  /** `typeof v === 'object'`, which holds for null, arrays and objects. */
  predicate TypeofObject(v: Json) {
    v.JNull? || v.JArray? || v.JObject?
  }

  /** `v[key]` on a parsed object; `undefined` (None) when absent or when v is not an object. */
  function Field(v: Json, key: string): (r: Option<Json>)
    ensures r.Some? <==> v.JObject? && key in v.fields
  {
    if v.JObject? && key in v.fields then Some(v.fields[key]) else None
  }

  /** `typeof x === 'string'` for a property that may be undefined. */
  predicate IsString(x: Option<Json>) { x.Some? && x.value.JString? }

  /** `typeof x === 'number'` for a property that may be undefined. */
  predicate IsNumber(x: Option<Json>) { x.Some? && x.value.JNumber? }
}
