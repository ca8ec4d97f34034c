/**
 * JSON values as the route handlers receive them after `request.json()`,
 * and the JavaScript truthiness and property-access rules the handlers
 * apply to them. Numbers are integers in this model.
 */
module JsValues {
  import opened Wrappers

  datatype JsValue =
    | JNull
    | JBool(b: bool)
    | JNum(n: int)
    | JStr(s: string)
    | JArray(items: seq<JsValue>)
    | JObject(fields: map<string, JsValue>)

  /** A JSON object body; a key that is not present reads as `undefined`. */
  type Record = map<string, JsValue>

  /** `obj[key]`, with `None` for `undefined`. */
  function Get(obj: Record, key: string): (r: Option<JsValue>)
    ensures r.Some? <==> key in obj
    ensures r.Some? ==> r.value == obj[key]
  {
    if key in obj then Some(obj[key]) else None
  }

  /** JavaScript truthiness; `undefined` (None) is falsy. */
  predicate Truthy(v: Option<JsValue>) {
    match v
    case None => false
    case Some(JNull) => false
    case Some(JBool(b)) => b
    case Some(JNum(n)) => n != 0
    case Some(JStr(s)) => s != ""
    case Some(_) => true
  }

  /** `typeof v === 'object'` (true of `null`, arrays and objects). */
  predicate IsObjectType(v: JsValue) {
    v.JNull? || v.JArray? || v.JObject?
  }

  /**
   * Optional-chaining property read `v?.[key]`: the field of an object,
   * or for key "0" the first element of a non-empty array; `undefined`
   * for every other value (for `undefined`, `null`, and primitives,
   * which carry none of the properties the handlers read).
   */
  function Prop(v: Option<JsValue>, key: string): (r: Option<JsValue>)
    ensures r.Some? ==> v.Some? && (v.value.JObject? || v.value.JArray?)
    ensures v.Some? && v.value.JObject? ==> r == Get(v.value.fields, key)
    ensures v.Some? && v.value.JArray? ==>
      r == (if key == "0" && |v.value.items| > 0 then Some(v.value.items[0]) else None)
  {
    match v
    case Some(JObject(fields)) => Get(fields, key)
    case Some(JArray(items)) =>
      if key == "0" && |items| > 0 then Some(items[0]) else None
    case _ => None
  }
}
