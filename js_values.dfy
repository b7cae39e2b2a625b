/**
 The small part of JavaScript's value semantics that `KarmiaJSONRPC.call`
 relies on when it inspects a request body: JSON values as a parser hands
 them over, `Array.isArray`, reading a named property, the truthiness test
 `!x` and strict equality with a string literal.
 */
module JsValues {

  /** `Some(v)` is a property that is present; `None` is JavaScript's `undefined`. */
  datatype Option<+T> = None | Some(value: T)

  /** A parsed JSON value. Numbers are reals; `undefined` is not a JSON value. */
  datatype Json =
    | JNull
    | JBool(b: bool)
    | JNumber(n: real)
    | JString(s: string)
    | JArray(elems: seq<Json>)
    | JObject(fields: map<string, Json>)

  /** `Array.isArray(v)` */
  predicate IsArray(v: Json) {
    v.JArray?
  }

  /**
   `v[key]` for the two keys the request handler reads, "method" and
   "jsonrpc", which no built-in prototype defines. Reading a property of
   `null` throws, so the caller must rule that out; every other primitive
   and every array yields `undefined`.
   */
  function Property(v: Json, key: string): (p: Option<Json>)
    requires key == "method" || key == "jsonrpc"
    requires !v.JNull?
    ensures p.Some? <==> v.JObject? && key in v.fields
    ensures p.Some? ==> p.value == v.fields[key]
  {
    match v
    case JObject(fields) => if key in fields then Some(fields[key]) else None
    case _ => None
  }

  /** JavaScript's ToBoolean of a property read: `!!v[key]`. */
  predicate Truthy(p: Option<Json>) {
    match p
    case None => false
    case Some(JNull) => false
    case Some(JBool(b)) => b
    case Some(JNumber(n)) => n != 0.0
    case Some(JString(s)) => s != ""
    case Some(JArray(_)) => true
    case Some(JObject(_)) => true
  }

  /** `lit === p` for a string literal `lit`: only a string with the same characters is equal. */
  predicate StrictEqualsString(lit: string, p: Option<Json>) {
    p == Some(JString(lit))
  }

  /** The falsy values that parsed JSON can hold; every other value is truthy. */
  lemma FalsyValues(p: Option<Json>)
    ensures !Truthy(p) <==>
      p == None || p == Some(JNull) || p == Some(JBool(false))
      || p == Some(JNumber(0.0)) || p == Some(JString(""))
  {
  }
}
