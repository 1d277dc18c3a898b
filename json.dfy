/** The parsed JSON request body, as far as the handlers look at it. */
module Json {
  import opened Options

  /** A JSON value. Only its Python truthiness and, for strings, its text matter to the
      handlers, so arrays and objects keep just their size. */
  datatype Json =
    | JNull
    | JBool(b: bool)
    | JNumber(n: real)
    | JString(s: string)
    | JArray(length: nat)
    | JObject(size: nat)

  /** Python's `bool(v)` for the value `json.loads` produces: false exactly for null,
      false, zero, the empty string, the empty array and the empty object. */
  predicate Truthy(v: Json)
    ensures !Truthy(v) <==> v in {JNull, JBool(false), JNumber(0.0), JString([]), JArray(0), JObject(0)}
  {
    match v
    case JNull => false
    case JBool(b) => b
    case JNumber(n) => n != 0.0
    case JString(s) => s != []
    case JArray(length) => length > 0
    case JObject(size) => size > 0
  }

  /** The request object `data`: `None` stands for a key that is not in it. A body that is
      missing, not JSON, or a falsy JSON value becomes `{}`, that is `Body(None, None)`. */
  datatype Body = Body(title: Option<Json>, completed: Option<Json>)
}
