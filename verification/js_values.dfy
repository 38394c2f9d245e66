/** JSON values as the Express handlers and the geometry dispatcher see them
    after `express.json()` has parsed a request body, with JavaScript's
    truthiness.  Numbers are exact reals: floating-point rounding is not
    modelled, and JSON cannot carry NaN. */
module JsValues {
  import opened Wrappers

  datatype Json =
    | JNull
    | JBool(b: bool)
    | JNum(n: real)
    | JStr(s: string)
    | JArr(items: seq<Json>)
    | JObj(fields: map<string, Json>)

  /** JavaScript `Boolean(v)`: null, false, 0 and "" are falsy, every other
      value (including every array and object) is truthy. */
  predicate Truthy(v: Json) {
    match v
    case JNull => false
    case JBool(b) => b
    case JNum(n) => n != 0.0
    case JStr(s) => s != ""
    case JArr(_) => true
    case JObj(_) => true
  }

  /** JavaScript `a || b` on an optional value (`None` is `undefined`). */
  function OrElse(a: Option<Json>, b: Json): Json {
    if a.Some? && Truthy(a.value) then a.value else b
  }
}
