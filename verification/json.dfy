/** Gson's JSON tree, as the detector receives it after parsing. */
module Json {
  import opened Wrappers

  /** A JSON element. A number keeps its literal text, which is what Gson hands back
      when a number is read as a string. */
  datatype Json =
    | JStr(str: string)
    | JNum(lexeme: string)
    | JBool(b: bool)
    | JNull
    | JArr(elems: seq<Json>)
    | JObj(fields: map<string, Json>)

  /** A JSON object: the member names and their elements. A member written as `null`
      is present and holds `JNull`. */
  type JsonObject = map<string, Json>

  /** The unchecked exceptions Gson raises when an element has no string form. */
  datatype Exception = UnsupportedOperation | IllegalState

  /** Gson's `JsonElement.getAsString`: primitives give their text, a one-element
      array gives its element's text, and everything else throws. */
  function AsString(j: Json): (r: Result<string, Exception>)
    ensures j.JStr? ==> r == Success(j.str)
    ensures j.JNum? ==> r == Success(j.lexeme)
    ensures j.JBool? ==> r == Success(if j.b then "true" else "false")
    ensures j.JNull? || j.JObj? ==> r == Failure(UnsupportedOperation)
    ensures j.JArr? && |j.elems| != 1 ==> r == Failure(IllegalState)
    ensures j.JArr? && |j.elems| == 1 ==> r == AsString(j.elems[0])
  {
    match j
    case JStr(s) => Success(s)
    case JNum(t) => Success(t)
    case JBool(b) => Success(if b then "true" else "false")
    case JNull => Failure(UnsupportedOperation)
    case JObj(_) => Failure(UnsupportedOperation)
    case JArr(es) => if |es| == 1 then AsString(es[0]) else Failure(IllegalState)
  }

  /** The element is a JSON primitive holding a string. */
  predicate IsString(j: Json) {
    j.JStr?
  }
}
