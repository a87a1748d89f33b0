/**
 * What the two route handlers see and produce: a parsed JSON value, the
 * truthiness tests JavaScript applies to it, and a JSON response with its
 * HTTP status.
 */
module Http {
  import opened Wrappers

  /** A value produced by `request.json()`. Numbers are reals (JSON has no NaN or infinities). */
  datatype Json =
    | JNull
    | JBool(b: bool)
    | JNumber(n: real)
    | JString(s: string)
    | JArray(items: seq<Json>)
    | JObject(members: map<string, Json>)

  /** JavaScript truthiness of a destructured field; `None` is `undefined`. */
  predicate Truthy(v: Option<Json>) {
    match v
    case None => false
    case Some(JNull) => false
    case Some(JBool(b)) => b
    case Some(JNumber(n)) => n != 0.0
    case Some(JString(s)) => s != ""
    case Some(JArray(_)) => true
    case Some(JObject(_)) => true
  }

  /** The falsy values of JavaScript that JSON can carry: `undefined`, `null`, `false`, `0` and `""`. */
  lemma FalsyValues(v: Option<Json>)
    ensures !Truthy(v) <==> v in {None, Some(JNull), Some(JBool(false)), Some(JNumber(0.0)), Some(JString(""))}
  {
  }

  /** `NextResponse.json`: a 400 or 500 with an `{error}` body, or a 200 with a success body. */
  datatype Response<+T> = BadRequest(error: string) | ServerError(error: string) | Ok(body: T) {
    function Status(): (code: int)
      ensures code == 200 <==> Ok?
      ensures code == 400 <==> BadRequest?
      ensures code == 500 <==> ServerError?
      ensures 400 <= code < 600 <==> !Ok?
    {
      match this
      case BadRequest(_) => 400
      case ServerError(_) => 500
      case Ok(_) => 200
    }
  }

  /**
   * One run of a handler: the request it made to the outside service (none
   * when a check returned early or building the request threw) and the
   * response it returned.
   */
  datatype Outcome<+C, +T> = Outcome(call: Option<C>, response: Response<T>)
}
