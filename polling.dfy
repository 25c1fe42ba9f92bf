/**
 * Classification of one poll of the credits endpoint. The HTTP request
 * itself is outside the model: its result is a `Response`.
 */
module Polling {
  import opened Wrappers
  import opened CookieJar
  import opened Credits

  /**
   * What the request produced: it raised (network error, timeout), or a
   * status with a body that is a usage payload or could not be read as one.
   */
  datatype Response = Raised | Reply(status: int, body: Option<Payload>)

  /** How a poll ends. */
  datatype PollOutcome =
    | NoCookies          // the jar is empty; no request is made
    | Usage(payload: Payload)
    | Unauthorized       // 401 or 403
    | Failed             // any other status, an exception, or an unreadable body

  /** The outcome of polling with `jar` when the request yields `response`. */
  function Classify(jar: Cookies, response: Response): (o: PollOutcome)
    ensures o == NoCookies <==> |jar| == 0
    ensures o.Usage? <==> |jar| > 0 && response.Reply? && response.status == 200 && response.body.Some?
    ensures o.Usage? ==> o.payload == response.body.value
    ensures o == Unauthorized <==>
      |jar| > 0 && response.Reply? && (response.status == 401 || response.status == 403)
  {
    if |jar| == 0 then NoCookies
    else match response
      case Raised => Failed
      case Reply(status, body) =>
        if status == 200 then
          (match body
           case Some(p) => Usage(p)
           case None => Failed)
        else if status == 401 || status == 403 then Unauthorized
        else Failed
  }
}
