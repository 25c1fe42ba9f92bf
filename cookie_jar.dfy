/**
 * The in-memory cookie jar and its update policy. Every cookie the browser
 * reports is upserted by name, except that a `_session` cookie whose
 * existing value carries user information is never overwritten.
 */
module CookieJar {
  import opened Wrappers
  import opened SessionToken

  type Cookies = map<string, string>

  /** The primary session cookie. */
  const SessionCookie: string := "_session"
  /** The secondary cookie that validates access through the API proxy. */
  const ProxySessionCookie: string := "web_rpc_proxy_session"

  /** The jar holds a `_session` whose existing value carries user information. */
  predicate SessionProtected(jar: Cookies, codec: TokenCodec) {
    SessionCookie in jar && HasUserId(codec, jar[SessionCookie])
  }

  /** An incoming cookie named `name` is dropped by the overwrite protection. */
  predicate Rejects(jar: Cookies, name: string, codec: TokenCodec)
    ensures Rejects(jar, name, codec) ==> name == SessionCookie && SessionCookie in jar
  {
    name == SessionCookie && SessionProtected(jar, codec)
  }

  /** The jar holds a primary or a proxy session cookie. */
  predicate IsAuthenticated(jar: Cookies)
    ensures IsAuthenticated(jar) ==> |jar| > 0
  {
    SessionCookie in jar || ProxySessionCookie in jar
  }

  /** The jar after the browser reports cookie `name` with `value`. */
  function Upsert(jar: Cookies, name: string, value: string, codec: TokenCodec): (r: Cookies)
    ensures Rejects(jar, name, codec) ==> r == jar
    ensures !Rejects(jar, name, codec) ==> name in r && r[name] == value
    ensures r.Keys == jar.Keys + (if Rejects(jar, name, codec) then {} else {name})
    ensures forall k :: k in jar && k != name ==> r[k] == jar[k]
  {
    if Rejects(jar, name, codec) then jar else jar[name := value]
  }

  /** One cookie-set event from the browser. */
  datatype CookieEvent = CookieEvent(name: string, value: string)

  /** The jar after a run of events, applied in order. */
  function ApplyEvents(jar: Cookies, events: seq<CookieEvent>, codec: TokenCodec): Cookies
    decreases |events|
  {
    if events == [] then jar
    else
      var last := events[|events| - 1];
      Upsert(ApplyEvents(jar, events[..|events| - 1], codec), last.name, last.value, codec)
  }

  /** The value of the last event that names `name`, if any. */
  function LastValue(events: seq<CookieEvent>, name: string): Option<string>
    decreases |events|
  {
    if events == [] then None
    else if events[|events| - 1].name == name then Some(events[|events| - 1].value)
    else LastValue(events[..|events| - 1], name)
  }

  /**
   * Once the jar holds a protected `_session`, no run of cookie events,
   * however interleaved, changes that value.
   */
  lemma {:induction false} ProtectedSessionSurvives(jar: Cookies, events: seq<CookieEvent>, codec: TokenCodec)
    requires SessionProtected(jar, codec)
    ensures var r := ApplyEvents(jar, events, codec);
      SessionProtected(r, codec) && r[SessionCookie] == jar[SessionCookie]
    decreases |events|
  {
    if events != [] {
      ProtectedSessionSurvives(jar, events[..|events| - 1], codec);
    }
  }

  /**
   * For every cookie other than `_session`, the jar ends up holding the value
   * of the last event for that name, or its old entry when no event names it.
   */
  lemma {:induction false} LastWriteWins(jar: Cookies, events: seq<CookieEvent>, codec: TokenCodec, name: string)
    requires name != SessionCookie
    ensures var r := ApplyEvents(jar, events, codec);
      match LastValue(events, name)
      case Some(v) => name in r && r[name] == v
      case None => (name in r <==> name in jar) && (name in jar ==> r[name] == jar[name])
    decreases |events|
  {
    if events != [] {
      LastWriteWins(jar, events[..|events| - 1], codec, name);
    }
  }

  /** Events never remove a cookie, so an authenticated jar stays authenticated. */
  lemma {:induction false} JarNeverShrinks(jar: Cookies, events: seq<CookieEvent>, codec: TokenCodec)
    ensures jar.Keys <= ApplyEvents(jar, events, codec).Keys
    ensures IsAuthenticated(jar) ==> IsAuthenticated(ApplyEvents(jar, events, codec))
    decreases |events|
  {
    if events != [] {
      JarNeverShrinks(jar, events[..|events| - 1], codec);
    }
  }

  /**
   * Without a protected `_session` in the jar (none present, its payload does
   * not decode, or the decoded text has no `userId`), an incoming `_session`
   * replaces the old one and nothing else changes.
   */
  lemma SessionReplacedUnlessUserIdFound(jar: Cookies, value: string, codec: TokenCodec)
    requires SessionCookie in jar ==>
      var decoded := codec.unquote(jar[SessionCookie]);
      var text := codec.b64decode(Base64Input(decoded));
      '.' !in decoded || text.None? || forall i :: !OccursAt(text.value, UserIdMarker, i)
    ensures Upsert(jar, SessionCookie, value, codec) == jar[SessionCookie := value]
  {
    if SessionCookie in jar {
      HasUserIdMeaning(codec, jar[SessionCookie]);
    }
  }
}
