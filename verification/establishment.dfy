/** The session establisher of the session middleware: a one-way latch that
    decides, at the moment the response starts, whether the session cookie is
    written, and the cookie writer itself.

    HTTP transport is reduced to what the establisher observes and records:
    whether the response has started, whether the request came over HTTPS,
    the cookies appended to the response and its header map. */
module Establishment {
  import opened Results

  /** The cookie path used when the options leave it null. SessionDefaults is
      not part of this model; its cookie path is the site root. */
  const DefaultCookiePath: string := "/"

  /** `CookieSecurePolicy`; `Never` is the .NET value `None`, renamed so that it does not
      hide `Option.None`. */
  datatype CookieSecurePolicy = SameAsRequest | Always | Never

  /** The cookie-related part of the middleware options. */
  datatype SessionOptions = SessionOptions(
    cookieName: string,
    cookieDomain: Option<string>,
    cookiePath: Option<string>,
    cookieHttpOnly: bool,
    cookieSecure: CookieSecurePolicy)

  /** The attributes of one appended Set-Cookie header. */
  datatype CookieOptions = CookieOptions(domain: Option<string>, path: string, httpOnly: bool, secure: bool)

  datatype Cookie = Cookie(name: string, value: string, options: CookieOptions)

  datatype Request = Request(cookies: map<string, string>, isHttps: bool)

  /** A letter of ASCII upper case in lower case; every other character as it is. */
  function FoldChar(c: char): char {
    if 'A' <= c <= 'Z' then (c as int + 32) as char else c
  }

  /** A header name in the form under which the response's header dictionary
      files it: names that differ only in the case of ASCII letters are one
      name. */
  function FoldName(name: string): (r: string)
    ensures |r| == |name|
    ensures forall i :: 0 <= i < |name| ==> r[i] == FoldChar(name[i])
  {
    seq(|name|, i requires 0 <= i < |name| => FoldChar(name[i]))
  }

  /** A header dictionary: each header is filed under its folded name. */
  type Headers = h: map<string, string> | forall name :: name in h ==> FoldName(name) == name
    witness map[]

  /** The value of the header `name`, whatever the case of its letters. */
  function HeaderValue(headers: Headers, name: string): Option<string> {
    if FoldName(name) in headers then Some(headers[FoldName(name)]) else None
  }

  /** `Headers[name] = value`: replaces the header of that name in any case. */
  function SetHeader(headers: Headers, name: string, value: string): (r: Headers)
    ensures HeaderValue(r, name) == Some(value)
    ensures r.Keys == headers.Keys + {FoldName(name)}
  {
    assert FoldName(FoldName(name)) == FoldName(name);
    headers[FoldName(name) := value]
  }

  /** Setting a header leaves every header of another name as it was. */
  lemma SetHeaderKeepsOthers(headers: Headers, name: string, value: string, other: string)
    requires FoldName(other) != FoldName(name)
    ensures HeaderValue(SetHeader(headers, name, value), other) == HeaderValue(headers, other)
  {
  }

  /** What the establisher can observe and change of the response. */
  datatype Response = Response(hasStarted: bool, cookies: seq<Cookie>, headers: Headers)

  /** The capability a session uses to ask whether it may still become
      established: a constant `true` for a session whose key came from a valid
      cookie, or the establisher of a freshly minted key together with the
      protected cookie value it will write and its latch. */
  datatype Capability =
    | ReturnTrue
    | Establisher(cookieValue: string, shouldEstablishSession: bool)

  /** The latch of a capability; the constant capability counts as set. */
  predicate Latched(c: Capability) {
    c.ReturnTrue? || c.shouldEstablishSession
  }

  /** `b` is `a` or `a` with its latch set: the only change a capability
      ever undergoes. */
  predicate LatchStep(a: Capability, b: Capability) {
    b == a || (a.Establisher? && b == a.(shouldEstablishSession := true))
  }

  datatype Attempt = Attempt(established: bool, capability: Capability)

  /** One call of the capability while the response is in the given state.
      The establisher ORs "the response has not started" into its latch and
      answers with the latch. */
  function TryEstablishSession(c: Capability, hasStarted: bool): (r: Attempt)
    ensures LatchStep(c, r.capability)
    ensures r.established <==> Latched(c) || !hasStarted
    ensures r.established == Latched(r.capability)
    ensures hasStarted ==> r.capability == c
  {
    match c
    case ReturnTrue => Attempt(true, c)
    case Establisher(value, latch) =>
      var latch' := latch || !hasStarted;
      Attempt(latch', Establisher(value, latch'))
  }

  /** The Secure attribute the options ask for on a request. */
  function SecureFlag(policy: CookieSecurePolicy, isHttps: bool): (secure: bool)
    ensures policy == Always ==> secure
    ensures policy == Never ==> !secure
    ensures policy == SameAsRequest ==> (secure <==> isHttps)
  {
    if policy == SameAsRequest then isHttps else policy == Always
  }

  /** The headers that keep a response that establishes a session out of caches,
      by folded name. */
  const NoCacheHeaders: map<string, string> :=
    map["cache-control" := "no-cache", "pragma" := "no-cache", "expires" := "-1"]

  /** The session cookie the establisher writes: named by the options,
      carrying the protected key, scoped by the options' domain and path (the
      default path when none is set), HttpOnly as configured, and Secure as
      the policy decides for this request. */
  function SessionCookie(options: SessionOptions, request: Request, cookieValue: string): (c: Cookie)
    ensures c.name == options.cookieName && c.value == cookieValue
    ensures c.options.domain == options.cookieDomain
    ensures c.options.httpOnly == options.cookieHttpOnly
    ensures options.cookiePath.Some? ==> c.options.path == options.cookiePath.value
    ensures options.cookiePath.None? ==> c.options.path == DefaultCookiePath
    ensures c.options.secure <==> options.cookieSecure == Always || (options.cookieSecure == SameAsRequest && request.isHttps)
  {
    var path := if options.cookiePath.Some? then options.cookiePath.value else DefaultCookiePath;
    Cookie(options.cookieName, cookieValue,
      CookieOptions(options.cookieDomain, path, options.cookieHttpOnly, SecureFlag(options.cookieSecure, request.isHttps)))
  }

  /** The names the establisher writes, folded. */
  lemma NoCacheNamesFolded()
    ensures FoldName("Cache-Control") == "cache-control"
    ensures FoldName("Pragma") == "pragma"
    ensures FoldName("Expires") == "expires"
  {
  }

  /** The three header assignments that mark a response uncacheable: in the
      folded dictionary they overwrite the no-cache headers. */
  function MarkNoCache(headers: Headers): (r: Headers)
    ensures r == headers + NoCacheHeaders
  {
    NoCacheNamesFolded();
    var h1 := SetHeader(headers, "Cache-Control", "no-cache");
    assert h1 == headers["cache-control" := "no-cache"];
    var h2 := SetHeader(h1, "Pragma", "no-cache");
    assert h2 == h1["pragma" := "no-cache"];
    var h3 := SetHeader(h2, "Expires", "-1");
    assert h3 == h2["expires" := "-1"];
    NoCacheUnion(headers);
    h3
  }

  /** Adding the no-cache headers is the three updates in write order. */
  lemma NoCacheUnion(headers: map<string, string>)
    ensures headers + NoCacheHeaders == headers["cache-control" := "no-cache"]["pragma" := "no-cache"]["expires" := "-1"]
  {
  }

  /** Marking a response uncacheable replaces a no-cache header written in
      any letter case, so exactly one of each remains, and leaves every other
      header as it was. */
  lemma MarkNoCacheIgnoresCase(headers: Headers)
    ensures MarkNoCache(headers).Keys == headers.Keys + NoCacheHeaders.Keys
    ensures forall name :: FoldName(name) in NoCacheHeaders ==>
      HeaderValue(MarkNoCache(headers), name) == Some(NoCacheHeaders[FoldName(name)])
    ensures forall name :: FoldName(name) !in NoCacheHeaders ==>
      HeaderValue(MarkNoCache(headers), name) == HeaderValue(headers, name)
  {
  }

  /** Appends the session cookie and marks the response uncacheable. */
  function SetCookie(options: SessionOptions, request: Request, cookieValue: string, response: Response): (r: Response)
    ensures r.hasStarted == response.hasStarted
    ensures r.cookies == response.cookies + [SessionCookie(options, request, cookieValue)]
    ensures r.headers == MarkNoCache(response.headers)
  {
    response.(cookies := response.cookies + [SessionCookie(options, request, cookieValue)], headers := MarkNoCache(response.headers))
  }

  /** The capability has an establisher whose latch is set: the one state in
      which the start of the response writes a cookie. */
  predicate WritesCookie(c: Capability) {
    c.Establisher? && c.shouldEstablishSession
  }

  /** The callback the establisher registers for the moment the response
      starts: it writes the cookie exactly when the latch is set. A session
      with the constant capability registered no callback. */
  function OnStartingCallback(c: Capability, options: SessionOptions, request: Request, response: Response): (r: Response)
    ensures r.hasStarted == response.hasStarted
    ensures WritesCookie(c) ==> r == SetCookie(options, request, c.cookieValue, response)
    ensures !WritesCookie(c) ==> r == response
  {
    if WritesCookie(c) then SetCookie(options, request, c.cookieValue, response) else response
  }

  /** The cookies a response that starts with this capability gains. */
  function CookiesWritten(c: Capability, options: SessionOptions, request: Request): seq<Cookie> {
    if WritesCookie(c) then [SessionCookie(options, request, c.cookieValue)] else []
  }

  /** The response starts: the registered callback runs once, then the
      response counts as started. Starting a started response does nothing. */
  function StartResponse(c: Capability, options: SessionOptions, request: Request, response: Response): (r: Response)
    ensures r.hasStarted
    ensures response.hasStarted ==> r == response
    ensures !response.hasStarted ==> r.cookies == response.cookies + CookiesWritten(c, options, request)
    ensures !response.hasStarted && !WritesCookie(c) ==> r.headers == response.headers
    ensures !response.hasStarted && WritesCookie(c) ==>
      r.headers == SetCookie(options, request, c.cookieValue, response).headers
  {
    if response.hasStarted then response
    else OnStartingCallback(c, options, request, response).(hasStarted := true)
  }
}
