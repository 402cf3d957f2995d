/** The session middleware: it picks the session key (reusing the one the
    request's cookie carries when it is valid, minting one otherwise), runs
    the rest of the pipeline with a distributed session, and commits that
    session afterwards whatever the pipeline did.

    The rest of the pipeline is modelled as a list of steps: session
    operations, the start of the response, and an exception thrown by
    application code. An exception ends the pipeline, as an unhandled one
    does. The cookie protector and the key generator are given as their
    answers for this request. */
module SessionMiddleware {
  import opened Results
  import opened RecordCodec
  import opened Establishment
  import opened DistributedSessions

  // ---- session keys ----------------------------------------------------------------

  /** `char.IsWhiteSpace`: the Unicode space, line and paragraph separators
      together with the control characters U+0009 to U+000D and U+0085. */
  predicate IsWhiteSpace(c: char) {
    || ('\U{9}' <= c <= '\U{D}') || c == '\U{20}' || c == '\U{85}' || c == '\U{A0}'
    || c == '\U{1680}' || ('\U{2000}' <= c <= '\U{200A}') || c == '\U{2028}' || c == '\U{2029}'
    || c == '\U{202F}' || c == '\U{205F}' || c == '\U{3000}'
  }

  /** Whether every character of `s` is white space, scanning from the front. */
  function AllWhiteSpace(s: string): (r: bool)
    ensures r <==> forall i :: 0 <= i < |s| ==> IsWhiteSpace(s[i])
  {
    if |s| == 0 then true
    else if !IsWhiteSpace(s[0]) then false
    else
      var rest := AllWhiteSpace(s[1..]);
      assert forall i :: 1 <= i < |s| ==> s[i] == s[1..][i - 1];
      rest
  }

  /** `string.IsNullOrWhiteSpace`; None stands for null. */
  function IsNullOrWhiteSpace(value: Option<string>): (r: bool)
    ensures r <==> value.None? || forall i :: 0 <= i < |value.value| ==> IsWhiteSpace(value.value[i])
  {
    value.None? || AllWhiteSpace(value.value)
  }

  /** `string.Length`: the number of UTF-16 code units, two for a character
      outside the Basic Multilingual Plane. */
  function Utf16Length(s: string): (n: nat)
    ensures |s| <= n <= 2 * |s|
    ensures (forall i :: 0 <= i < |s| ==> s[i] <= '\U{FFFF}') ==> n == |s|
  {
    if |s| == 0 then 0
    else
      var rest := Utf16Length(s[1..]);
      assert forall i :: 1 <= i < |s| ==> s[i] == s[1..][i - 1];
      (if s[0] <= '\U{FFFF}' then 1 else 2) + rest
  }

  /** The collaborators' answers for this request: the cookie protector's
      `unprotect` (None for a missing or unreadable cookie) and `protect`,
      and the key generator's required key length and the key it would mint.
      The generator is pluggable, so the length is whatever it reports. */
  datatype Oracles = Oracles(
    unprotect: Option<string> -> Option<string>,
    protect: string -> string,
    sessionKeyLength: int,
    newSessionKey: string)

  datatype SessionKey = SessionKey(key: string, capability: Capability, isNewSessionKey: bool)

  /** The raw value of the session cookie, None when the request has none. */
  function CookieValue(options: SessionOptions, request: Request): Option<string> {
    if options.cookieName in request.cookies then Some(request.cookies[options.cookieName]) else None
  }

  /** Whether a key the cookie carries may be reused: the negation of the
      middleware's test, true exactly when the key is present, has a
      character that is not white space, and is a session key long. */
  function Reusable(key: Option<string>, sessionKeyLength: int): (r: bool)
    ensures r <==>
      && key.Some?
      && (exists i :: 0 <= i < |key.value| && !IsWhiteSpace(key.value[i]))
      && Utf16Length(key.value) == sessionKeyLength
  {
    !(IsNullOrWhiteSpace(key) || Utf16Length(key.value) != sessionKeyLength)
  }

  /** The key-selection half of `Invoke`. A valid key from the cookie is
      reused with the constant capability; otherwise a new key is minted and
      checked, and an establisher with a clear latch will write its
      protected form as the cookie. */
  function ResolveSessionKey(options: SessionOptions, request: Request, oracles: Oracles): (r: Result<SessionKey>)
    ensures var key := oracles.unprotect(CookieValue(options, request));
      Reusable(key, oracles.sessionKeyLength) ==> r == Ok(SessionKey(key.value, ReturnTrue, false))
    ensures var key := oracles.unprotect(CookieValue(options, request));
      !Reusable(key, oracles.sessionKeyLength) && Utf16Length(oracles.newSessionKey) != oracles.sessionKeyLength ==> r == Err(Format)
    ensures var key := oracles.unprotect(CookieValue(options, request));
      !Reusable(key, oracles.sessionKeyLength) && Utf16Length(oracles.newSessionKey) == oracles.sessionKeyLength ==>
        r == Ok(SessionKey(oracles.newSessionKey, Establisher(oracles.protect(oracles.newSessionKey), false), true))
    ensures r.Ok? ==> Utf16Length(r.value.key) == oracles.sessionKeyLength
    ensures r.Ok? ==> (r.value.isNewSessionKey <==> r.value.capability.Establisher?)
  {
    var key := oracles.unprotect(CookieValue(options, request));
    if !Reusable(key, oracles.sessionKeyLength) then
      var minted := oracles.newSessionKey;
      if Utf16Length(minted) != oracles.sessionKeyLength then Err(Format)
      else Ok(SessionKey(minted, Establisher(oracles.protect(minted), false), true))
    else Ok(SessionKey(key.value, ReturnTrue, false))
  }

  // ---- the rest of the pipeline ----------------------------------------------------

  /** One thing the application does while the middleware waits for it. */
  datatype Step =
    | GetValue(key: Key)
    | ListKeys
    | SetValue(key: Key, value: Value)
    | RemoveKey(key: Key)
    | ClearAll
    | LoadSession
    | CommitSession
    | BeginResponse
    | Throw

  /** `enumerate` yields every store's dictionary enumeration order. */
  ghost predicate Enumerates(enumerate: Store -> seq<Key>) {
    forall store :: IsEnumeration(enumerate(store), store)
  }

  /** The request state the steps change, and how often the cache was read. */
  datatype Context = Context(session: Session, response: Response, cache: Cache, fetches: nat)

  datatype Stepped = Stepped(context: Context, result: Result<()>)

  /** The cookies of the response agree with the latch: none written
      before the response starts, and afterwards exactly the session cookie
      when the latch is set. */
  predicate CookiesAgree(ctx: Context, initial: seq<Cookie>, options: SessionOptions, request: Request) {
    && (!ctx.response.hasStarted ==> ctx.response.cookies == initial)
    && (ctx.response.hasStarted ==> ctx.response.cookies == initial + CookiesWritten(ctx.session.capability, options, request))
  }

  /** The outcome of any session operation, its value dropped. */
  function Discard<T>(o: Outcome<T>): (r: Outcome<()>)
    ensures r.session == o.session && r.fetched == o.fetched && (r.result.Ok? <==> o.result.Ok?)
  {
    Outcome(o.session, if o.result.Ok? then Ok(()) else Err(o.result.error), o.fetched)
  }

  /** Performs a step that reads or changes the session's entries. Whatever
      the operation, it reads the cache only while the session is unloaded,
      leaves the session loaded when that read succeeds, and never clears the
      modified flag; only a commit does that. */
  function Operate(s: Session, step: Step, cache: Cache, hasStarted: bool): (r: Outcome<()>)
    requires !step.CommitSession? && !step.BeginResponse? && !step.Throw?
    ensures SameIdentity(s, r.session)
    ensures s.loaded ==> r.session.loaded && !r.fetched
    ensures r.fetched && r.result.Ok? ==> r.session.loaded
    ensures r.fetched ==> !s.loaded
    ensures s.isModified ==> r.session.isModified
    ensures Valid(s) ==> Valid(r.session)
    ensures LatchStep(s.capability, r.session.capability)
    ensures hasStarted ==> r.session.capability == s.capability
  {
    match step
    case GetValue(key) => Discard(TryGetValue(s, cache, key))
    case ListKeys => Discard(Keys(s, cache))
    case SetValue(key, value) => Set(s, cache, hasStarted, key, value)
    case RemoveKey(key) => Remove(s, cache, key)
    case ClearAll => Clear(s, cache)
    case LoadSession => Load(s, cache)
  }

  /** Performs one step against the session, the response and the cache. A
      commit by the application is `DistributedSessions.Commit` with the
      store's enumeration order. */
  function Apply(ctx: Context, step: Step, options: SessionOptions, request: Request, enumerate: Store -> seq<Key>): (r: Stepped)
    requires Enumerates(enumerate)
    ensures SameIdentity(ctx.session, r.context.session)
    ensures ctx.session.loaded ==> r.context.session.loaded && r.context.fetches == ctx.fetches
    ensures r.context.fetches <= ctx.fetches + 1
    ensures r.context.fetches > ctx.fetches && r.result.Ok? ==> r.context.session.loaded
    ensures ctx.session.isModified && !step.CommitSession? ==> r.context.session.isModified
    ensures Valid(ctx.session) ==> Valid(r.context.session)
    ensures LatchStep(ctx.session.capability, r.context.session.capability)
    ensures ctx.response.hasStarted ==> r.context.response == ctx.response && r.context.session.capability == ctx.session.capability
    ensures step.BeginResponse? ==>
      && r.context.session == ctx.session && r.context.cache == ctx.cache && r.context.fetches == ctx.fetches
      && r.context.response.hasStarted
    ensures !step.BeginResponse? ==> r.context.response == ctx.response
    ensures step.Throw? ==> r == Stepped(ctx, Err(Application))
    ensures !step.CommitSession? ==> r.context.cache == ctx.cache
    ensures step.CommitSession? ==>
      && r.context.session == ctx.session.(isModified := false)
      && r.context.fetches == ctx.fetches
    ensures var s := ctx.session;
      step.CommitSession? && s.isModified && r.result.Ok? ==>
        && Serialize(s.store, enumerate(s.store)).Ok?
        && r.context.cache == ctx.cache[s.sessionId := Serialize(s.store, enumerate(s.store)).value]
    ensures step.CommitSession? && (!ctx.session.isModified || r.result.Err?) ==> r.context.cache == ctx.cache
  {
    if step.BeginResponse? then
      Stepped(ctx.(response := StartResponse(ctx.session.capability, options, request, ctx.response)), Ok(()))
    else if step.Throw? then Stepped(ctx, Err(Application))
    else if step.CommitSession? then
      var c := Commit(ctx.session, ctx.cache, enumerate(ctx.session.store));
      Stepped(ctx.(session := c.session, cache := c.cache), c.result)
    else
      var o := Operate(ctx.session, step, ctx.cache, ctx.response.hasStarted);
      Stepped(ctx.(session := o.session, fetches := ctx.fetches + (if o.fetched then 1 else 0)),
              if o.result.Ok? then Ok(()) else Err(o.result.error))
  }

  /** Runs the steps in order until one throws. */
  function Run(ctx: Context, steps: seq<Step>, options: SessionOptions, request: Request, enumerate: Store -> seq<Key>): (r: Stepped)
    requires Enumerates(enumerate)
    ensures SameIdentity(ctx.session, r.context.session)
    ensures LatchStep(ctx.session.capability, r.context.session.capability)
    ensures Throw in steps ==> r.result.Err?
    decreases |steps|
  {
    if |steps| == 0 then Stepped(ctx, Ok(()))
    else
      var first := Apply(ctx, steps[0], options, request, enumerate);
      if first.result.Err? then first
      else
        var rest := Run(first.context, steps[1..], options, request, enumerate);
        assert Throw in steps ==> Throw in steps[1..] by {
          if Throw in steps && steps[0] != Throw {
            var i :| 0 <= i < |steps| && steps[i] == Throw;
            assert steps[1..][i - 1] == Throw;
          }
        }
        rest
  }

  /** The session is loaded from the cache at most once per pipeline: a load
      that succeeds is never repeated, and a load that fails ends the
      pipeline. */
  lemma {:induction false} RunFetchesAtMostOnce(ctx: Context, steps: seq<Step>, options: SessionOptions, request: Request, enumerate: Store -> seq<Key>)
    requires Enumerates(enumerate)
    ensures var r := Run(ctx, steps, options, request, enumerate);
      r.context.fetches <= ctx.fetches + (if ctx.session.loaded then 0 else 1)
    decreases |steps|
  {
    if |steps| > 0 {
      var first := Apply(ctx, steps[0], options, request, enumerate);
      if first.result.Ok? {
        RunFetchesAtMostOnce(first.context, steps[1..], options, request, enumerate);
      }
    }
  }

  /** Every session the pipeline leaves behind is valid. Only a commit by
      the application resets the modified flag or writes the cache: a
      pipeline without one keeps both. */
  lemma {:induction false} RunPreservesSession(ctx: Context, steps: seq<Step>, options: SessionOptions, request: Request, enumerate: Store -> seq<Key>)
    requires Enumerates(enumerate)
    requires Valid(ctx.session)
    ensures var r := Run(ctx, steps, options, request, enumerate);
      && Valid(r.context.session)
      && (CommitSession !in steps ==> r.context.cache == ctx.cache)
      && (CommitSession !in steps && ctx.session.isModified ==> r.context.session.isModified)
    decreases |steps|
  {
    if |steps| > 0 {
      var first := Apply(ctx, steps[0], options, request, enumerate);
      if first.result.Ok? {
        assert CommitSession in steps[1..] ==> CommitSession in steps;
        RunPreservesSession(first.context, steps[1..], options, request, enumerate);
      }
    }
  }

  /** One step keeps the cookies in agreement with the latch: the latch
      cannot change once the response has started, and the start writes the
      cookie exactly when the latch is set. */
  lemma ApplyKeepsCookiesAgreed(ctx: Context, step: Step, options: SessionOptions, request: Request, enumerate: Store -> seq<Key>, initial: seq<Cookie>)
    requires Enumerates(enumerate)
    requires CookiesAgree(ctx, initial, options, request)
    ensures CookiesAgree(Apply(ctx, step, options, request, enumerate).context, initial, options, request)
  {
  }

  lemma {:induction false} RunKeepsCookiesAgreed(ctx: Context, steps: seq<Step>, options: SessionOptions, request: Request, enumerate: Store -> seq<Key>, initial: seq<Cookie>)
    requires Enumerates(enumerate)
    requires CookiesAgree(ctx, initial, options, request)
    ensures CookiesAgree(Run(ctx, steps, options, request, enumerate).context, initial, options, request)
    decreases |steps|
  {
    if |steps| > 0 {
      ApplyKeepsCookiesAgreed(ctx, steps[0], options, request, enumerate, initial);
      var first := Apply(ctx, steps[0], options, request, enumerate);
      if first.result.Ok? {
        RunKeepsCookiesAgreed(first.context, steps[1..], options, request, enumerate, initial);
      }
    }
  }

  // ---- the middleware --------------------------------------------------------------

  /** What a request leaves behind: the response, the cache, the exception
      `Invoke` ends with, the capability whose callback the start of the
      response will run (the constant one when no establisher was created),
      how often the cache was read, the session as the commit left it (None
      when no session was created) and whether the commit wrote it. */
  datatype Served = Served(
    response: Response,
    cache: Cache,
    result: Result<()>,
    capability: Capability,
    fetches: nat,
    session: Option<Session>,
    saved: bool)

  /** A minted key's establisher registers its callback with the response
      as it is constructed, before the pipeline runs; the server refuses the
      registration once the response has started. */
  predicate RegistrationRefused(k: SessionKey, response: Response) {
    k.capability.Establisher? && response.hasStarted
  }

  /** `Invoke`: choose the session key, create the session, run the rest of
      the pipeline, and commit the session in a `finally`, swallowing
      whatever the commit throws. A refused callback registration throws
      before any session exists. `enumerate` is the dictionary's enumeration
      order at each commit. */
  function Invoke(options: SessionOptions, request: Request, oracles: Oracles, response: Response, cache: Cache,
                  steps: seq<Step>, enumerate: Store -> seq<Key>): (r: Served)
    requires Enumerates(enumerate)
    ensures ResolveSessionKey(options, request, oracles).Err? ==>
      r == Served(response, cache, Err(Format), ReturnTrue, 0, None, false)
    ensures var key := ResolveSessionKey(options, request, oracles);
      key.Ok? && RegistrationRefused(key.value, response) ==>
        r == Served(response, cache, Err(InvalidOperation), ReturnTrue, 0, None, false)
    ensures var key := ResolveSessionKey(options, request, oracles);
      key.Ok? && !RegistrationRefused(key.value, response) ==>
        var k := key.value;
        var run := Run(Context(NewSession(k.key, k.capability, k.isNewSessionKey), response, cache, 0), steps, options, request, enumerate);
        var committed := Commit(run.context.session, run.context.cache, enumerate(run.context.session.store));
        && r.result == run.result
        && r.response == run.context.response
        && r.cache == committed.cache
        && r.session == Some(committed.session)
        && (r.saved <==> run.context.session.isModified && committed.result.Ok?)
        && r.capability == run.context.session.capability
        && r.fetches == run.context.fetches
  {
    match ResolveSessionKey(options, request, oracles)
    case Err(e) => Served(response, cache, Err(e), ReturnTrue, 0, None, false)
    case Ok(k) =>
      if RegistrationRefused(k, response) then Served(response, cache, Err(InvalidOperation), ReturnTrue, 0, None, false)
      else
        var session := NewSession(k.key, k.capability, k.isNewSessionKey);
        var run := Run(Context(session, response, cache, 0), steps, options, request, enumerate);
        var finalSession := run.context.session;
        var committed := Commit(finalSession, run.context.cache, enumerate(finalSession.store));
        Served(run.context.response, committed.cache, run.result, finalSession.capability, run.context.fetches,
               Some(committed.session), finalSession.isModified && committed.result.Ok?)
  }

  /** The server sends the response after the middleware returns. When the
      middleware returned normally, the server starts a response the pipeline
      left unstarted, which runs the establisher's OnStarting callback. When
      it threw, the server sends its error response without running any
      OnStarting callback. */
  function Respond(options: SessionOptions, request: Request, served: Served): (r: Response)
    ensures r.hasStarted
    ensures served.response.hasStarted ==> r == served.response
    ensures !served.response.hasStarted && served.result.Ok? ==>
      r.cookies == served.response.cookies + CookiesWritten(served.capability, options, request)
    ensures !served.response.hasStarted && served.result.Err? ==> r.cookies == served.response.cookies
  {
    if served.result.Ok? then StartResponse(served.capability, options, request, served.response)
    else served.response.(hasStarted := true)
  }

  /** A request loads the session from the cache at most once: a load that
      succeeds is never repeated, and a failed load ends the pipeline. Two
      further reads of the program are not part of this model: the read
      `CommitAsync` makes of a modified session before writing it, and a
      reload after application code catches a failed load. */
  lemma InvokeReadsCacheAtMostOnce(options: SessionOptions, request: Request, oracles: Oracles, response: Response,
                                   cache: Cache, steps: seq<Step>, enumerate: Store -> seq<Key>)
    requires Enumerates(enumerate)
    ensures Invoke(options, request, oracles, response, cache, steps, enumerate).fetches <= 1
  {
    var key := ResolveSessionKey(options, request, oracles);
    if key.Ok? {
      var k := key.value;
      RunFetchesAtMostOnce(Context(NewSession(k.key, k.capability, k.isNewSessionKey), response, cache, 0), steps, options, request, enumerate);
    }
  }

  /** The response the client receives gains at most one cookie, and that
      cookie is the session cookie carrying the protected form of the minted
      key. It is written exactly when the establisher's latch was set and
      the response started either inside the pipeline or after a pipeline
      that returned normally; a pipeline that throws before the response
      starts writes no cookie. The latch is set when some Set succeeded
      before the response started. A request that reused the cookie's key
      writes no cookie. */
  lemma ResponseCookies(options: SessionOptions, request: Request, oracles: Oracles, response: Response,
                        cache: Cache, steps: seq<Step>, enumerate: Store -> seq<Key>)
    requires Enumerates(enumerate)
    requires !response.hasStarted
    ensures var served := Invoke(options, request, oracles, response, cache, steps, enumerate);
      Respond(options, request, served).cookies == response.cookies +
        (if served.result.Ok? || served.response.hasStarted then CookiesWritten(served.capability, options, request) else [])
    ensures var served := Invoke(options, request, oracles, response, cache, steps, enumerate);
      WritesCookie(served.capability) ==>
        && !Reusable(oracles.unprotect(CookieValue(options, request)), oracles.sessionKeyLength)
        && served.capability.cookieValue == oracles.protect(oracles.newSessionKey)
  {
    var served := Invoke(options, request, oracles, response, cache, steps, enumerate);
    var key := ResolveSessionKey(options, request, oracles);
    if key.Ok? {
      var k := key.value;
      var ctx := Context(NewSession(k.key, k.capability, k.isNewSessionKey), response, cache, 0);
      assert CookiesAgree(ctx, response.cookies, options, request);
      RunKeepsCookiesAgreed(ctx, steps, options, request, enumerate, response.cookies);
    }
  }

  /** What one request saves, the next request that carries its cookie
      loads: if the protector recovers the key from the cookie value, that
      key is reused with the constant capability, and the session's first
      load yields exactly the entries the earlier request committed. */
  lemma SessionSurvivesToNextRequest(options: SessionOptions, request: Request, oracles: Oracles, response: Response,
                                     cache: Cache, steps: seq<Step>, enumerate: Store -> seq<Key>,
                                     nextRequest: Request, nextOracles: Oracles)
    requires Enumerates(enumerate)
    requires var served := Invoke(options, request, oracles, response, cache, steps, enumerate);
      && served.saved
      && options.cookieName in nextRequest.cookies
      && nextOracles.unprotect(Some(nextRequest.cookies[options.cookieName])) == Some(served.session.value.sessionId)
      && nextOracles.sessionKeyLength == oracles.sessionKeyLength
      && !AllWhiteSpace(served.session.value.sessionId)
    ensures var served := Invoke(options, request, oracles, response, cache, steps, enumerate);
      var id := served.session.value.sessionId;
      && ResolveSessionKey(options, nextRequest, nextOracles) == Ok(SessionKey(id, ReturnTrue, false))
      && Load(NewSession(id, ReturnTrue, false), served.cache)
           == Outcome(NewSession(id, ReturnTrue, false).(store := served.session.value.store, loaded := true), Ok(()), true)
  {
    var served := Invoke(options, request, oracles, response, cache, steps, enumerate);
    var k := ResolveSessionKey(options, request, oracles).value;
    var run := Run(Context(NewSession(k.key, k.capability, k.isNewSessionKey), response, cache, 0), steps, options, request, enumerate);
    var s := run.context.session;
    CommitThenLoad(s, run.context.cache, enumerate(s.store), ReturnTrue, false);
  }

  /** Because Set refuses over-long keys and a load only ever adds keys that
      fit, the middleware's closing commit saves the session exactly when the
      pipeline left it modified (a commit by the application clears the
      flag), its entry count fits the count field and its record fits the
      memory stream. A refused callback registration saves nothing. */
  lemma InvokeSavesEveryModifiedSession(options: SessionOptions, request: Request, oracles: Oracles, response: Response,
                                        cache: Cache, steps: seq<Step>, enumerate: Store -> seq<Key>)
    requires Enumerates(enumerate)
    requires ResolveSessionKey(options, request, oracles).Ok?
    ensures var k := ResolveSessionKey(options, request, oracles).value;
      var run := Run(Context(NewSession(k.key, k.capability, k.isNewSessionKey), response, cache, 0), steps, options, request, enumerate);
      var s := run.context.session;
      var saved := Invoke(options, request, oracles, response, cache, steps, enumerate).saved;
      saved <==>
        && !RegistrationRefused(k, response)
        && s.isModified && |s.store| <= EntryCountLimit && RecordFits(s.store, enumerate(s.store))
  {
    var k := ResolveSessionKey(options, request, oracles).value;
    var ctx := Context(NewSession(k.key, k.capability, k.isNewSessionKey), response, cache, 0);
    RunPreservesSession(ctx, steps, options, request, enumerate);
    var run := Run(ctx, steps, options, request, enumerate);
    var s := run.context.session;
    CommitFailsOnlyWhenTooLarge(s, run.context.cache, enumerate(s.store));
  }
}
