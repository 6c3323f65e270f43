/** The request dispatcher of server.js: validation of the decoded body, the
    version gate, routing on the request type, intent routing by handler
    name, and the decision of what is written as the reply body.

    A webhook call is modelled as a total function from the decoded body and
    the table of handler methods a subclass defines to an `Outcome`: the
    handler that ran and the value handed to the JSON writer, if any. */
module SkillServer {
  import opened JsValue
  import opened ResponseBuilder

  /** What a handler returns: a builder (recorded as the document its `get()`
      gives when the reply is sent) or any other value. */
  datatype Reply = Plain(v: Value) | Built(doc: Document)

  /** A handler method, applied to its two arguments (the second one is
      `undefined` where the dispatcher passes only one). */
  type Handler = (Value, Value) -> Reply

  /** The handler methods a subclass defines or overrides, by method name. */
  type Handlers = map<string, Handler>

  /** The result of one call of the webhook: the handler that ran and the body
      written (None: nothing written), or a TypeError escaping the dispatcher. */
  datatype Outcome = Sent(handler: string, body: Option<Value>) | Threw

  /** The only version the server accepts (server.js:9). */
  const ServerVersion: string := "1.0"

  const LaunchHandler: string := "onLaunchRequest"
  const UnknownIntentHandler: string := "onUnknownIntentRequest"
  const SessionEndedHandler: string := "onSessionEndedRequest"
  const FallbackHandler: string := "onFallbackRequest"
  const UnsupportedHandler: string := "onUnsupportedRequest"
  const InvalidHandler: string := "onInvalidRequest"
  /** The intent router's own name; it has the shape of an intent handler's. */
  const IntentRouterName: string := "onIntentRequest"
  const IntentSuffix: string := "IntentRequest"

  /** The handlers of the base class; each only logs and returns `undefined`. */
  const BaseHandlers: set<string> :=
    {LaunchHandler, UnknownIntentHandler, SessionEndedHandler, FallbackHandler, UnsupportedHandler, InvalidHandler}

  /** `typeof this[name] === 'function'` for a handler name. */
  predicate IsHandler(h: Handlers, name: string) {
    name in h || name in BaseHandlers
  }

  /** `this[name](a, b)`: the subclass's method if it defines one, otherwise
      the base class's, which returns `undefined`. */
  function Invoke(h: Handlers, name: string, a: Value, b: Value): Reply {
    if name in h then h[name](a, b) else Plain(Undefined)
  }

  /** `supportsVersion(version)` (server.js:141-143): `version === this.version`. */
  function SupportsVersion(version: Value): (b: bool)
    ensures b <==> version == Str(ServerVersion)
  {
    StrictEqualsPrimitive(version, Str(ServerVersion));
    StrictEquals(version, Str(ServerVersion))
  }

  /** `sendResponse(res, response)` (server.js:93-101): the value handed to
      `res.json`, if any. */
  function SendResponse(reply: Reply): (written: Option<Value>)
    ensures written.None? <==> reply.Plain? && !Truthy(reply.v)
    ensures reply.Built? ==> written == Some(DocumentValue(reply.doc))
    ensures reply.Plain? && Truthy(reply.v) ==> written == Some(reply.v)
    ensures written.Some? ==> Truthy(written.value)
  {
    match reply
    case Plain(v) => if !Truthy(v) then None else Some(v)
    case Built(doc) => Some(DocumentValue(doc))
  }

  // ---------------------------------------------------------------------------
  // Intent routing (server.js:109-117)
  // ---------------------------------------------------------------------------

  /** The handler name looked up for an intent name: `on${name}IntentRequest`. */
  function IntentKey(name: Value): (key: string)
    ensures name.Str? ==> key == "on" + name.s + IntentSuffix
  {
    "on" + TemplateText(name) + IntentSuffix
  }

  predicate EndsWithIntentSuffix(k: string) {
    |k| >= |IntentSuffix| && k[|k| - |IntentSuffix|..] == IntentSuffix
  }

  /** Recovers the intent name from its handler name. */
  function IntentNameOf(key: string): string
    requires |key| >= 2 + |IntentSuffix|
  {
    key[2..|key| - |IntentSuffix|]
  }

  /** The lookup is exact: the handler name gives back the intent name, so
      names differing in case or by a prefix reach different handlers. */
  lemma IntentKeyExact(a: string, b: string)
    ensures IntentNameOf(IntentKey(Str(a))) == a
    ensures IntentKey(Str(a)) == IntentKey(Str(b)) <==> a == b
    ensures EndsWithIntentSuffix(IntentKey(Str(a)))
  {
    var ka := IntentKey(Str(a));
    assert ka[2..|ka| - |IntentSuffix|] == a;
    assert ka[|ka| - |IntentSuffix|..] == IntentSuffix;
    var kb := IntentKey(Str(b));
    assert kb[2..|kb| - |IntentSuffix|] == b;
  }

  lemma IntentKeysDiffer(a: string, b: string)
    requires a != b
    ensures IntentKey(Str(a)) != IntentKey(Str(b))
  {
    IntentKeyExact(a, b);
  }

  /** Every handler name built from an intent name ends with "IntentRequest". */
  lemma IntentKeySuffix(name: Value)
    ensures EndsWithIntentSuffix(IntentKey(name))
  {
    var k := IntentKey(name);
    assert k[|k| - |IntentSuffix|..] == IntentSuffix;
  }

  /** No handler other than the unknown-intent one has the intent-handler shape. */
  lemma OtherHandlersAreNotIntentHandlers()
    ensures !EndsWithIntentSuffix(LaunchHandler)
    ensures !EndsWithIntentSuffix(SessionEndedHandler)
    ensures !EndsWithIntentSuffix(FallbackHandler)
    ensures !EndsWithIntentSuffix(UnsupportedHandler)
    ensures !EndsWithIntentSuffix(InvalidHandler)
    ensures EndsWithIntentSuffix(UnknownIntentHandler)
  {
    assert LaunchHandler[|LaunchHandler| - |IntentSuffix|] != IntentSuffix[0];
    assert SessionEndedHandler[|SessionEndedHandler| - |IntentSuffix|] != IntentSuffix[0];
    assert FallbackHandler[|FallbackHandler| - |IntentSuffix|] != IntentSuffix[0];
    assert UnsupportedHandler[|UnsupportedHandler| - |IntentSuffix|] != IntentSuffix[0];
    assert InvalidHandler[|InvalidHandler| - |IntentSuffix|] != IntentSuffix[0];
    assert UnknownIntentHandler[|UnknownIntentHandler| - |IntentSuffix|..] == IntentSuffix;
  }

  /** Among the base handlers, only the unknown-intent one has the suffix. */
  lemma SuffixedBaseHandler(k: string)
    requires EndsWithIntentSuffix(k)
    ensures k in BaseHandlers <==> k == UnknownIntentHandler
  {
    var c := k[|k| - |IntentSuffix|];
    assert c == 'I';
    assert k == LaunchHandler ==> c == 'L';
    assert k == SessionEndedHandler ==> c == 'n';
    assert k == FallbackHandler ==> c == 'l';
    assert k == UnsupportedHandler ==> c == 'p';
    assert k == InvalidHandler ==> c == 'n';
    assert UnknownIntentHandler in BaseHandlers;
  }

  /** The only intent name whose handler the base class defines is "Unknown". */
  lemma IntentKeyIsBaseHandler(name: string)
    ensures IntentKey(Str(name)) in BaseHandlers <==> name == "Unknown"
  {
    IntentKeySuffix(Str(name));
    SuffixedBaseHandler(IntentKey(Str(name)));
    assert UnknownIntentHandler == IntentKey(Str("Unknown"));
    IntentKeyExact(name, "Unknown");
  }

  /** The handler name looked up is the router's own exactly when the intent
      name converts to the empty text. */
  lemma RouterKeyIsEmptyName(name: Value)
    ensures IntentKey(name) == IntentRouterName <==> TemplateText(name) == ""
  {
    var k := IntentKey(name);
    if k == IntentRouterName {
      assert |TemplateText(name)| == 0;
    }
  }

  /** A numeric intent name reaches the handler of its decimal text, and
      different numbers reach different handlers. */
  lemma NumericIntentKeys(a: int, b: int)
    ensures IntentKey(Num(a)) == IntentKey(Str(IntText(a)))
    ensures IntentKey(Num(a)) == IntentKey(Num(b)) <==> a == b
  {
    TemplateTextOfNumber(a, b);
    IntentKeyExact(IntText(a), IntText(b));
  }

  /** What intent routing picked: the handler that ran and its reply. */
  datatype Route = Routed(handler: string, reply: Reply) | RouteThrew

  /** `onIntentRequest(request)`. Reading `request.intent.name` throws when
      `intent` is missing. The intent handler gets only `request`. An empty
      intent name resolves to the router itself, whose unbound call throws. */
  function OnIntentRequest(h: Handlers, request: Value): (r: Route)
    ensures r.Routed? ==> EndsWithIntentSuffix(r.handler) && r.handler != IntentRouterName
  {
    var intent := Prop(request, "intent");
    if IsNullish(intent) then RouteThrew
    else
      var key := IntentKey(Prop(intent, "name"));
      IntentKeySuffix(Prop(intent, "name"));
      OtherHandlersAreNotIntentHandlers();
      if key == IntentRouterName then RouteThrew
      else if IsHandler(h, key) then Routed(key, Invoke(h, key, request, Undefined))
      else Routed(UnknownIntentHandler, Invoke(h, UnknownIntentHandler, request, Undefined))
  }

  // ---------------------------------------------------------------------------
  // onRequest (server.js:55-91)
  // ---------------------------------------------------------------------------

  /** `version`, `session` and `request` are all truthy. */
  predicate WellFormed(body: Value) {
    !IsNullish(body)
    && Truthy(Prop(body, "version")) && Truthy(Prop(body, "session")) && Truthy(Prop(body, "request"))
  }

  /** Well formed, and of the supported version. */
  predicate Accepted(body: Value) {
    WellFormed(body) && SupportsVersion(Prop(body, "version"))
  }

  function RequestType(body: Value): Value {
    Prop(Prop(body, "request"), "type")
  }

  function IntentOf(body: Value): Value {
    Prop(Prop(body, "request"), "intent")
  }

  /** The switch on `request.type` (server.js:76-90). */
  function RouteByType(h: Handlers, request: Value, session: Value): Outcome {
    var t := Prop(request, "type");
    if StrictEquals(t, Str("LaunchRequest")) then
      Sent(LaunchHandler, SendResponse(Invoke(h, LaunchHandler, request, session)))
    else if StrictEquals(t, Str("IntentRequest")) then
      match OnIntentRequest(h, request)
      case RouteThrew => Threw
      case Routed(handler, reply) => Sent(handler, SendResponse(reply))
    else if StrictEquals(t, Str("SessionEndedRequest")) then
      // The handler's result is discarded: `response` is still null.
      Sent(SessionEndedHandler, SendResponse(Plain(Null)))
    else
      Sent(FallbackHandler, SendResponse(Invoke(h, FallbackHandler, request, session)))
  }

  /** `onRequest(req, res)` for a decoded body `req.body`, with the invalid
      path passing `res` (server.js:66) and the version gate calling
      `supportsVersion` (server.js:70). `onInvalidRequest` receives the body
      in place of `req`. */
  function OnRequest(h: Handlers, body: Value): (o: Outcome)
    ensures IsNullish(body) ==> o == Threw
    ensures o.Threw? <==> (
      || IsNullish(body)
      || (&& Accepted(body) && RequestType(body) == Str("IntentRequest")
          && (IsNullish(IntentOf(body)) || IntentKey(Prop(IntentOf(body), "name")) == IntentRouterName)))
    ensures o.Sent? && o.body.Some? ==> Truthy(o.body.value)
  {
    StrictEqualsPrimitive(RequestType(body), Str("LaunchRequest"));
    StrictEqualsPrimitive(RequestType(body), Str("IntentRequest"));
    StrictEqualsPrimitive(RequestType(body), Str("SessionEndedRequest"));
    if IsNullish(body) then Threw
    else
      var version := Prop(body, "version");
      var session := Prop(body, "session");
      var request := Prop(body, "request");
      if !Truthy(version) || !Truthy(session) || !Truthy(request) then
        Sent(InvalidHandler, SendResponse(Invoke(h, InvalidHandler, body, Undefined)))
      else if !SupportsVersion(version) then
        Sent(UnsupportedHandler, SendResponse(Invoke(h, UnsupportedHandler, version, Undefined)))
      else
        RouteByType(h, request, session)
  }

  /** `onRequest` exactly as server.js has it: the invalid path calls
      `sendResponse(response)`, so the reply lands in the `res` parameter and
      nothing is written (server.js:66); the gate calls
      `this.supportsApiVersion`, which the base class does not define, so every well-formed
      body raises a TypeError (server.js:70). */
  function OnRequestAsWritten(h: Handlers, body: Value): (o: Outcome)
    ensures o.Sent? ==> o.body == None
    ensures o.Threw? <==> IsNullish(body) || WellFormed(body)
  {
    if IsNullish(body) then Threw
    else if !WellFormed(body) then
      var ignored := Invoke(h, InvalidHandler, body, Undefined);
      Sent(InvalidHandler, SendResponse(Plain(Undefined)))
    else
      Threw
  }

  // ---------------------------------------------------------------------------
  // What the dispatcher promises
  // ---------------------------------------------------------------------------

  /** A body missing `version`, `session` or `request` runs only the
      invalid-request handler; what is written is that handler's reply. */
  lemma MalformedBodyIsRejected(h: Handlers, body: Value)
    requires !IsNullish(body) && !WellFormed(body)
    ensures OnRequest(h, body).Sent? && OnRequest(h, body).handler == InvalidHandler
    ensures OnRequest(h, body).body == SendResponse(Invoke(h, InvalidHandler, body, Undefined))
    ensures InvalidHandler !in h ==> OnRequest(h, body).body == None
  {
  }

  /** A well-formed body of any version other than exactly "1.0" runs only
      the unsupported-request handler. */
  lemma UnsupportedVersionIsRejected(h: Handlers, body: Value)
    requires WellFormed(body) && Prop(body, "version") != Str(ServerVersion)
    ensures OnRequest(h, body) ==
      Sent(UnsupportedHandler, SendResponse(Invoke(h, UnsupportedHandler, Prop(body, "version"), Undefined)))
    ensures UnsupportedHandler !in h ==> OnRequest(h, body).body == None
  {
  }

  /** Routing on the request type: each type selects exactly one handler.
      The handler names are told apart by their spelling, so each case holds
      in both directions. */
  lemma {:induction false} RoutesByType(h: Handlers, body: Value)
    requires Accepted(body)
    ensures var o := OnRequest(h, body);
      && (o.Sent? && o.handler == LaunchHandler <==> RequestType(body) == Str("LaunchRequest"))
      && (o.Sent? && o.handler == SessionEndedHandler <==> RequestType(body) == Str("SessionEndedRequest"))
      && ((o.Sent? && EndsWithIntentSuffix(o.handler)) || o.Threw? <==> RequestType(body) == Str("IntentRequest"))
      && (o.Sent? && o.handler == FallbackHandler <==>
           RequestType(body) !in {Str("LaunchRequest"), Str("IntentRequest"), Str("SessionEndedRequest")})
      && (o.Sent? ==> o.handler != InvalidHandler && o.handler != UnsupportedHandler)
  {
    var request := Prop(body, "request");
    var t := Prop(request, "type");
    StrictEqualsPrimitive(t, Str("LaunchRequest"));
    StrictEqualsPrimitive(t, Str("IntentRequest"));
    StrictEqualsPrimitive(t, Str("SessionEndedRequest"));
    OtherHandlersAreNotIntentHandlers();
    assert OnRequest(h, body) == RouteByType(h, request, Prop(body, "session"));
  }

  /** Only an accepted body reaches a routing handler. */
  lemma RoutingHandlersSeeOnlyAcceptedBodies(h: Handlers, body: Value)
    requires OnRequest(h, body).Sent?
    requires OnRequest(h, body).handler !in {InvalidHandler, UnsupportedHandler}
    ensures Accepted(body)
  {
  }

  /** A session-ended request never writes a body, whatever its handler returns. */
  lemma SessionEndedWritesNothing(h: Handlers, body: Value)
    requires Accepted(body) && RequestType(body) == Str("SessionEndedRequest")
    ensures OnRequest(h, body) == Sent(SessionEndedHandler, None)
  {
  }

  /** An intent request runs exactly the handler `on<name>IntentRequest` when
      there is one, and the unknown-intent handler otherwise. */
  lemma IntentRoutesByName(h: Handlers, body: Value, name: string)
    requires Accepted(body) && RequestType(body) == Str("IntentRequest")
    requires var intent := Prop(Prop(body, "request"), "intent");
      !IsNullish(intent) && Prop(intent, "name") == Str(name)
    requires name != ""
    ensures var key := "on" + name + IntentSuffix;
      var request := Prop(body, "request");
      OnRequest(h, body) ==
        if IsHandler(h, key) then Sent(key, SendResponse(Invoke(h, key, request, Undefined)))
        else Sent(UnknownIntentHandler, SendResponse(Invoke(h, UnknownIntentHandler, request, Undefined)))
  {
    var request := Prop(body, "request");
    assert |IntentKey(Str(name))| > |IntentRouterName|;
    StrictEqualsPrimitive(RequestType(body), Str("LaunchRequest"));
    StrictEqualsPrimitive(RequestType(body), Str("IntentRequest"));
    assert OnRequest(h, body) == RouteByType(h, request, Prop(body, "session"));
  }

  /** A launch request body: a version, a session and a request of the given type. */
  function LaunchBody(version: Value, requestType: string): Value {
    Obj(map[
      "version" := version,
      "session" := Obj(map["sessionId" := Str("s")]),
      "request" := Obj(map["type" := Str(requestType)])])
  }

  function IntentBody(name: string): Value {
    Obj(map[
      "version" := Str("1.0"),
      "session" := Obj(map["sessionId" := Str("s")]),
      "request" := Obj(map["type" := Str("IntentRequest"), "intent" := Obj(map["name" := Str(name)])])])
  }

  /** An intent body runs `on<name>IntentRequest` if the subclass defines it,
      and the unknown-intent handler otherwise. */
  lemma IntentBodyRoutes(h: Handlers, name: string)
    requires name != ""
    ensures var request := Prop(IntentBody(name), "request");
      var key := IntentKey(Str(name));
      OnRequest(h, IntentBody(name)) ==
        if key in h then Sent(key, SendResponse(h[key](request, Undefined)))
        else Sent(UnknownIntentHandler, SendResponse(Invoke(h, UnknownIntentHandler, request, Undefined)))
  {
    var body := IntentBody(name);
    var request := Prop(body, "request");
    assert Prop(Prop(request, "intent"), "name") == Str(name);
    assert Accepted(body) && RequestType(body) == Str("IntentRequest");
    IntentRoutesByName(h, body, name);
    if name == "Unknown" {
      UnknownIsIntentKey();
    } else {
      IntentKeyIsBaseHandler(name);
    }
  }

  /** An unregistered "Stop" intent reaches the unknown-intent handler and
      writes nothing. */
  lemma UnregisteredStopIsUnknown()
    ensures OnRequest(map[], IntentBody("Stop")) == Sent(UnknownIntentHandler, None)
  {
    UnregisteredIntentIsUnknown(map[], "Stop");
  }

  /** A handler registered for "Stop" runs for the "Stop" intent and its
      reply is what is written. */
  lemma RegisteredStopRuns(reply: Reply)
    ensures OnRequest(map[IntentKey(Str("Stop")) := (a, b) => reply], IntentBody("Stop"))
      == Sent(IntentKey(Str("Stop")), SendResponse(reply))
  {
    IntentBodyRoutes(map[IntentKey(Str("Stop")) := (a, b) => reply], "Stop");
  }

  /** An intent with no handler of its exact name reaches the unknown-intent
      handler and, while that is the base class's, writes nothing. */
  lemma UnregisteredIntentIsUnknown(h: Handlers, name: string)
    requires name != ""
    requires IntentKey(Str(name)) !in h && UnknownIntentHandler !in h
    ensures OnRequest(h, IntentBody(name)) == Sent(UnknownIntentHandler, None)
  {
    IntentBodyRoutes(h, name);
  }

  /** Matching is exact and case-sensitive: a table whose only handler is the
      one for another spelling (such as "stop" for the intent "Stop") sends
      the intent to the unknown-intent handler. */
  lemma IntentMatchIsCaseSensitive(h: Handlers, registered: string, name: string)
    requires registered != name && registered != "Unknown"
    requires name != ""
    requires h.Keys == {IntentKey(Str(registered))}
    ensures OnRequest(h, IntentBody(name)) == Sent(UnknownIntentHandler, None)
  {
    OnlyRegisteredKey(h, registered, name);
    OnlyRegisteredKey(h, registered, "Unknown");
    UnknownIsIntentKey();
    UnregisteredIntentIsUnknown(h, name);
  }

  lemma OnlyRegisteredKey(h: Handlers, registered: string, name: string)
    requires registered != name
    requires h.Keys == {IntentKey(Str(registered))}
    ensures IntentKey(Str(name)) !in h
  {
    IntentKeysDiffer(name, registered);
  }

  lemma UnknownIsIntentKey()
    ensures UnknownIntentHandler == IntentKey(Str("Unknown"))
  {
  }

  /** With every handler left as the base class has it, no body of any shape
      gets a reply written. */
  lemma DefaultHandlersNeverWrite(body: Value)
    ensures OnRequest(map[], body).Sent? ==> OnRequest(map[], body).body == None
  {
  }

  /** A launch handler that says "Welcome" and ends the session gets
      exactly that document written. */
  lemma WelcomeLaunch()
    ensures var h := map[LaunchHandler := (a, b) => Built(Ended(Said(Initial(DefaultVersion), "Welcome")))];
      OnRequest(h, LaunchBody(Str("1.0"), "LaunchRequest")) ==
        Sent(LaunchHandler, Some(DocumentValue(
          Document("1.0", map[], Body(true, Some(OutputSpeech(PlainText, "Welcome")), Undefined, RepromptSpeech(None), [])))))
  {
    MatchesSpeakExactly("Welcome");
  }

  /** The gate compares strings exactly: "2.0", "1.00" and the number 1 are refused. */
  lemma VersionGateExamples()
    ensures OnRequest(map[], LaunchBody(Str("2.0"), "LaunchRequest")) == Sent(UnsupportedHandler, None)
    ensures !SupportsVersion(Str("1.00")) && !SupportsVersion(Num(1)) && SupportsVersion(Str("1.0"))
  {
  }

  // ---------------------------------------------------------------------------
  // The dispatcher as written
  // ---------------------------------------------------------------------------

  /** As written, a malformed body never gets a body written, whatever
      `onInvalidRequest` returns. */
  lemma AsWrittenMalformedWritesNothing(h: Handlers, body: Value)
    requires !IsNullish(body) && !WellFormed(body)
    ensures OnRequestAsWritten(h, body) == Sent(InvalidHandler, None)
  {
  }

  /** As written, every well-formed body raises a TypeError at the version
      gate, so no routing handler ever runs. */
  lemma AsWrittenThrowsAtGate(h: Handlers, body: Value)
    requires WellFormed(body)
    ensures OnRequestAsWritten(h, body) == Threw
  {
  }

  /** A concrete pair: the launch example as written throws; an overridden
      `onInvalidRequest` reply is dropped as written and sent once corrected. */
  lemma AsWrittenCounterexamples()
    ensures OnRequestAsWritten(map[], LaunchBody(Str("1.0"), "LaunchRequest")) == Threw
    ensures OnRequest(map[], LaunchBody(Str("1.0"), "LaunchRequest")) == Sent(LaunchHandler, None)
    ensures var h := map[InvalidHandler := (a, b) => Plain(Str("bad request"))];
      OnRequestAsWritten(h, Obj(map[])) == Sent(InvalidHandler, None)
      && OnRequest(h, Obj(map[])) == Sent(InvalidHandler, Some(Str("bad request")))
  {
  }

  /** Apart from those two lines the corrected dispatcher agrees with the
      code: on a malformed body both run the invalid-request handler, and
      they write the same when that handler is the base class's. */
  lemma CorrectionAgreesOnMalformed(h: Handlers, body: Value)
    requires !WellFormed(body)
    ensures OnRequest(h, body).Threw? <==> OnRequestAsWritten(h, body).Threw?
    ensures OnRequest(h, body).Sent? ==> OnRequest(h, body).handler == OnRequestAsWritten(h, body).handler
    ensures InvalidHandler !in h ==> OnRequest(h, body) == OnRequestAsWritten(h, body)
  {
  }
}
