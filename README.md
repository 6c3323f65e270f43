# alexa-skill-server: the dispatcher and the response builder

This project models the sequential core of a webhook server for a voice
assistant platform, and proves properties of the model.

- **The response builder** (`response.js`, class `Response`) holds one reply
  document: a version, a session-attribute map, and a `response` record with
  the output speech, the reprompt speech, a card, a list of directives and the
  end-of-session flag. Its chainable mutators each change one field. `get()`
  projects the state as `{version, sessionAttributes, response}`.
  `createOutputSpeech` types a text as SSML when it matches
  `/^<speak>.*<\/speak>$/`, otherwise as PlainText.
- **The dispatcher** (`server.js`, `onRequest` and its helpers) takes the
  decoded request body. It checks that `version`, `session` and `request` are
  truthy, compares the version with `"1.0"`, switches on `request.type`, and
  routes intents to the handler method named `on<name>IntentRequest`. Then it
  decides what is handed to the JSON writer.

Files:

- `jsvalue.dfy` (module `JsValue`): JavaScript values, truthiness, property
  reads, `===`, and the string conversion a template literal applies.
- `response.dfy` (module `ResponseBuilder`): the matcher for the SSML
  envelope and its language, and the document datatypes. It also has
  value-level versions of the builder operations (`Said`, `Reprompted`,
  `WithAttribute`, `WithCard`, `WithDirective`, `Ended`), the class
  `Response` whose methods are specified by them, and the shape of the
  written body.
- `server.dfy` (module `SkillServer`): the dispatcher is a total function
  `OnRequest(handlers, body)` and returns an `Outcome`. That is either
  `Sent(handler, body)` (the handler that ran, and the value handed to
  `res.json`, if any) or `Threw` (a TypeError escaped). The handler methods a
  subclass defines are a table from method name to a function of the handler's
  two arguments. A name missing from the table means the base class's handler,
  which returns `undefined`.

Facts about the code that the model keeps:

- The version is read from the body field `version` (server.js:58); no field
  `apiVersion` is read.
- `createOutputSpeech` trims nothing. A leading space makes a text PlainText
  (`SpeechTypeExamples`).
- The method called at server.js:70 is `supportsApiVersion`, but the base
  class defines `supportsVersion` (server.js:141). See "Findings".

## Model

| member | source | states |
|---|---|---|
| `ResponseBuilder.Response.constructor` | response.js:4-16 | a new builder has the given version, no session attributes, the flag false, no speech, card or reprompt speech, and no directives |
| `ResponseBuilder.Response.Default` | response.js:4 | without an argument the version is "1.0" |
| `ResponseBuilder.Response.CreateOutputSpeech` | response.js:28-34 | the text is kept unchanged; the type is SSML exactly when the text is `<speak>` + m + `</speak>` with no line terminator in m, and PlainText exactly otherwise |
| `ResponseBuilder.MatchesSpeakExactly` | response.js:29 | the step-by-step matcher for `^<speak>.*<\/speak>$` accepts exactly that envelope language, in both directions |
| `ResponseBuilder.SpeechTypeExamples` | response.js:28-34 | "Hello" is PlainText; "<speak>Hello</speak>" and "<speak></speak>" are SSML; a leading space or a line break inside the envelope makes a text PlainText |
| `ResponseBuilder.Response.Say` | response.js:18-21 | returns the same builder; the new document is the old one with only the output speech replaced |
| `ResponseBuilder.SayChangesOnlySpeech` | response.js:18-21 | after `say` the speech is `createOutputSpeech(text)`; version, attributes, reprompt, card, directives and flag are unchanged |
| `ResponseBuilder.Response.Reprompt` | response.js:23-26 | returns the same builder; only the reprompt speech is replaced, with no check of the end-of-session flag |
| `ResponseBuilder.RepromptChangesOnlyReprompt` | response.js:23-26 | the reprompt speech is set; version, attributes, output speech, card, directives and flag are unchanged; an ended session can still get a reprompt |
| `ResponseBuilder.Response.SetSessionAttribute` | response.js:36-39 | returns the same builder; only the attribute map changes, by an upsert of one key |
| `ResponseBuilder.SessionAttributeUpsert` | response.js:36-39 | the key maps to the new value, the last of two writes wins, the key set grows by that key only, and every other key keeps its value |
| `ResponseBuilder.Response.SetCard` | response.js:41-44 | returns the same builder; only the card changes |
| `ResponseBuilder.SetCardOverwrites` | response.js:41-44 | a second card replaces the first; version, attributes, speech, reprompt, directives and flag are unchanged |
| `ResponseBuilder.Response.AddDirective` | response.js:46-49 | returns the same builder; the directive list becomes the old list with the directive appended |
| `ResponseBuilder.DirectivesAppendInOrder` | response.js:46-49 | adding directives one by one yields the old list followed by all of them, in call order, with no deduplication and no cap |
| `ResponseBuilder.Response.EndSession` | response.js:51-54 | returns the same builder; only the flag changes, to true |
| `ResponseBuilder.EndSessionIdempotent` | response.js:51-54 | ending twice is ending once; the flag is true afterwards |
| `ResponseBuilder.Response.Get` | response.js:56-62 | the document holds the current version, attributes and response record; it reads the state only, so no call changes anything and repeated calls agree |
| `ResponseBuilder.DocumentValue` | response.js:56-62 | the object handed to the writer has exactly the keys version, sessionAttributes and response |
| `ResponseBuilder.DocumentValueRoundTrip` | response.js:56-62 | reading a written body back gives the document it was written from |
| `ResponseBuilder.DocumentValueInjective` | response.js:56-62 | different documents are written as different bodies |
| `ResponseBuilder.WelcomeDocument` | response.js:4-62 | `new Response().say("Welcome").endSession().get()` is the ended document whose only speech is PlainText "Welcome" |
| `ResponseBuilder.AttributesAndDirectives` | response.js:36-49 | writing "count" as 1 and then 2, and adding a then b, gives attributes {count: 2} and directives [a, b] |
| `JsValue.StrictEqualsPrimitive` | server.js:142 | `===` against a string is equality of the whole value, so type and spelling must both match |
| `JsValue.IntTextRoundTrip` | server.js:111 | the decimal text a number converts to inside `${...}` reads back as that number |
| `JsValue.TemplateTextOfNumber` | server.js:111 | two numbers convert to the same text exactly when they are equal, and a number converts like the string of its digits |
| `SkillServer.SupportsVersion` | server.js:141-143 | a version is supported exactly when it is the string "1.0" |
| `SkillServer.VersionGateExamples` | server.js:70-74 | "2.0" runs the unsupported-request handler and writes nothing; "1.00" and the number 1 are refused; "1.0" is accepted |
| `SkillServer.SendResponse` | server.js:93-101 | a falsy reply writes nothing, a builder writes its `get()` value, any other value is written unchanged, and whatever is written is truthy |
| `SkillServer.IntentKey` | server.js:111 | the handler name of a string intent name is "on" + name + "IntentRequest" |
| `SkillServer.IntentKeyExact` | server.js:111 | intent names and handler names determine each other, so different spellings, for instance in case, reach different handlers |
| `SkillServer.IntentKeySuffix` | server.js:111 | every handler name looked up for an intent ends with "IntentRequest" |
| `SkillServer.OtherHandlersAreNotIntentHandlers` | server.js:103-135 | no handler except onUnknownIntentRequest has a name ending in "IntentRequest" |
| `SkillServer.SuffixedBaseHandler` | server.js:103-135 | among the base handlers, a name ending in "IntentRequest" must be onUnknownIntentRequest |
| `SkillServer.IntentKeyIsBaseHandler` | server.js:105-111 | among the six base handler methods, the only one an intent name reaches is onUnknownIntentRequest, for "Unknown" (names converting to the empty text reach the router itself, see `RouterKeyIsEmptyName`) |
| `SkillServer.RouterKeyIsEmptyName` | server.js:110-111 | the handler name looked up is the router `onIntentRequest` exactly when the intent name converts to the empty text |
| `SkillServer.NumericIntentKeys` | server.js:110-111 | a numeric intent name n reaches the handler of the string of its digits, and different numbers reach different handlers |
| `SkillServer.OnIntentRequest` | server.js:109-117 | the handler that runs always has the intent-handler shape and is never the router itself |
| `SkillServer.OnRequest` | server.js:55-91 | the call throws exactly when the body is `null` or `undefined`, or it is an accepted intent request whose `intent` is `null` or `undefined` or whose name converts to the empty text (the looked-up name is the router's own); whatever is written is truthy |
| `SkillServer.MalformedBodyIsRejected` | server.js:64-68 | a body missing a truthy version, session or request runs only onInvalidRequest; with the base handler, nothing is written |
| `SkillServer.UnsupportedVersionIsRejected` | server.js:70-74 | a well-formed body of any other version runs only onUnsupportedRequest; with the base handler, nothing is written |
| `SkillServer.RoutesByType` | server.js:76-88 | for an accepted body, LaunchRequest runs the launch handler, IntentRequest an intent handler, SessionEndedRequest the session-ended handler, and any other type the fallback, each in both directions; neither rejection handler runs |
| `SkillServer.RoutingHandlersSeeOnlyAcceptedBodies` | server.js:64-76 | a handler other than the two rejection handlers runs only for a well-formed body of version "1.0" |
| `SkillServer.SessionEndedWritesNothing` | server.js:83-90 | a session-ended request writes nothing, whatever its handler returns |
| `SkillServer.IntentRoutesByName` | server.js:109-117 | an intent named n runs `on<n>IntentRequest` when that is a handler, otherwise onUnknownIntentRequest, and only the handler's reply is written |
| `SkillServer.IntentBodyRoutes` | server.js:80-117 | the same for a concrete intent body with any non-empty name, "Unknown" included, decided only by whether the subclass defines the handler |
| `SkillServer.UnregisteredIntentIsUnknown` | server.js:105-117 | an intent with any non-empty name and without a subclass handler of its exact name reaches onUnknownIntentRequest; with the base handler, nothing is written |
| `SkillServer.UnregisteredStopIsUnknown` | server.js:105-117 | an unregistered "Stop" intent reaches onUnknownIntentRequest and writes nothing |
| `SkillServer.RegisteredStopRuns` | server.js:109-113 | a handler registered for "Stop" runs, and its reply is what is written |
| `SkillServer.IntentMatchIsCaseSensitive` | server.js:111-116 | a handler registered under any other spelling, such as "stop" for the intent "Stop", is not used: the unknown-intent handler runs and nothing is written |
| `SkillServer.DefaultHandlersNeverWrite` | server.js:93-135 | with every handler left as the base class has it, no body of any shape is written |
| `SkillServer.WelcomeLaunch` | server.js:76-101 | a launch handler returning `say("Welcome").endSession()` gets exactly that document written |
| `SkillServer.OnRequestAsWritten` | server.js:55-74 | as written, and with no `supportsApiVersion` method in the class, nothing is ever written; the dispatcher throws exactly for a nullish or a well-formed body |
| `SkillServer.AsWrittenMalformedWritesNothing` | server.js:64-68 | as written, a malformed body writes nothing, whatever onInvalidRequest returns |
| `SkillServer.AsWrittenThrowsAtGate` | server.js:70 | as written, every well-formed body throws at the version gate |
| `SkillServer.AsWrittenCounterexamples` | server.js:64-74 | the launch example throws as written and runs the launch handler once corrected; an overriding onInvalidRequest reply is dropped as written and sent once corrected |
| `SkillServer.CorrectionAgreesOnMalformed` | server.js:64-68 | on malformed bodies the corrected and the written dispatcher run the same handler, and they are equal while onInvalidRequest is the base handler |

## Left out

- Server start and stop (server.js:22-53): listening, signal handlers, `process.exit` and the 3-second forced-exit timer are I/O, timers and process control.
- Express and router wiring, and the request-verifier middleware (server.js:11-19): HTTP plumbing and a foreign library. The route is registered for GET, and `onRequest` is passed unbound, so `this` would be undefined inside it. The model calls the dispatcher as a bound method.
- config.js and the merge of options into the shared configuration object (server.js:10): configuration plumbing.
- Logging (`console.log` and `console.error` throughout) is a no-op. So every base handler reduces to returning `undefined`, including the check of `reason === 'ERROR'` in onSessionEndedRequest (server.js:119-123).
- `res.json` serialisation: the written body is the value handed to it.
- `createResponse` (server.js:137-139) calls the class without `new`, which is a language-runtime detail.
- The `this` binding of an intent handler called as a plain function (server.js:113) is not modelled. An intent with an empty name resolves to the router `onIntentRequest` itself, which fails bound or unbound. The model reports it as `Threw`.
- Overriding the router methods (`onRequest`, `onIntentRequest`, `sendResponse`, `supportsVersion`) is not modelled, and neither is a subclass that adds `supportsApiVersion`. With such a method the as-written gate at server.js:70 would pass. The handler table covers the handler methods only, and `OnRequestAsWritten` ignores an entry of that name.
- Handlers are pure functions of their arguments. Side effects beyond the returned value, and exceptions a handler throws, are not modelled.
- `onInvalidRequest(req)` receives the HTTP request object. The model passes the decoded body in its place.
- A builder returned by a handler is recorded by the document its `get()` gives at send time. `get()` hands out the live `sessionAttributes` and `response` objects, so later mutation shows through an earlier result. The model's `Get` is a snapshot instead.
- Arguments that the model fixes as strings: the text of `say` and `reprompt` (where `text.match` throws on a non-string), the constructor's version, and attribute keys (which JavaScript converts to strings). The special key `__proto__` is not modelled.
- Numbers are exact integers in the model, not doubles; fractions, NaN, infinities and -0 are not modelled. The model writes a number as its exact decimal text. JavaScript's text agrees with it up to 2^53 in magnitude. Beyond that, JavaScript writes the shortest digits that identify the double, padded with zeros (`String(2**60)` is "1152921504606847000"), and uses exponent form from 10^21.
- JsValue.IntTextRoundTrip: states the round trip of the model's exact decimal text; for JavaScript's number-to-text conversion it holds only up to 2^53 in magnitude, because doubles are not modelled.
- JsValue.TemplateTextOfNumber: the injectivity it states holds for JavaScript only up to 2^53 in magnitude, because beyond that distinct integers can share one double and so one text.
- SkillServer.NumericIntentKeys: the handler name it gives a numeric intent name agrees with server.js:111 only up to 2^53 in magnitude; for larger JSON numbers JavaScript looks up the name of the rounded double's shortest text.
- The template conversion of an object is "[object Object]". Custom `toString` methods are not modelled.
- A decoded body whose objects carry their own `toString` key with a non-callable value, such as `{"toString": 1}`, is not modelled. JavaScript cannot convert such an object to a string and raises a TypeError. That happens when the body itself is logged at server.js:56, before validation. It also happens for such an intent name at server.js:106 and 111, for such a `request.type` in the base `onFallbackRequest` at server.js:126, and for such a `version` in the base `onUnsupportedRequest` at server.js:130. The same applies to arrays holding such objects. The model converts these objects to "[object Object]" and routes the request instead of reporting `Threw`.

## Findings

| source | as written | input that shows it | evidently intended | confidence | as-written member | corrected member |
|---|---|---|---|---|---|---|
| server.js:70 | the version gate calls `this.supportsApiVersion`, which the base class does not define (it defines `supportsVersion`, server.js:141), so it raises a TypeError | `{version: "1.0", session: {...}, request: {type: "LaunchRequest"}}` throws and no handler runs | call `supportsVersion` | high, not executed | `SkillServer.AsWrittenThrowsAtGate` | `SkillServer.OnRequest` |
| server.js:66 | `sendResponse(response)` passes the reply as `res`, so the invalid path never writes a body | an `onInvalidRequest` override returning "bad request", on body `{}`: nothing is written | `sendResponse(res, response)`, as at server.js:72 and server.js:90 | medium (the default handler returns nothing either way), not executed | `SkillServer.AsWrittenMalformedWritesNothing` | `SkillServer.MalformedBodyIsRejected` |
