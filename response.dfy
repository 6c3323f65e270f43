/** The response builder of response.js: a mutable record holding the reply
    document of one webhook call, changed field by field through chainable
    mutators and read through `get()`. */
module ResponseBuilder {
  import opened JsValue

  // ---------------------------------------------------------------------------
  // Output speech and the SSML envelope of response.js:29
  // ---------------------------------------------------------------------------

  datatype SpeechType = PlainText | SSML

  datatype OutputSpeech = OutputSpeech(kind: SpeechType, text: string)

  const SpeakOpen: string := "<speak>"
  const SpeakClose: string := "</speak>"

  /** The characters a regular-expression `.` does not match. */
  predicate IsLineTerminator(c: char) {
    c == '\n' || c == '\r' || c == '\U{2028}' || c == '\U{2029}'
  }

  predicate SingleLine(m: string) {
    forall i :: 0 <= i < |m| ==> !IsLineTerminator(m[i])
  }

  /** The strings matched by `/^<speak>.*<\/speak>$/` (no flags): the opening
      tag at the very start, the closing tag at the very end, and no line
      terminator between them. Nothing is trimmed. */
  ghost predicate IsSpeakEnvelope(t: string) {
    exists m :: t == SpeakOpen + m + SpeakClose && SingleLine(m)
  }

  /** `.*<\/speak>$`, step by step: either the closing tag ends the input here,
      or `.` consumes one more character that is not a line terminator. */
  predicate MatchesTail(s: string)
    decreases |s|
  {
    s == SpeakClose || (|s| > 0 && !IsLineTerminator(s[0]) && MatchesTail(s[1..]))
  }

  predicate MatchesSpeak(t: string) {
    |t| >= |SpeakOpen| && t[..|SpeakOpen|] == SpeakOpen && MatchesTail(t[|SpeakOpen|..])
  }

  /** What the matcher accepts is a single-line text followed by the closing tag. */
  lemma {:induction false} TailSplits(s: string)
    requires MatchesTail(s)
    ensures exists m :: s == m + SpeakClose && SingleLine(m)
    decreases |s|
  {
    if s == SpeakClose {
      assert s == [] + SpeakClose && SingleLine([]);
    } else {
      TailSplits(s[1..]);
      var m :| s[1..] == m + SpeakClose && SingleLine(m);
      assert s == [s[0]] + m + SpeakClose;
      assert SingleLine([s[0]] + m);
    }
  }

  /** Every single-line text followed by the closing tag is accepted. */
  lemma {:induction false} TailAccepts(s: string, m: string)
    requires s == m + SpeakClose && SingleLine(m)
    ensures MatchesTail(s)
    decreases |m|
  {
    if m != [] {
      assert s[1..] == m[1..] + SpeakClose;
      TailAccepts(s[1..], m[1..]);
    }
  }

  /** The step-by-step matcher accepts exactly the envelope language. */
  lemma MatchesSpeakExactly(t: string)
    ensures MatchesSpeak(t) <==> IsSpeakEnvelope(t)
  {
    if MatchesSpeak(t) {
      TailSplits(t[|SpeakOpen|..]);
      var m :| t[|SpeakOpen|..] == m + SpeakClose && SingleLine(m);
      assert t == t[..|SpeakOpen|] + t[|SpeakOpen|..];
      assert t == SpeakOpen + m + SpeakClose;
    }
    if IsSpeakEnvelope(t) {
      var m :| t == SpeakOpen + m + SpeakClose && SingleLine(m);
      assert t[..|SpeakOpen|] == SpeakOpen;
      assert t[|SpeakOpen|..] == m + SpeakClose;
      TailAccepts(t[|SpeakOpen|..], m);
    }
  }

  // ---------------------------------------------------------------------------
  // The reply document (response.js:4-16, 56-62)
  // ---------------------------------------------------------------------------

  datatype RepromptSpeech = RepromptSpeech(outputSpeech: Option<OutputSpeech>)

  /** The `response` sub-record. `None` and `Undefined` stand for `undefined`. */
  datatype Body = Body(
    shouldEndSession: bool,
    outputSpeech: Option<OutputSpeech>,
    card: Value,
    reprompt: RepromptSpeech,
    directives: seq<Value>)

  /** What `get()` returns: `{version, sessionAttributes, response}`. */
  datatype Document = Document(version: string, sessionAttributes: map<string, Value>, response: Body)

  const DefaultVersion: string := "1.0"

  // The builder's operations on document values. The class below is specified
  // by them, and the lemmas after the class state what they promise.

  function Initial(version: string): Document {
    Document(version, map[], Body(false, None, Undefined, RepromptSpeech(None), []))
  }

  function Said(d: Document, text: string): Document {
    d.(response := d.response.(outputSpeech := Some(Response.CreateOutputSpeech(text))))
  }

  function Reprompted(d: Document, text: string): Document {
    d.(response := d.response.(reprompt := RepromptSpeech(Some(Response.CreateOutputSpeech(text)))))
  }

  function WithAttribute(d: Document, key: string, value: Value): Document {
    d.(sessionAttributes := d.sessionAttributes[key := value])
  }

  function WithCard(d: Document, card: Value): Document {
    d.(response := d.response.(card := card))
  }

  function WithDirective(d: Document, directive: Value): Document {
    d.(response := d.response.(directives := d.response.directives + [directive]))
  }

  function Ended(d: Document): Document {
    d.(response := d.response.(shouldEndSession := true))
  }

  /** `addDirective` applied to each of `ds` in turn. */
  function WithDirectives(d: Document, ds: seq<Value>): Document
    decreases |ds|
  {
    if ds == [] then d else WithDirectives(WithDirective(d, ds[0]), ds[1..])
  }

  class Response {
    var version: string
    var sessionAttributes: map<string, Value>
    var response: Body

    /** `new Response(version)`. */
    constructor (version: string)
      ensures this.version == version
      ensures sessionAttributes == map[]
      ensures !response.shouldEndSession
      ensures response.outputSpeech == None && response.card == Undefined
      ensures response.reprompt.outputSpeech == None
      ensures response.directives == []
      ensures Get() == Initial(version)
    {
      this.version := version;
      sessionAttributes := map[];
      response := Body(false, None, Undefined, RepromptSpeech(None), []);
    }

    /** `new Response()`: the version parameter defaults to "1.0". */
    constructor Default()
      ensures Get() == Initial(DefaultVersion)
    {
      version := DefaultVersion;
      sessionAttributes := map[];
      response := Body(false, None, Undefined, RepromptSpeech(None), []);
    }

    /** `createOutputSpeech(text)`: the text unchanged, typed SSML exactly when
        it is a `<speak>` envelope on a single line. */
    static function CreateOutputSpeech(text: string): (o: OutputSpeech)
      ensures o.text == text
      ensures o.kind == SSML <==> IsSpeakEnvelope(text)
      ensures o.kind == PlainText <==> !IsSpeakEnvelope(text)
    {
      MatchesSpeakExactly(text);
      OutputSpeech(if MatchesSpeak(text) then SSML else PlainText, text)
    }

    /** `get()`: the current state as a document; it reads and changes nothing. */
    function Get(): (d: Document)
      reads this
      ensures d.version == version
      ensures d.sessionAttributes == sessionAttributes
      ensures d.response == response
    {
      Document(version, sessionAttributes, response)
    }

    method Say(text: string) returns (self: Response)
      modifies this
      ensures self == this
      ensures Get() == Said(old(Get()), text)
    {
      response := response.(outputSpeech := Some(CreateOutputSpeech(text)));
      self := this;
    }

    /** No check against an ended session is made. */
    method Reprompt(text: string) returns (self: Response)
      modifies this
      ensures self == this
      ensures Get() == Reprompted(old(Get()), text)
    {
      response := response.(reprompt := RepromptSpeech(Some(CreateOutputSpeech(text))));
      self := this;
    }

    method SetSessionAttribute(key: string, value: Value) returns (self: Response)
      modifies this
      ensures self == this
      ensures Get() == WithAttribute(old(Get()), key, value)
    {
      sessionAttributes := sessionAttributes[key := value];
      self := this;
    }

    method SetCard(card: Value) returns (self: Response)
      modifies this
      ensures self == this
      ensures Get() == WithCard(old(Get()), card)
    {
      response := response.(card := card);
      self := this;
    }

    method AddDirective(directive: Value) returns (self: Response)
      modifies this
      ensures self == this
      ensures Get() == WithDirective(old(Get()), directive)
    {
      response := response.(directives := response.directives + [directive]);
      self := this;
    }

    method EndSession() returns (self: Response)
      modifies this
      ensures self == this
      ensures Get() == Ended(old(Get()))
    {
      response := response.(shouldEndSession := true);
      self := this;
    }
  }

  // ---------------------------------------------------------------------------
  // What the operations promise
  // ---------------------------------------------------------------------------

  /** `say` sets the speech and leaves every other part of the document alone. */
  lemma SayChangesOnlySpeech(d: Document, text: string)
    ensures Said(d, text).response.outputSpeech == Some(Response.CreateOutputSpeech(text))
    ensures Said(d, text).version == d.version
    ensures Said(d, text).sessionAttributes == d.sessionAttributes
    ensures Said(d, text).response.reprompt == d.response.reprompt
    ensures Said(d, text).response.card == d.response.card
    ensures Said(d, text).response.directives == d.response.directives
    ensures Said(d, text).response.shouldEndSession == d.response.shouldEndSession
  {
  }

  /** `reprompt` sets the reprompt speech only; it is allowed on an ended
      session, so a document can be ended and carry a reprompt. */
  lemma RepromptChangesOnlyReprompt(d: Document, text: string)
    ensures Reprompted(d, text).response.reprompt.outputSpeech == Some(Response.CreateOutputSpeech(text))
    ensures Reprompted(d, text).response.outputSpeech == d.response.outputSpeech
    ensures Reprompted(d, text).version == d.version
    ensures Reprompted(d, text).sessionAttributes == d.sessionAttributes
    ensures Reprompted(d, text).response.card == d.response.card
    ensures Reprompted(d, text).response.directives == d.response.directives
    ensures Reprompted(d, text).response.shouldEndSession == d.response.shouldEndSession
    ensures Reprompted(Ended(d), text).response.shouldEndSession
  {
  }

  /** Last write wins for a key; every other key keeps its value. */
  lemma SessionAttributeUpsert(d: Document, key: string, v1: Value, v2: Value)
    ensures WithAttribute(d, key, v2).sessionAttributes[key] == v2
    ensures WithAttribute(WithAttribute(d, key, v1), key, v2) == WithAttribute(d, key, v2)
    ensures WithAttribute(d, key, v2).sessionAttributes.Keys == d.sessionAttributes.Keys + {key}
    ensures forall k :: k in d.sessionAttributes && k != key ==>
      WithAttribute(d, key, v2).sessionAttributes[k] == d.sessionAttributes[k]
    ensures WithAttribute(d, key, v2).response == d.response
  {
  }

  /** Directives are appended in call order, with no deduplication and no cap. */
  lemma {:induction false} DirectivesAppendInOrder(d: Document, ds: seq<Value>)
    ensures WithDirectives(d, ds).response.directives == d.response.directives + ds
    ensures WithDirectives(d, ds) == d.(response := d.response.(directives := d.response.directives + ds))
    decreases |ds|
  {
    if ds != [] {
      DirectivesAppendInOrder(WithDirective(d, ds[0]), ds[1..]);
      assert d.response.directives + [ds[0]] + ds[1..] == d.response.directives + ds;
    }
  }

  /** Ending a session twice is ending it once; only the flag changes. */
  lemma EndSessionIdempotent(d: Document)
    ensures Ended(Ended(d)) == Ended(d)
    ensures Ended(d).response.shouldEndSession
    ensures Ended(d) == d.(response := d.response.(shouldEndSession := true))
  {
  }

  /** `setCard` overwrites the card and nothing else. */
  lemma SetCardOverwrites(d: Document, c1: Value, c2: Value)
    ensures WithCard(WithCard(d, c1), c2) == WithCard(d, c2)
    ensures WithCard(d, c2).response.card == c2
    ensures WithCard(d, c2).response.outputSpeech == d.response.outputSpeech
    ensures WithCard(d, c2).response.reprompt == d.response.reprompt
    ensures WithCard(d, c2).response.directives == d.response.directives
    ensures WithCard(d, c2).response.shouldEndSession == d.response.shouldEndSession
    ensures WithCard(d, c2).version == d.version
    ensures WithCard(d, c2).sessionAttributes == d.sessionAttributes
  {
  }

  /** Speech type inference on concrete texts. No trimming: a leading space
      makes the text plain; a line break inside the envelope does too. */
  lemma SpeechTypeExamples()
    ensures Response.CreateOutputSpeech("Hello") == OutputSpeech(PlainText, "Hello")
    ensures Response.CreateOutputSpeech("<speak>Hello</speak>") == OutputSpeech(SSML, "<speak>Hello</speak>")
    ensures Response.CreateOutputSpeech(" <speak>Hello</speak>").kind == PlainText
    ensures Response.CreateOutputSpeech("<speak>a\nb</speak>").kind == PlainText
    ensures Response.CreateOutputSpeech("<speak></speak>").kind == SSML
  {
    assert "<speak>Hello</speak>" == SpeakOpen + "Hello" + SpeakClose;
    assert SingleLine("Hello");
    assert "<speak></speak>" == SpeakOpen + "" + SpeakClose;
    forall m: string ensures " <speak>Hello</speak>" != SpeakOpen + m + SpeakClose {
      assert (SpeakOpen + m + SpeakClose)[0] == '<';
    }
    forall m: string | "<speak>a\nb</speak>" == SpeakOpen + m + SpeakClose ensures !SingleLine(m) {
      assert m == "<speak>a\nb</speak>"[7..10];
      assert m[1] == '\n';
    }
  }

  // ---------------------------------------------------------------------------
  // The document as the value handed to the JSON writer
  // ---------------------------------------------------------------------------

  function SpeechTypeName(k: SpeechType): string {
    match k
    case PlainText => "PlainText"
    case SSML => "SSML"
  }

  function SpeechValue(o: Option<OutputSpeech>): Value {
    match o
    case None => Undefined
    case Some(s) => Obj(map["type" := Str(SpeechTypeName(s.kind)), "text" := Str(s.text)])
  }

  /** The plain object `get()` returns, as a JavaScript value. */
  function DocumentValue(d: Document): (v: Value)
    ensures v.Obj? && v.fields.Keys == {"version", "sessionAttributes", "response"}
  {
    Obj(map[
      "version" := Str(d.version),
      "sessionAttributes" := Obj(d.sessionAttributes),
      "response" := Obj(map[
        "shouldEndSession" := Bool(d.response.shouldEndSession),
        "outputSpeech" := SpeechValue(d.response.outputSpeech),
        "card" := d.response.card,
        "reprompt" := Obj(map["outputSpeech" := SpeechValue(d.response.reprompt.outputSpeech)]),
        "directives" := Arr(d.response.directives)])])
  }

  function SpeechFromValue(v: Value): Option<Option<OutputSpeech>> {
    if v.Undefined? then Some(None)
    else if v.Obj? && "type" in v.fields && "text" in v.fields && v.fields["text"].Str? then
      var t := v.fields["type"];
      if t == Str("PlainText") then Some(Some(OutputSpeech(PlainText, v.fields["text"].s)))
      else if t == Str("SSML") then Some(Some(OutputSpeech(SSML, v.fields["text"].s)))
      else None
    else None
  }

  /** Reads a written body back as a document, when it has the document's shape. */
  function DocumentFromValue(v: Value): Option<Document> {
    var version := Prop(v, "version");
    var attributes := Prop(v, "sessionAttributes");
    var body := Prop(v, "response");
    var flag := Prop(body, "shouldEndSession");
    var speech := SpeechFromValue(Prop(body, "outputSpeech"));
    var reprompt := SpeechFromValue(Prop(Prop(body, "reprompt"), "outputSpeech"));
    var directives := Prop(body, "directives");
    if version.Str? && attributes.Obj? && body.Obj? && "card" in body.fields && flag.Bool?
       && speech.Some? && reprompt.Some? && directives.Arr?
    then Some(Document(version.s, attributes.fields,
                       Body(flag.b, speech.value, body.fields["card"], RepromptSpeech(reprompt.value), directives.items)))
    else None
  }

  lemma SpeechValueRoundTrip(o: Option<OutputSpeech>)
    ensures SpeechFromValue(SpeechValue(o)) == Some(o)
  {
    if o.Some? {
      var v := SpeechValue(o);
      assert v.fields["type"] == Str(SpeechTypeName(o.value.kind));
      assert v.fields["text"] == Str(o.value.text);
    }
  }

  /** The written body determines the document: reading it back gives it. */
  lemma DocumentValueRoundTrip(d: Document)
    ensures DocumentFromValue(DocumentValue(d)) == Some(d)
  {
    SpeechValueRoundTrip(d.response.outputSpeech);
    SpeechValueRoundTrip(d.response.reprompt.outputSpeech);
    var v := DocumentValue(d);
    var body := Prop(v, "response");
    assert Prop(v, "version") == Str(d.version);
    assert Prop(v, "sessionAttributes") == Obj(d.sessionAttributes);
    assert Prop(body, "shouldEndSession") == Bool(d.response.shouldEndSession);
    assert Prop(body, "outputSpeech") == SpeechValue(d.response.outputSpeech);
    assert Prop(Prop(body, "reprompt"), "outputSpeech") == SpeechValue(d.response.reprompt.outputSpeech);
    assert Prop(body, "directives") == Arr(d.response.directives);
    assert body.fields["card"] == d.response.card;
  }

  /** Different documents are written as different bodies. */
  lemma DocumentValueInjective(d1: Document, d2: Document)
    requires DocumentValue(d1) == DocumentValue(d2)
    ensures d1 == d2
  {
    DocumentValueRoundTrip(d1);
    DocumentValueRoundTrip(d2);
  }

  // ---------------------------------------------------------------------------
  // Clients of the class
  // ---------------------------------------------------------------------------

  /** `new Response().say("Welcome").endSession().get()`. */
  method WelcomeDocument() returns (d: Document)
    ensures d == Document("1.0", map[], Body(true, Some(OutputSpeech(PlainText, "Welcome")), Undefined, RepromptSpeech(None), []))
    ensures d == Ended(Said(Initial(DefaultVersion), "Welcome"))
  {
    var r := new Response.Default();
    var r1 := r.Say("Welcome");
    var r2 := r1.EndSession();
    d := r2.Get();
    assert !IsSpeakEnvelope("Welcome") by {
      MatchesSpeakExactly("Welcome");
    }
  }

  /** Two writes of one attribute and two directives, through the object. */
  method AttributesAndDirectives(a: Value, b: Value) returns (d: Document)
    ensures d.sessionAttributes == map["count" := Num(2)]
    ensures d.response.directives == [a, b]
    ensures d.response == Initial(DefaultVersion).response.(directives := [a, b])
  {
    var r := new Response.Default();
    var r1 := r.SetSessionAttribute("count", Num(1));
    r1 := r1.SetSessionAttribute("count", Num(2));
    r1 := r1.AddDirective(a);
    r1 := r1.AddDirective(b);
    d := r1.Get();
  }
}
