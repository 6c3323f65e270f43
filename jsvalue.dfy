/** The JavaScript values that travel through the webhook: decoded request
    bodies, handler results, session attributes, cards and directives.
    Numbers are integral (see README, "Left out"). */
module JsValue {

  datatype Option<+T> = None | Some(value: T)

  datatype Value =
    | Undefined
    | Null
    | Bool(b: bool)
    | Num(n: int)
    | Str(s: string)
    | Obj(fields: map<string, Value>)
    | Arr(items: seq<Value>)

  /** JavaScript truthiness: `undefined`, `null`, `false`, `0` and `""` are falsy. */
  predicate Truthy(v: Value) {
    match v
    case Undefined => false
    case Null => false
    case Bool(b) => b
    case Num(n) => n != 0
    case Str(s) => s != ""
    case Obj(_) => true
    case Arr(_) => true
  }

  /** Reading a property of these throws a TypeError. */
  predicate IsNullish(v: Value) {
    v.Undefined? || v.Null?
  }

  /** `v.key` for a value that is not nullish: a missing own property reads as
      `undefined`; primitives and arrays have none of the keys used here. */
  function Prop(v: Value, key: string): Value {
    if v.Obj? && key in v.fields then v.fields[key] else Undefined
  }

  /** `a === b`. Objects and arrays compare by reference; a decoded value is
      never the same reference as another, so they are never strictly equal here. */
  predicate StrictEquals(a: Value, b: Value) {
    match (a, b)
    case (Undefined, Undefined) => true
    case (Null, Null) => true
    case (Bool(x), Bool(y)) => x == y
    case (Num(x), Num(y)) => x == y
    case (Str(x), Str(y)) => x == y
    case _ => false
  }

  /** Strict equality against a primitive is structural equality. */
  lemma StrictEqualsPrimitive(a: Value, b: Value)
    requires !b.Obj? && !b.Arr?
    ensures StrictEquals(a, b) <==> a == b
  {
  }

  function DigitChar(d: nat): (c: char)
    requires d < 10
    ensures '0' <= c <= '9'
  {
    "0123456789"[d]
  }

  /** Decimal rendering of a natural number, most significant digit first. */
  function NatText(n: nat): (s: string)
    ensures |s| >= 1
    ensures forall i :: 0 <= i < |s| ==> '0' <= s[i] <= '9'
    ensures n >= 10 ==> s[0] != '0'
    decreases n
  {
    if n < 10 then [DigitChar(n)] else NatText(n / 10) + [DigitChar(n % 10)]
  }

  function IntText(n: int): (s: string)
    ensures |s| >= 1
  {
    if n < 0 then "-" + NatText(-n) else NatText(n)
  }

  /** Reading decimal text back: an optional minus sign, then digits, most
      significant first. */
  function DigitValue(c: char): int {
    c as int - '0' as int
  }

  function ParseNat(s: string): int
    decreases |s|
  {
    if s == [] then 0 else 10 * ParseNat(s[..|s| - 1]) + DigitValue(s[|s| - 1])
  }

  function ParseInt(s: string): int {
    if |s| > 0 && s[0] == '-' then -ParseNat(s[1..]) else ParseNat(s)
  }

  lemma DigitRoundTrip(d: nat)
    requires d < 10
    ensures DigitValue(DigitChar(d)) == d
  {
    assert "0123456789"[0] == '0';
    if d == 0 {} else if d == 1 {} else if d == 2 {} else if d == 3 {} else if d == 4 {}
    else if d == 5 {} else if d == 6 {} else if d == 7 {} else if d == 8 {} else {}
  }

  /** The decimal text of a natural number reads back as that number. */
  lemma {:induction false} NatTextRoundTrip(n: nat)
    ensures ParseNat(NatText(n)) == n
    decreases n
  {
    var s := NatText(n);
    if n < 10 {
      DigitRoundTrip(n);
      assert s[..|s| - 1] == [];
    } else {
      NatTextRoundTrip(n / 10);
      DigitRoundTrip(n % 10);
      assert s[..|s| - 1] == NatText(n / 10);
    }
  }

  /** The decimal text of any integer reads back as that integer, so
      different numbers convert to different texts. */
  lemma IntTextRoundTrip(n: int)
    ensures ParseInt(IntText(n)) == n
  {
    var s := IntText(n);
    if n < 0 {
      var t := NatText(-n);
      NatTextRoundTrip(-n);
      assert s == "-" + t;
      assert s[0] == '-' && s[1..] == t;
    } else {
      var t := NatText(n);
      NatTextRoundTrip(n);
      assert s == t && '0' <= t[0] <= '9';
    }
  }

  /** String conversion inside a template literal (`${v}`): the conversion
      that turns an intent name into a handler name. An array joins its
      elements with "," and renders `null`/`undefined` elements as "". */
  function TemplateText(v: Value): string
    decreases v
  {
    match v
    case Undefined => "undefined"
    case Null => "null"
    case Bool(b) => if b then "true" else "false"
    case Num(n) => IntText(n)
    case Str(s) => s
    case Obj(_) => "[object Object]"
    case Arr(items) => JoinedText(items)
  }

  function JoinedText(items: seq<Value>): string
    decreases items
  {
    if items == [] then ""
    else
      var first := if IsNullish(items[0]) then "" else TemplateText(items[0]);
      if |items| == 1 then first else first + "," + JoinedText(items[1..])
  }

  /** A number converts to its decimal text: the text reads back as the
      number, so two numbers convert alike exactly when they are equal, and
      a number converts like the string of its digits. */
  lemma TemplateTextOfNumber(a: int, b: int)
    ensures ParseInt(TemplateText(Num(a))) == a
    ensures TemplateText(Num(a)) == TemplateText(Num(b)) <==> a == b
    ensures TemplateText(Num(a)) == TemplateText(Str(IntText(a)))
  {
    IntTextRoundTrip(a);
    IntTextRoundTrip(b);
  }
}
