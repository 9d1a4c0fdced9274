/**
 JSON values: the grammar parse_value accepts, the text emit_value_indented prints, and
 when reading the text gives the value back.
 */
module Json {
  import opened Bytes
  import opened Utf8
  import opened JsonString

  // A number is its text: no floating-point values here.
  datatype Json =
    | Null
    | Bool(b: bool)
    | Number(token: bytes)
    | Str(s: bytes)
    | Array(elements: seq<Json>)
    | Object(members: seq<Member>)

  datatype Member = Member(key: bytes, value: Json)

  const COMMA: byte := 44
  const COLON: byte := 58
  const NEWLINE: byte := 10
  const OPEN_ARRAY: byte := 91
  const CLOSE_ARRAY: byte := 93
  const OPEN_OBJECT: byte := 123
  const CLOSE_OBJECT: byte := 125

  const NULL_TEXT: bytes := [110, 117, 108, 108]
  const TRUE_TEXT: bytes := [116, 114, 117, 101]
  const FALSE_TEXT: bytes := [102, 97, 108, 115, 101]

  // ---------- reading ----------

  predicate IsSpace(c: byte) {
    c == 9 || c == 10 || c == 13 || c == 32
  }

  predicate IsDigit(c: byte) {
    48 <= c <= 57
  }

  function SkipSpace(s: bytes): (r: bytes)
    ensures |r| <= |s| && !IsSpace(Peek(r, 0))
  {
    if IsSpace(Peek(s, 0)) then SkipSpace(s[1..]) else s
  }

  function SkipDigits(s: bytes): (r: bytes)
    ensures |r| <= |s| && (IsDigit(Peek(s, 0)) ==> |r| < |s|)
  {
    if IsDigit(Peek(s, 0)) then SkipDigits(s[1..]) else s
  }

  datatype Tail = NoTail | Tail(rest: bytes)

  // The parts of a number: '-'? (0 | [1-9][0-9]*)
  function Digits(s: bytes): (t: Tail)
    ensures t.Tail? ==> |t.rest| < |s|
  {
    if IsDigit(Peek(s, 0)) then Tail(SkipDigits(s)) else NoTail
  }

  function Sign(s: bytes): (r: bytes)
    ensures |r| <= |s|
  {
    if Peek(s, 0) == 45 then s[1..] else s
  }

  function Whole(s: bytes): (t: Tail)
    ensures t.Tail? ==> |t.rest| < |s|
  {
    if Peek(s, 0) == 48 then Tail(s[1..]) else Digits(s)
  }

  // ('.' [0-9]+)?
  function Fraction(s: bytes): (t: Tail)
    ensures t.Tail? ==> |t.rest| <= |s|
  {
    if Peek(s, 0) == 46 then Digits(s[1..]) else Tail(s)
  }

  // ([Ee] [+-]? [0-9]+)?
  function Exponent(s: bytes): (t: Tail)
    ensures t.Tail? ==> |t.rest| <= |s|
  {
    if Peek(s, 0) == 69 || Peek(s, 0) == 101 then
      if Peek(s[1..], 0) == 43 || Peek(s[1..], 0) == 45 then Digits(s[2..]) else Digits(s[1..])
    else Tail(s)
  }

  function AfterNumber(s: bytes): (t: Tail)
    ensures t.Tail? ==> |t.rest| < |s|
  {
    match Whole(Sign(s))
    case NoTail => NoTail
    case Tail(u) =>
      match Fraction(u)
      case NoTail => NoTail
      case Tail(v) => Exponent(v)
  }

  // parse_number
  function ParseNumber(s: bytes): (r: Lex<bytes>)
    ensures r.Good? ==> |r.rest| < |s| && |r.value| + |r.rest| == |s|
  {
    match AfterNumber(s)
    case NoTail => Bad
    case Tail(rest) => Good(s[..|s| - |rest|], rest)
  }

  // expect_literal
  function ParseLiteral(s: bytes, literal: bytes, v: Json): (r: Lex<Json>)
    ensures r.Good? ==> |r.rest| + |literal| == |s|
  {
    if literal <= s then Good(v, s[|literal|..]) else Bad
  }

  function ParseValue(s: bytes): (r: Lex<Json>)
    ensures r.Good? ==> |r.rest| < |s|
    decreases |s|, 1
  {
    var c := Peek(s, 0);
    if c == 110 then ParseLiteral(s, NULL_TEXT, Null)
    else if c == 102 then ParseLiteral(s, FALSE_TEXT, Bool(false))
    else if c == 116 then ParseLiteral(s, TRUE_TEXT, Bool(true))
    else if c == QUOTE then
      match ParseString(s)
      case Bad => Bad
      case Good(str, rest) => Good(Str(str), rest)
    else if c == OPEN_ARRAY then ParseArray(s)
    else if c == OPEN_OBJECT then ParseObject(s)
    else
      match ParseNumber(s)
      case Bad => Bad
      case Good(token, rest) => Good(Number(token), rest)
  }

  function ParseArray(s: bytes): (r: Lex<Json>)
    requires |s| > 0
    ensures r.Good? ==> |r.rest| < |s|
    decreases |s|, 0
  {
    var t := SkipSpace(s[1..]);
    if Peek(t, 0) == CLOSE_ARRAY then Good(Array([]), t[1..])
    else match ParseElements(t)
      case Bad => Bad
      case Good(es, rest) => Good(Array(es), rest)
  }

  // The loop of parse_array, from the first octet of an element.
  function ParseElements(s: bytes): (r: Lex<seq<Json>>)
    ensures r.Good? ==> |r.rest| < |s|
    decreases |s|, 2
  {
    match ParseValue(s)
    case Bad => Bad
    case Good(e, after) =>
      var t := SkipSpace(after);
      if Peek(t, 0) == CLOSE_ARRAY then Good([e], t[1..])
      else if Peek(t, 0) != COMMA then Bad
      else match ParseElements(SkipSpace(t[1..]))
        case Bad => Bad
        case Good(es, rest) => Good([e] + es, rest)
  }

  function ParseObject(s: bytes): (r: Lex<Json>)
    requires |s| > 0
    ensures r.Good? ==> |r.rest| < |s|
    decreases |s|, 0
  {
    var t := SkipSpace(s[1..]);
    if Peek(t, 0) == CLOSE_OBJECT then Good(Object([]), t[1..])
    else match ParseMembers(t)
      case Bad => Bad
      case Good(ms, rest) => Good(Object(ms), rest)
  }

  function ParseMember(s: bytes): (r: Lex<Member>)
    ensures r.Good? ==> |r.rest| < |s|
    decreases |s|, 2
  {
    match ParseString(s)
    case Bad => Bad
    case Good(key, after) =>
      var t := SkipSpace(after);
      if Peek(t, 0) != COLON then Bad
      else match ParseValue(SkipSpace(t[1..]))
        case Bad => Bad
        case Good(v, rest) => Good(Member(key, v), rest)
  }

  // The loop of parse_object.
  function ParseMembers(s: bytes): (r: Lex<seq<Member>>)
    ensures r.Good? ==> |r.rest| < |s|
    decreases |s|, 3
  {
    match ParseMember(s)
    case Bad => Bad
    case Good(m, after) =>
      var t := SkipSpace(after);
      if Peek(t, 0) == CLOSE_OBJECT then Good([m], t[1..])
      else if Peek(t, 0) != COMMA then Bad
      else match ParseMembers(SkipSpace(t[1..]))
        case Bad => Bad
        case Good(ms, rest) => Good([m] + ms, rest)
  }

  datatype Decoded = NotJson | Decoded(value: Json)

  // json_decode
  function DecodeJson(s: bytes): Decoded {
    match ParseValue(SkipSpace(s))
    case Bad => NotJson
    case Good(v, rest) => if Peek(SkipSpace(rest), 0) != 0 then NotJson else Decoded(v)
  }

  // ---------- writing ----------

  function Indent(space: bytes, level: nat): bytes {
    if level == 0 then [] else space + Indent(space, level - 1)
  }

  // Strings are UTF-8 without NULs, as emit_string asserts, and so is the text of a number.
  ghost predicate Text(s: bytes) {
    Valid(s) && 0 !in s
  }

  ghost predicate Texts(v: Json) {
    match v
    case Number(token) => 0 !in token
    case Str(s) => Text(s)
    case Array(es) => forall e :: e in es ==> Texts(e)
    case Object(ms) => forall m :: m in ms ==> Text(m.key) && Texts(m.value)
    case _ => true
  }

  predicate IsNumber(token: bytes) {
    ParseNumber(token) == Good(token, [])
  }

  // emit_value_indented
  function Emit(v: Json, space: bytes, level: nat): (r: bytes)
    requires Texts(v)
    decreases v, 0
  {
    match v
    case Null => NULL_TEXT
    case Bool(b) => if b then TRUE_TEXT else FALSE_TEXT
    case Number(token) => if IsNumber(token) then token else NULL_TEXT
    case Str(s) => EmitString(s)
    case Array(es) =>
      if |es| == 0 then [OPEN_ARRAY, CLOSE_ARRAY]
      else [OPEN_ARRAY, NEWLINE] + (Indent(space, level + 1) + EmitElements(es, space, level))
    case Object(ms) =>
      if |ms| == 0 then [OPEN_OBJECT, CLOSE_OBJECT]
      else [OPEN_OBJECT, NEWLINE] + (Indent(space, level + 1) + EmitMembers(ms, space, level))
  }

  // What stands behind an element: a comma and the next line, or the closing bracket.
  function Separator(last: bool, close: byte, space: bytes, level: nat): bytes {
    if last then [NEWLINE] + Indent(space, level) + [close] else [COMMA, NEWLINE] + Indent(space, level + 1)
  }

  function EmitElements(es: seq<Json>, space: bytes, level: nat): bytes
    requires |es| > 0 && forall e :: e in es ==> Texts(e)
    decreases es, 1
  {
    Emit(es[0], space, level + 1) + Separator(|es| == 1, CLOSE_ARRAY, space, level)
    + if |es| == 1 then [] else EmitElements(es[1..], space, level)
  }

  function EmitMembers(ms: seq<Member>, space: bytes, level: nat): bytes
    requires |ms| > 0 && forall m :: m in ms ==> Text(m.key) && Texts(m.value)
    decreases ms, 1
  {
    assert ms[0] in ms && Text(ms[0].key);
    EmitString(ms[0].key) + [COLON, 32] + Emit(ms[0].value, space, level + 1)
    + Separator(|ms| == 1, CLOSE_OBJECT, space, level)
    + if |ms| == 1 then [] else EmitMembers(ms[1..], space, level)
  }

  // ---------- what comes back ----------

  predicate Clean(v: Json) {
    match v
    case Str(s) => 0x1F !in s
    case Array(es) => AllClean(es)
    case Object(ms) => MembersClean(ms)
    case _ => true
  }

  predicate AllClean(es: seq<Json>) {
    |es| == 0 || (Clean(es[0]) && AllClean(es[1..]))
  }

  predicate MembersClean(ms: seq<Member>) {
    |ms| == 0 || (0x1F !in ms[0].key && Clean(ms[0].value) && MembersClean(ms[1..]))
  }

  // A text that is no number has been printed as null.
  function Normal(v: Json): Json {
    match v
    case Number(token) => if IsNumber(token) then v else Null
    case Array(es) => Array(NormalAll(es))
    case Object(ms) => Object(NormalMembers(ms))
    case _ => v
  }

  function NormalAll(es: seq<Json>): seq<Json> {
    if |es| == 0 then [] else [Normal(es[0])] + NormalAll(es[1..])
  }

  function NormalMembers(ms: seq<Member>): seq<Member> {
    if |ms| == 0 then [] else [Member(ms[0].key, Normal(ms[0].value))] + NormalMembers(ms[1..])
  }

  // The identity on values whose numbers are numbers.
  predicate NumbersAreNumbers(v: Json) {
    match v
    case Number(token) => IsNumber(token)
    case Array(es) => forall e :: e in es ==> NumbersAreNumbers(e)
    case Object(ms) => forall m :: m in ms ==> NumbersAreNumbers(m.value)
    case _ => true
  }

  lemma {:induction false} NormalIsIdentity(v: Json)
    requires NumbersAreNumbers(v)
    ensures Normal(v) == v
  {
    hide IsNumber;
    match v
    case Array(es) => NormalAllIsIdentity(es);
    case Object(ms) => NormalMembersIsIdentity(ms);
    case _ =>
  }

  lemma {:induction false} NormalAllIsIdentity(es: seq<Json>)
    requires forall e :: e in es ==> NumbersAreNumbers(e)
    ensures NormalAll(es) == es
  {
    hide Normal;
    if |es| > 0 {
      NormalIsIdentity(es[0]);
      NormalAllIsIdentity(es[1..]);
    }
  }

  lemma {:induction false} NormalMembersIsIdentity(ms: seq<Member>)
    requires forall m :: m in ms ==> NumbersAreNumbers(m.value)
    ensures NormalMembers(ms) == ms
  {
    hide Normal;
    if |ms| > 0 {
      NormalIsIdentity(ms[0].value);
      NormalMembersIsIdentity(ms[1..]);
    }
  }
}
