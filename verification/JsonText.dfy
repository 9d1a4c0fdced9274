/**
 JSON texts written out by a grammar that generates them, independent of the reader, and
 json_decode against it: it reads every text as its value, and nothing else.
 */
module JsonText {
  import opened Bytes
  import opened Utf8
  import opened JsonString
  import opened Json

  // ---------- what a text is made of ----------

  // A hexadecimal digit in either case, and four of them.
  datatype Hex = Hex(v: nat, upper: bool)

  datatype Four = Four(a: Hex, b: Hex, c: Hex, d: Hex)

  // A character of a string: as it is, escaped by a letter, or by its number in UTF-16.
  datatype Char = Raw(u: nat) | Short(c: char) | Unit(code: Four) | Pair(high: Four, low: Four)

  datatype Power = NoPower | Power(letter: char, sign: string, digits: bytes)

  // -? whole (. fraction)? power?
  datatype Numeral = Numeral(minus: bool, whole: bytes, fraction: bytes, power: Power)

  // White space is kept wherever it may stand.
  datatype Doc =
    | TNull
    | TTrue
    | TFalse
    | TNumber(n: Numeral)
    | TString(cs: seq<Char>)
    | TArray(inner: bytes, elements: seq<Element>)
    | TObject(inner: bytes, members: seq<Entry>)

  datatype Element = Element(before: bytes, doc: Doc, after: bytes)

  datatype Entry = Entry(before: bytes, key: seq<Char>, between: bytes, behind: bytes, doc: Doc, after: bytes)

  // ---------- which of them there are ----------

  predicate IsHex(h: Hex) { h.v < 16 }

  predicate IsFour(f: Four) { IsHex(f.a) && IsHex(f.b) && IsHex(f.c) && IsHex(f.d) }

  function Count(f: Four): nat { f.a.v * 4096 + f.b.v * 256 + f.c.v * 16 + f.d.v }

  // No control characters, no NUL, no halves of pairs.
  predicate IsChar(ch: Char) {
    match ch
    case Raw(u) => Scalar(u) && u > 0x1F && u != '"' as int && u != '\\' as int
    case Short(c) => c in "\"\\/bfnrt"
    case Unit(f) => IsFour(f) && Count(f) != 0 && !(0xD800 <= Count(f) <= 0xDFFF)
    case Pair(h, l) => IsFour(h) && IsFour(l) && 0xD800 <= Count(h) <= 0xDBFF && 0xDC00 <= Count(l) <= 0xDFFF
  }

  predicate AreChars(cs: seq<Char>) {
    |cs| == 0 || (IsChar(cs[0]) && AreChars(cs[1..]))
  }

  predicate AreDigits(s: bytes) {
    |s| > 0 && forall i :: 0 <= i < |s| ==> '0' as int <= s[i] <= '9' as int
  }

  predicate IsNumeral(n: Numeral) {
    && AreDigits(n.whole) && (n.whole[0] == '0' as int ==> |n.whole| == 1)
    && (|n.fraction| > 0 ==> AreDigits(n.fraction))
    && (n.power.Power? ==> n.power.letter in "eE" && n.power.sign in {"", "+", "-"} && AreDigits(n.power.digits))
  }

  predicate IsBlank(s: bytes) {
    forall i :: 0 <= i < |s| ==> s[i] == ' ' as int || s[i] == '\t' as int || s[i] == '\n' as int || s[i] == '\r' as int
  }

  predicate IsDoc(d: Doc)
    decreases d, 0
  {
    match d
    case TNumber(n) => IsNumeral(n)
    case TString(cs) => AreChars(cs)
    case TArray(inner, es) => IsBlank(inner) && AreElements(es)
    case TObject(inner, ms) => IsBlank(inner) && AreEntries(ms)
    case _ => true
  }

  predicate AreElements(es: seq<Element>)
    decreases es, 1
  {
    |es| == 0 || (IsBlank(es[0].before) && IsDoc(es[0].doc) && IsBlank(es[0].after) && AreElements(es[1..]))
  }

  predicate AreEntries(ms: seq<Entry>)
    decreases ms, 1
  {
    |ms| == 0 || (IsBlank(ms[0].before) && AreChars(ms[0].key) && IsBlank(ms[0].between) && IsBlank(ms[0].behind)
                  && IsDoc(ms[0].doc) && IsBlank(ms[0].after) && AreEntries(ms[1..]))
  }

  // ---------- what they are written as, in front of `rest` ----------

  function HexText(h: Hex): byte
    requires IsHex(h)
  {
    if h.v < 10 then '0' as int + h.v else (if h.upper then 'A' else 'a') as int + (h.v - 10)
  }

  function FourText(f: Four): bytes
    requires IsFour(f)
  {
    [HexText(f.a), HexText(f.b), HexText(f.c), HexText(f.d)]
  }

  function CharText(ch: Char): bytes
    requires IsChar(ch)
  {
    match ch
    case Raw(u) => WriteChar(u)
    case Short(c) => Ascii(['\\', c])
    case Unit(f) => Ascii("\\u") + FourText(f)
    case Pair(h, l) => Ascii("\\u") + FourText(h) + (Ascii("\\u") + FourText(l))
  }

  function CharsText(cs: seq<Char>, rest: bytes): bytes
    requires AreChars(cs)
  {
    if |cs| == 0 then rest else CharText(cs[0]) + CharsText(cs[1..], rest)
  }

  function StringText(cs: seq<Char>, rest: bytes): bytes
    requires AreChars(cs)
  {
    Ascii("\"") + CharsText(cs, Ascii("\"") + rest)
  }

  function PowerText(p: Power): bytes {
    if p.NoPower? then [] else Ascii([p.letter]) + (Ascii(p.sign) + p.digits)
  }

  function FractionText(f: bytes): bytes {
    if |f| == 0 then [] else Ascii(".") + f
  }

  function NumeralText(n: Numeral): bytes {
    Ascii(if n.minus then "-" else "") + (n.whole + (FractionText(n.fraction) + PowerText(n.power)))
  }

  function Written(d: Doc, rest: bytes): bytes
    requires IsDoc(d)
    decreases d, 0
  {
    match d
    case TNull => Ascii("null") + rest
    case TTrue => Ascii("true") + rest
    case TFalse => Ascii("false") + rest
    case TNumber(n) => NumeralText(n) + rest
    case TString(cs) => StringText(cs, rest)
    case TArray(inner, es) => Ascii("[") + if |es| == 0 then inner + (Ascii("]") + rest) else ElementsText(es, rest)
    case TObject(inner, ms) => Ascii("{") + if |ms| == 0 then inner + (Ascii("}") + rest) else EntriesText(ms, rest)
  }

  function ElementsText(es: seq<Element>, rest: bytes): bytes
    requires |es| > 0 && AreElements(es)
    decreases es, 1
  {
    es[0].before + Written(es[0].doc, es[0].after + if |es| == 1 then Ascii("]") + rest else Ascii(",") + ElementsText(es[1..], rest))
  }

  function EntriesText(ms: seq<Entry>, rest: bytes): bytes
    requires |ms| > 0 && AreEntries(ms)
    decreases ms, 1
  {
    var m := ms[0];
    m.before
    + StringText(m.key,
        m.between + (Ascii(":") + (m.behind
        + Written(m.doc, m.after + if |ms| == 1 then Ascii("}") + rest else Ascii(",") + EntriesText(ms[1..], rest)))))
  }

  // ---------- what they mean ----------

  // The code point of a character.
  function CodePoint(ch: Char): (u: nat)
    requires IsChar(ch)
    ensures Scalar(u)
  {
    match ch
    case Raw(u) => u
    case Short(c) =>
      if c == 'b' then 8 else if c == 't' then 9 else if c == 'n' then 10 else if c == 'f' then 12 else if c == 'r' then 13
      else c as int
    case Unit(f) => Count(f)
    case Pair(h, l) => 0x1_0000 + (Count(h) - 0xD800) * 0x400 + (Count(l) - 0xDC00)
  }

  function CharsValue(cs: seq<Char>): bytes
    requires AreChars(cs)
  {
    if |cs| == 0 then [] else WriteChar(CodePoint(cs[0])) + CharsValue(cs[1..])
  }

  function Meaning(d: Doc): Json
    requires IsDoc(d)
    decreases d, 0
  {
    match d
    case TNull => Null
    case TTrue => Bool(true)
    case TFalse => Bool(false)
    case TNumber(n) => Number(NumeralText(n))
    case TString(cs) => Str(CharsValue(cs))
    case TArray(_, es) => Array(Meanings(es))
    case TObject(_, ms) => Object(EntryMeanings(ms))
  }

  function Meanings(es: seq<Element>): seq<Json>
    requires AreElements(es)
    decreases es, 1
  {
    if |es| == 0 then [] else [Meaning(es[0].doc)] + Meanings(es[1..])
  }

  function EntryMeanings(ms: seq<Entry>): seq<Member>
    requires AreEntries(ms)
    decreases ms, 1
  {
    if |ms| == 0 then [] else [Member(CharsValue(ms[0].key), Meaning(ms[0].doc))] + EntryMeanings(ms[1..])
  }
}
