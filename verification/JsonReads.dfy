/**
 parse_value reads every text the grammar of JsonText generates as its value.
 */
module JsonReads {
  import opened Bytes
  import opened Utf8
  import opened JsonString
  import opened Json
  import RT = JsonRoundTrip
  import opened JsonText

  // ---------- letters ----------

  lemma Literals()
    ensures Ascii("null") == NULL_TEXT
    ensures Ascii("true") == TRUE_TEXT
    ensures Ascii("false") == FALSE_TEXT
  {
    var n, t, f := Ascii("null"), Ascii("true"), Ascii("false");
    assert n[0] == 110 && n[1] == 117 && n[2] == 108 && n[3] == 108;
    assert t[0] == 116 && t[1] == 114 && t[2] == 117 && t[3] == 101;
    assert f[0] == 102 && f[1] == 97 && f[2] == 108 && f[3] == 115 && f[4] == 101;
  }

  lemma Marks()
    ensures Ascii("\"") == [QUOTE] && Ascii(",") == [COMMA] && Ascii(":") == [COLON]
    ensures Ascii("[") == [OPEN_ARRAY] && Ascii("]") == [CLOSE_ARRAY]
    ensures Ascii("{") == [OPEN_OBJECT] && Ascii("}") == [CLOSE_OBJECT]
    ensures Ascii("\\u") == [BACKSLASH, 117] && Ascii("-") == [45] && Ascii("+") == [43] && Ascii(".") == [46]
    ensures Ascii("") == []
  {
    OneLetter('"');
    OneLetter(',');
    OneLetter(':');
    OneLetter('[');
    OneLetter(']');
    OneLetter('{');
    OneLetter('}');
    OneLetter('-');
    OneLetter('+');
    OneLetter('.');
    TwoLetters('\\', 'u');
  }

  lemma Behind(s: bytes, t: bytes)
    ensures (s + t)[|s|..] == t && (s + t)[..|s|] == s
    ensures |s| > 0 ==> Peek(s + t, 0) == s[0]
    ensures |s| == 0 ==> s + t == t
  {
  }

  lemma Both(s: bytes, t: bytes, u: bytes)
    ensures s + (t + u) == s + t + u
  {
  }

  // ---------- characters are read ----------

  lemma HexReads(h: Hex, rest: bytes, k: nat, acc: nat)
    requires IsHex(h) && k > 0
    ensures ParseHex([HexText(h)] + rest, k, acc) == ParseHex(rest, k - 1, 16 * acc + h.v)
  {
    assert ([HexText(h)] + rest)[1..] == rest;
    assert HexValue(HexText(h)) == Digit(h.v);
  }

  lemma FourReads(f: Four, rest: bytes)
    requires IsFour(f)
    ensures ParseHex16(FourText(f) + rest) == Good(Count(f), rest)
  {
    hide HexText, ParseHex;
    assert FourText(f) + rest == [HexText(f.a)] + ([HexText(f.b)] + ([HexText(f.c)] + ([HexText(f.d)] + rest)));
    HexReads(f.a, [HexText(f.b)] + ([HexText(f.c)] + ([HexText(f.d)] + rest)), 4, 0);
    HexReads(f.b, [HexText(f.c)] + ([HexText(f.d)] + rest), 3, f.a.v);
    HexReads(f.c, [HexText(f.d)] + rest, 2, 16 * f.a.v + f.b.v);
    HexReads(f.d, rest, 1, 16 * (16 * f.a.v + f.b.v) + f.c.v);
    NoDigitsLeft(Count(f), rest);
  }

  lemma UnitReads(f: Four, rest: bytes)
    requires IsChar(Unit(f))
    ensures ParseUnicode(FourText(f) + rest) == Good(WriteChar(Count(f)), rest)
  {
    hide ParseHex16, FourText, WriteChar;
    FourReads(f, rest);
  }

  lemma PairCounts(h: nat, l: nat)
    requires 0xD800 <= h <= 0xDBFF && 0xDC00 <= l <= 0xDFFF
    ensures FromSurrogatePair(h, l) == Utf8.Pair(0x1_0000 + (h - 0xD800) * 0x400 + (l - 0xDC00))
  {
    assert h % 0x400 == h - 0xD800 && l % 0x400 == l - 0xDC00;
  }

  lemma PairReads(h: Four, l: Four, rest: bytes)
    requires IsChar(Char.Pair(h, l))
    ensures ParseUnicode(FourText(h) + ([BACKSLASH, 117] + (FourText(l) + rest)))
         == Good(WriteChar(CodePoint(Char.Pair(h, l))), rest)
  {
    hide ParseHex16, FourText, WriteChar, FromSurrogatePair;
    var t := [BACKSLASH, 117] + (FourText(l) + rest);
    assert t[2..] == FourText(l) + rest;
    FourReads(h, t);
    FourReads(l, rest);
    PairCounts(Count(h), Count(l));
  }

  lemma ShortReads(c: char, rest: bytes)
    requires IsChar(Short(c))
    ensures ParseChar([BACKSLASH, c as int] + rest) == Good([CodePoint(Short(c))], rest)
  {
    ParseShort(c as int, rest);
    assert ([c as int] + rest)[1..] == rest;
    hide ParseChar, ParseUnicode;
  }

  lemma OneOctetChar(u: nat)
    requires u < 0x80
    ensures WriteChar(u) == [u]
  {
  }

  lemma Escaped(t: bytes, rest: bytes)
    ensures ParseChar(Ascii("\\u") + t + rest) == ParseUnicode(t + rest)
    ensures |Ascii("\\u") + t| > 0 && (Ascii("\\u") + t)[0] != QUOTE
  {
    hide ParseChar, ParseUnicode;
    TwoLetters('\\', 'u');
    ParseU(t + rest);
    Both([BACKSLASH, 117], t, rest);
  }

  lemma ShortChar(c: char, rest: bytes)
    requires IsChar(Short(c))
    ensures ParseChar(Ascii(['\\', c]) + rest) == Good(WriteChar(CodePoint(Short(c))), rest)
    ensures |Ascii(['\\', c])| == 2 && Ascii(['\\', c])[0] != QUOTE
  {
    hide ParseChar, WriteChar;
    TwoLetters('\\', c);
    ShortReads(c, rest);
    OneOctetChar(CodePoint(Short(c)));
  }

  lemma RawChar(u: nat, rest: bytes)
    requires IsChar(Raw(u))
    ensures ParseChar(WriteChar(u) + rest) == Good(WriteChar(u), rest)
    ensures |WriteChar(u)| > 0 && WriteChar(u)[0] != QUOTE
  {
    ParsePlain(u, rest);
    FirstOctet(u, []);
    hide ParseChar;
  }

  lemma CharReads(ch: Char, rest: bytes)
    requires IsChar(ch)
    ensures ParseChar(CharText(ch) + rest) == Good(WriteChar(CodePoint(ch)), rest)
    ensures |CharText(ch)| > 0 && CharText(ch)[0] != QUOTE
  {
    hide ParseChar, FourText, WriteChar, ParseUnicode, Ascii;
    match ch
    case Raw(u) => RawChar(u, rest);
    case Short(c) => ShortChar(c, rest);
    case Unit(f) =>
      UnitReads(f, rest);
      Escaped(FourText(f), rest);
    case Pair(h, l) => PairChar(h, l, rest);
  }

  lemma PairChar(h: Four, l: Four, rest: bytes)
    requires IsChar(Char.Pair(h, l))
    ensures ParseChar(CharText(Char.Pair(h, l)) + rest) == Good(WriteChar(CodePoint(Char.Pair(h, l))), rest)
    ensures |CharText(Char.Pair(h, l))| > 0 && CharText(Char.Pair(h, l))[0] != QUOTE
  {
    hide ParseChar, FourText, WriteChar, ParseUnicode, Ascii, CodePoint;
    var t := FourText(h) + (Ascii("\\u") + FourText(l));
    TwoLetters('\\', 'u');
    PairReads(h, l, rest);
    Escaped(t, rest);
    Both(Ascii("\\u"), FourText(h), Ascii("\\u") + FourText(l));
    assert t + rest == FourText(h) + ([BACKSLASH, 117] + (FourText(l) + rest));
  }

  lemma {:induction false} CharsRead(cs: seq<Char>, rest: bytes)
    requires AreChars(cs)
    ensures ParseBody(CharsText(cs, Ascii("\"") + rest)) == Good(CharsValue(cs), rest)
  {
    hide ParseChar, CharText, CodePoint, WriteChar, IsChar;
    Marks();
    var end := Ascii("\"") + rest;
    if |cs| == 0 {
      Behind([QUOTE], rest);
    } else {
      var t := CharsText(cs[1..], end);
      CharReads(cs[0], t);
      CharsRead(cs[1..], rest);
      Behind(CharText(cs[0]), t);
      ParseBodyStep(CharText(cs[0]) + t, WriteChar(CodePoint(cs[0])), t);
    }
  }

  lemma StringReads(cs: seq<Char>, rest: bytes)
    requires AreChars(cs)
    ensures ParseString(StringText(cs, rest)) == Good(CharsValue(cs), rest)
    ensures Peek(StringText(cs, rest), 0) == QUOTE
  {
    hide ParseBody, CharsText, CharsValue;
    Marks();
    CharsRead(cs, rest);
    Behind([QUOTE], CharsText(cs, Ascii("\"") + rest));
  }

  // ---------- numbers are read ----------

  lemma {:induction false} DigitsSkipped(ds: bytes, rest: bytes)
    requires !IsDigit(Peek(rest, 0)) && forall i :: 0 <= i < |ds| ==> IsDigit(ds[i])
    ensures SkipDigits(ds + rest) == rest
  {
    if |ds| == 0 {
      assert ds + rest == rest;
    } else {
      DigitsSkipped(ds[1..], rest);
      assert (ds + rest)[1..] == ds[1..] + rest;
    }
  }

  lemma DigitsRead(ds: bytes, rest: bytes)
    requires AreDigits(ds) && !IsDigit(Peek(rest, 0))
    ensures Digits(ds + rest) == Tail(rest)
  {
    DigitsSkipped(ds, rest);
    Behind(ds, rest);
  }

  // Behind a number, or behind one of its parts.
  predicate Ends(rest: bytes) {
    var c := Peek(rest, 0);
    !IsDigit(c) && c != 46 && c != 69 && c != 101
  }

  lemma PowerReads(p: Power, rest: bytes)
    requires Ends(rest)
    requires p.Power? ==> p.letter in "eE" && p.sign in {"", "+", "-"} && AreDigits(p.digits)
    ensures Exponent(PowerText(p) + rest) == Tail(rest)
    ensures !IsDigit(Peek(PowerText(p) + rest, 0)) && Peek(PowerText(p) + rest, 0) != 46
  {
    hide Digits, AreDigits;
    if p.NoPower? {
      Behind([], rest);
    } else {
      Marks();
      OneLetter(p.letter);
      var t := p.digits + rest;
      DigitsRead(p.digits, rest);
      DigitsStart(p.digits, rest);
      if p.sign == "" {
        assert PowerText(p) + rest == [p.letter as int] + t;
        Behind([p.letter as int], t);
      } else {
        var s := [p.letter as int] + (Ascii(p.sign) + t);
        assert PowerText(p) + rest == s;
        assert s[1..] == Ascii(p.sign) + t && s[2..] == t;
      }
    }
  }

  lemma DigitsStart(ds: bytes, rest: bytes)
    requires AreDigits(ds)
    ensures IsDigit(Peek(ds + rest, 0)) && Peek(ds + rest, 0) == ds[0]
  {
    Behind(ds, rest);
  }

  lemma FractionReads(f: bytes, rest: bytes)
    requires |f| > 0 ==> AreDigits(f)
    requires !IsDigit(Peek(rest, 0)) && Peek(rest, 0) != 46
    ensures Fraction(FractionText(f) + rest) == Tail(rest)
    ensures !IsDigit(Peek(FractionText(f) + rest, 0))
  {
    hide Digits, AreDigits;
    Marks();
    if |f| == 0 {
      Behind([], rest);
    } else {
      DigitsRead(f, rest);
      Behind([46], f + rest);
      Both([46], f, rest);
    }
  }

  lemma WholeReads(w: bytes, rest: bytes)
    requires AreDigits(w) && (w[0] == 48 ==> |w| == 1) && !IsDigit(Peek(rest, 0))
    ensures Whole(w + rest) == Tail(rest)
    ensures Peek(w + rest, 0) != 45
  {
    DigitsStart(w, rest);
    DigitsRead(w, rest);
    Behind(w, rest);
    hide Digits;
  }

  lemma SignReads(minus: bool, rest: bytes)
    requires Peek(rest, 0) != 45
    ensures Sign(Ascii(if minus then "-" else "") + rest) == rest
  {
    Marks();
    Behind(if minus then [45] else [], rest);
  }

  lemma NumeralReads(n: Numeral, rest: bytes)
    requires IsNumeral(n) && Ends(rest)
    ensures ParseNumber(NumeralText(n) + rest) == Good(NumeralText(n), rest)
  {
    hide Sign, Whole, Fraction, Exponent, PowerText, FractionText, IsDigit, AreDigits;
    var p := PowerText(n.power) + rest;
    var f := FractionText(n.fraction) + p;
    var w := n.whole + f;
    PowerReads(n.power, rest);
    FractionReads(n.fraction, p);
    WholeReads(n.whole, f);
    SignReads(n.minus, w);
    assert NumeralText(n) + rest == Ascii(if n.minus then "-" else "") + w;
    Behind(NumeralText(n), rest);
  }

  lemma NumeralStarts(n: Numeral, rest: bytes)
    requires IsNumeral(n)
    ensures var c := Peek(NumeralText(n) + rest, 0); IsDigit(c) || c == 45
  {
    hide FractionText, PowerText;
    Marks();
    assert NumeralText(n) + rest
        == Ascii(if n.minus then "-" else "") + (n.whole + (FractionText(n.fraction) + PowerText(n.power) + rest));
    DigitsStart(n.whole, FractionText(n.fraction) + PowerText(n.power) + rest);
  }

  // ---------- values are read ----------

  lemma {:induction false} BlankSkipped(b: bytes, rest: bytes)
    requires IsBlank(b)
    ensures SkipSpace(b + rest) == SkipSpace(rest)
  {
    if |b| == 0 {
      assert b + rest == rest;
    } else {
      BlankSkipped(b[1..], rest);
      assert (b + rest)[1..] == b[1..] + rest;
    }
  }

  // White space up to a mark.
  lemma BlankThen(b: bytes, c: byte, rest: bytes)
    requires IsBlank(b) && !IsSpace(c)
    ensures SkipSpace(b + ([c] + rest)) == [c] + rest && ([c] + rest)[1..] == rest
    ensures c in {COMMA, COLON, CLOSE_ARRAY, CLOSE_OBJECT} ==> Ends(b + ([c] + rest))
  {
    hide SkipSpace;
    BlankSkipped(b, [c] + rest);
    RT.NoSpaceToSkip([c] + rest);
    Behind(b, [c] + rest);
  }

  lemma WrittenStarts(d: Doc, rest: bytes)
    requires IsDoc(d)
    ensures var c := Peek(Written(d, rest), 0); !IsSpace(c) && c != CLOSE_ARRAY
  {
    hide CharsText, ElementsText, EntriesText, NumeralText, IsNumeral, AreChars, AreElements, AreEntries, IsBlank;
    Marks();
    Literals();
    if d.TNumber? { NumeralStarts(d.n, rest); }
  }

  // What stands behind the first element, and behind the first member.
  function AfterElement(es: seq<Element>, rest: bytes): bytes
    requires |es| > 0 && AreElements(es)
  {
    es[0].after + if |es| == 1 then Ascii("]") + rest else Ascii(",") + ElementsText(es[1..], rest)
  }

  function AfterEntry(ms: seq<Entry>, rest: bytes): bytes
    requires |ms| > 0 && AreEntries(ms)
  {
    ms[0].after + if |ms| == 1 then Ascii("}") + rest else Ascii(",") + EntriesText(ms[1..], rest)
  }

  function EntryBody(ms: seq<Entry>, rest: bytes): bytes
    requires |ms| > 0 && AreEntries(ms)
  {
    StringText(ms[0].key, ms[0].between + (Ascii(":") + (ms[0].behind + Written(ms[0].doc, AfterEntry(ms, rest)))))
  }

  lemma ElementsStart(es: seq<Element>, rest: bytes)
    requires |es| > 0 && AreElements(es)
    ensures SkipSpace(ElementsText(es, rest)) == Written(es[0].doc, AfterElement(es, rest))
    ensures var c := Peek(SkipSpace(ElementsText(es, rest)), 0); c != CLOSE_ARRAY
  {
    hide Written, SkipSpace, IsDoc, IsBlank, IsSpace;
    var t := Written(es[0].doc, AfterElement(es, rest));
    BlankSkipped(es[0].before, t);
    WrittenStarts(es[0].doc, AfterElement(es, rest));
    RT.NoSpaceToSkip(t);
  }

  lemma EntriesStart(ms: seq<Entry>, rest: bytes)
    requires |ms| > 0 && AreEntries(ms)
    ensures SkipSpace(EntriesText(ms, rest)) == EntryBody(ms, rest)
    ensures Peek(EntryBody(ms, rest), 0) == QUOTE
  {
    hide Written, SkipSpace, IsDoc, IsBlank, AreChars, StringText;
    var t := EntryBody(ms, rest);
    BlankSkipped(ms[0].before, t);
    StringReads(ms[0].key, ms[0].between + (Ascii(":") + (ms[0].behind + Written(ms[0].doc, AfterEntry(ms, rest)))));
    RT.QuoteIsNoSpace();
    RT.NoSpaceToSkip(t);
  }

  lemma EmptyReads(inner: bytes, rest: bytes)
    requires IsBlank(inner)
    ensures ParseValue(Ascii("[") + (inner + (Ascii("]") + rest))) == Good(Array([]), rest)
    ensures ParseValue(Ascii("{") + (inner + (Ascii("}") + rest))) == Good(Object([]), rest)
  {
    hide ParseElements, ParseMembers, SkipSpace, IsBlank;
    Marks();
    BlankThen(inner, CLOSE_ARRAY, rest);
    BlankThen(inner, CLOSE_OBJECT, rest);
    Behind([OPEN_ARRAY], inner + ([CLOSE_ARRAY] + rest));
    Behind([OPEN_OBJECT], inner + ([CLOSE_OBJECT] + rest));
  }

  lemma ArrayReads(t: bytes, es: seq<Json>, rest: bytes)
    requires Peek(SkipSpace(t), 0) != CLOSE_ARRAY && ParseElements(SkipSpace(t)) == Good(es, rest)
    ensures ParseValue(Ascii("[") + t) == Good(Array(es), rest)
  {
    hide ParseElements, SkipSpace;
    Marks();
    Behind([OPEN_ARRAY], t);
  }

  lemma ObjectReads(t: bytes, ms: seq<Member>, rest: bytes)
    requires Peek(SkipSpace(t), 0) != CLOSE_OBJECT && ParseMembers(SkipSpace(t)) == Good(ms, rest)
    ensures ParseValue(Ascii("{") + t) == Good(Object(ms), rest)
  {
    hide ParseMembers, SkipSpace;
    Marks();
    Behind([OPEN_OBJECT], t);
  }

  lemma LiteralReads(rest: bytes)
    ensures ParseValue(Ascii("null") + rest) == Good(Null, rest)
    ensures ParseValue(Ascii("true") + rest) == Good(Bool(true), rest)
    ensures ParseValue(Ascii("false") + rest) == Good(Bool(false), rest)
  {
    hide ParseLiteral;
    Literals();
    RT.LiteralParses(NULL_TEXT, rest, Null);
    RT.LiteralParses(TRUE_TEXT, rest, Bool(true));
    RT.LiteralParses(FALSE_TEXT, rest, Bool(false));
  }

  lemma NumberReads(n: Numeral, rest: bytes)
    requires IsNumeral(n) && Ends(rest)
    ensures ParseValue(NumeralText(n) + rest) == Good(Number(NumeralText(n)), rest)
  {
    hide ParseNumber, NumeralText, IsNumeral, Ends;
    NumeralReads(n, rest);
    NumeralStarts(n, rest);
  }

  lemma StrReads(cs: seq<Char>, rest: bytes)
    requires AreChars(cs)
    ensures ParseValue(StringText(cs, rest)) == Good(Str(CharsValue(cs)), rest)
  {
    hide ParseString, StringText, CharsValue;
    StringReads(cs, rest);
  }

  // The reader takes every document as its value, whatever follows that cannot belong to a number.
  lemma {:induction false} ReadsDoc(d: Doc, rest: bytes)
    requires IsDoc(d) && Ends(rest)
    ensures ParseValue(Written(d, rest)) == Good(Meaning(d), rest)
    decreases d, 0
  {
    hide ParseValue, NumeralText, IsNumeral, StringText, CharsValue, AreChars, ElementsText, EntriesText, IsBlank, Ends;
    hide AreElements, AreEntries, SkipSpace;
    match d
    case TNumber(n) => NumberReads(n, rest);
    case TString(cs) => StrReads(cs, rest);
    case TArray(inner, es) =>
      if |es| == 0 {
        EmptyReads(inner, rest);
        NoMeanings(es, []);
      } else {
        ElementsStart(es, rest);
        ReadsElements(es, rest);
        ArrayReads(ElementsText(es, rest), Meanings(es), rest);
      }
    case TObject(inner, ms) =>
      if |ms| == 0 {
        EmptyReads(inner, rest);
        NoMeanings([], ms);
      } else {
        EntriesStart(ms, rest);
        ReadsEntries(ms, rest);
        ObjectReads(EntriesText(ms, rest), EntryMeanings(ms), rest);
      }
    case _ => LiteralReads(rest);
  }

  lemma NoMeanings(es: seq<Element>, ms: seq<Entry>)
    ensures |es| == 0 ==> Meanings(es) == []
    ensures |ms| == 0 ==> EntryMeanings(ms) == []
  {
  }

  lemma LastElement(text: bytes, v: Json, t: bytes, rest: bytes)
    requires ParseValue(text) == Good(v, t) && SkipSpace(t) == [CLOSE_ARRAY] + rest
    ensures ParseElements(text) == Good([v], rest)
  {
    hide ParseValue, SkipSpace;
    Behind([CLOSE_ARRAY], rest);
  }

  lemma MoreElements(text: bytes, v: Json, t: bytes, u: bytes, vs: seq<Json>, rest: bytes)
    requires ParseValue(text) == Good(v, t) && SkipSpace(t) == [COMMA] + u
    requires ParseElements(SkipSpace(u)) == Good(vs, rest)
    ensures ParseElements(text) == Good([v] + vs, rest)
  {
    hide ParseValue, SkipSpace;
    Behind([COMMA], u);
  }

  lemma {:induction false} ReadsElements(es: seq<Element>, rest: bytes)
    requires |es| > 0 && AreElements(es)
    ensures ParseElements(SkipSpace(ElementsText(es, rest))) == Good(Meanings(es), rest)
    decreases es, 1
  {
    hide ParseValue, ParseElements, Written, ElementsText, Meaning, SkipSpace, IsDoc, IsBlank, IsSpace, Ends;
    Marks();
    RT.QuoteIsNoSpace();
    var t := AfterElement(es, rest);
    ElementsStart(es, rest);
    if |es| == 1 {
      BlankThen(es[0].after, CLOSE_ARRAY, rest);
      ReadsDoc(es[0].doc, t);
      LastElement(Written(es[0].doc, t), Meaning(es[0].doc), t, rest);
      NoMeanings(es[1..], []);
      assert Meanings(es) == [Meaning(es[0].doc)];
    } else {
      var u := ElementsText(es[1..], rest);
      CommaIsNoSpace();
      BlankThen(es[0].after, COMMA, u);
      ReadsDoc(es[0].doc, t);
      ReadsElements(es[1..], rest);
      MoreElements(Written(es[0].doc, t), Meaning(es[0].doc), t, u, Meanings(es[1..]), rest);
    }
  }

  lemma CommaIsNoSpace()
    ensures !IsSpace(COMMA) && !IsSpace(COLON)
  {
  }

  lemma MemberReads(text: bytes, key: bytes, after: bytes, u: bytes, v: Json, t: bytes)
    requires ParseString(text) == Good(key, after) && SkipSpace(after) == [COLON] + u
    requires ParseValue(SkipSpace(u)) == Good(v, t)
    ensures ParseMember(text) == Good(Member(key, v), t)
  {
    hide ParseString, ParseValue, SkipSpace;
    Behind([COLON], u);
  }

  lemma EntryReads(m: Entry, t: bytes)
    requires AreChars(m.key) && IsBlank(m.between) && IsBlank(m.behind) && IsDoc(m.doc)
    requires ParseValue(Written(m.doc, t)) == Good(Meaning(m.doc), t)
    ensures var text := StringText(m.key, m.between + (Ascii(":") + (m.behind + Written(m.doc, t))));
            ParseMember(text) == Good(Member(CharsValue(m.key), Meaning(m.doc)), t)
  {
    hide ParseValue, ParseString, ParseMember, StringText, CharsValue, Written, Meaning, SkipSpace, IsDoc, IsBlank, AreChars, IsSpace;
    Marks();
    CommaIsNoSpace();
    var u := m.behind + Written(m.doc, t);
    var after := m.between + ([COLON] + u);
    StringReads(m.key, after);
    BlankThen(m.between, COLON, u);
    BlankSkipped(m.behind, Written(m.doc, t));
    WrittenStarts(m.doc, t);
    RT.NoSpaceToSkip(Written(m.doc, t));
    MemberReads(StringText(m.key, after), CharsValue(m.key), after, u, Meaning(m.doc), t);
  }

  lemma LastMember(text: bytes, m: Member, t: bytes, rest: bytes)
    requires ParseMember(text) == Good(m, t) && SkipSpace(t) == [CLOSE_OBJECT] + rest
    ensures ParseMembers(text) == Good([m], rest)
  {
    hide ParseMember, SkipSpace;
    Behind([CLOSE_OBJECT], rest);
  }

  lemma MoreMembers(text: bytes, m: Member, t: bytes, u: bytes, ms: seq<Member>, rest: bytes)
    requires ParseMember(text) == Good(m, t) && SkipSpace(t) == [COMMA] + u
    requires ParseMembers(SkipSpace(u)) == Good(ms, rest)
    ensures ParseMembers(text) == Good([m] + ms, rest)
  {
    hide ParseMember, SkipSpace;
    Behind([COMMA], u);
  }

  lemma {:induction false} ReadsEntries(ms: seq<Entry>, rest: bytes)
    requires |ms| > 0 && AreEntries(ms)
    ensures ParseMembers(SkipSpace(EntriesText(ms, rest))) == Good(EntryMeanings(ms), rest)
    decreases ms, 1
  {
    hide ParseValue, ParseMember, ParseMembers, Written, EntriesText, StringText, Meaning, CharsValue, SkipSpace;
    hide IsDoc, IsBlank, IsSpace, Ends, AreChars;
    Marks();
    RT.QuoteIsNoSpace();
    var m, t := ms[0], AfterEntry(ms, rest);
    var value := Member(CharsValue(m.key), Meaning(m.doc));
    EntriesStart(ms, rest);
    if |ms| == 1 {
      BlankThen(m.after, CLOSE_OBJECT, rest);
      ReadsDoc(m.doc, t);
      EntryReads(m, t);
      LastMember(EntryBody(ms, rest), value, t, rest);
      NoMeanings([], ms[1..]);
      assert EntryMeanings(ms) == [value];
    } else {
      var u := EntriesText(ms[1..], rest);
      CommaIsNoSpace();
      BlankThen(m.after, COMMA, u);
      ReadsDoc(m.doc, t);
      EntryReads(m, t);
      ReadsEntries(ms[1..], rest);
      MoreMembers(EntryBody(ms, rest), value, t, u, EntryMeanings(ms[1..]), rest);
    }
  }
}
