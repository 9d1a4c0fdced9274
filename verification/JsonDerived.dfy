/**
 Whatever json_decode decodes is a text the grammar of JsonText generates, and it decodes
 all of them; what the printer writes, spelled out.
 */
module JsonDerived {
  import opened Bytes
  import opened Utf8
  import opened JsonString
  import opened Json
  import RT = JsonRoundTrip
  import opened JsonText
  import opened JsonReads

  // ---------- what is read is generated ----------

  lemma {:induction false} BlankFrom(s: bytes) returns (b: bytes)
    ensures IsBlank(b) && s == b + SkipSpace(s)
  {
    if IsSpace(Peek(s, 0)) {
      var more := BlankFrom(s[1..]);
      b := [s[0]] + more;
    } else {
      b := [];
    }
  }

  lemma HexFrom(c: byte) returns (h: Hex)
    requires HexValue(c).Digit?
    ensures IsHex(h) && h.v == HexValue(c).v && HexText(h) == c
  {
    h := Hex(HexValue(c).v, c < 97);
  }

  lemma HexParses(s: bytes, k: nat, acc: nat) returns (h: Hex)
    requires k > 0 && ParseHex(s, k, acc).Good?
    ensures IsHex(h) && s == [HexText(h)] + s[1..]
    ensures ParseHex(s, k, acc) == ParseHex(s[1..], k - 1, 16 * acc + h.v)
  {
    h := HexFrom(Peek(s, 0));
  }

  lemma FourFrom(s: bytes) returns (f: Four)
    requires ParseHex16(s).Good?
    ensures IsFour(f) && s == FourText(f) + ParseHex16(s).rest && Count(f) == ParseHex16(s).value
  {
    hide HexText, ParseHex;
    var a := HexParses(s, 4, 0);
    var b := HexParses(s[1..], 3, a.v);
    var c := HexParses(s[1..][1..], 2, 16 * a.v + b.v);
    var d := HexParses(s[1..][1..][1..], 1, 16 * (16 * a.v + b.v) + c.v);
    f := Four(a, b, c, d);
    NoDigitsLeft(Count(f), s[1..][1..][1..][1..]);
  }

  lemma PairFrom(s: bytes, h: Four) returns (l: Four)
    requires ParseUnicode(s).Good? && IsFour(h) && 0xD800 <= Count(h) <= 0xDFFF
    requires ParseHex16(s) == Good(Count(h), ParseHex16(s).rest)
    ensures IsChar(Char.Pair(h, l)) && ParseUnicode(s).value == WriteChar(CodePoint(Char.Pair(h, l)))
    ensures ParseHex16(s).rest == [BACKSLASH, 117] + (FourText(l) + ParseUnicode(s).rest)
  {
    hide ParseHex16, FourText, WriteChar, FromSurrogatePair;
    var t := ParseHex16(s).rest;
    l := FourFrom(t[2..]);
    PairIsPair(Count(h), Count(l));
    PairCounts(Count(h), Count(l));
    assert t == [BACKSLASH, 117] + t[2..];
  }

  lemma PairIsPair(h: nat, l: nat)
    requires FromSurrogatePair(h, l).Pair?
    ensures 0xD800 <= h <= 0xDBFF && 0xDC00 <= l <= 0xDFFF
  {
  }

  lemma UnicodeFrom(s: bytes) returns (ch: Char)
    requires ParseUnicode(s).Good?
    ensures IsChar(ch) && [BACKSLASH, 117] + s == CharText(ch) + ParseUnicode(s).rest
    ensures ParseUnicode(s).value == WriteChar(CodePoint(ch))
  {
    hide ParseHex16, FourText, WriteChar, FromSurrogatePair;
    Marks();
    var f := FourFrom(s);
    if 0xD800 <= Count(f) <= 0xDFFF {
      var l := PairFrom(s, f);
      ch := Char.Pair(f, l);
      assert CharText(ch) + ParseUnicode(s).rest
          == [BACKSLASH, 117] + (FourText(f) + ([BACKSLASH, 117] + (FourText(l) + ParseUnicode(s).rest)));
    } else {
      ch := Unit(f);
      Both([BACKSLASH, 117], FourText(f), ParseUnicode(s).rest);
    }
  }

  lemma ShortFrom(s: bytes) returns (ch: Char)
    requires ParseEscape(s).Good? && Peek(s, 0) != 117
    ensures IsChar(ch) && [BACKSLASH] + s == CharText(ch) + ParseEscape(s).rest
    ensures ParseEscape(s).value == WriteChar(CodePoint(ch))
  {
    hide ParseUnicode, WriteChar;
    var c := s[0] as char;
    ch := Short(c);
    TwoLetters('\\', c);
    OneOctetChar(CodePoint(ch));
    assert s == [s[0]] + s[1..];
  }

  lemma RawFrom(s: bytes) returns (ch: Char)
    requires ParseChar(s).Good? && Peek(s, 0) != QUOTE && Peek(s, 0) != BACKSLASH
    ensures IsChar(ch) && s == CharText(ch) + ParseChar(s).rest
    ensures ParseChar(s).value == WriteChar(CodePoint(ch))
  {
    hide ValidateChar, ReadChar, WriteChar, ParseEscape;
    ValidIsWritten(s);
    var u, n := ReadChar(s), ValidateChar(s);
    ch := Raw(u);
    assert s == s[..n] + s[n..];
    FirstOctet(u, s[n..]);
  }

  lemma CharFrom(s: bytes) returns (ch: Char)
    requires ParseChar(s).Good? && Peek(s, 0) != QUOTE
    ensures IsChar(ch) && s == CharText(ch) + ParseChar(s).rest
    ensures ParseChar(s).value == WriteChar(CodePoint(ch))
  {
    if Peek(s, 0) != BACKSLASH {
      ch := RawFrom(s);
    } else {
      hide ParseUnicode, ValidateChar, WriteChar, CharText, IsChar;
      assert s == [BACKSLASH] + s[1..];
      if Peek(s[1..], 0) == 117 {
        ch := UnicodeFrom(s[1..][1..]);
        assert s == [BACKSLASH, 117] + s[1..][1..];
      } else {
        ch := ShortFrom(s[1..]);
      }
    }
  }

  lemma MoreChars(ch: Char, cs: seq<Char>, rest: bytes)
    requires IsChar(ch) && AreChars(cs)
    ensures AreChars([ch] + cs) && CharsText([ch] + cs, rest) == CharText(ch) + CharsText(cs, rest)
    ensures CharsValue([ch] + cs) == WriteChar(CodePoint(ch)) + CharsValue(cs)
  {
    hide CharText, IsChar, CodePoint, WriteChar;
    assert ([ch] + cs)[1..] == cs;
  }

  lemma {:induction false} CharsFrom(s: bytes) returns (cs: seq<Char>)
    requires ParseBody(s).Good?
    ensures AreChars(cs) && CharsText(cs, Ascii("\"") + ParseBody(s).rest) == s
    ensures CharsValue(cs) == ParseBody(s).value
    decreases |s|
  {
    hide ParseChar, CharText, IsChar, CodePoint, WriteChar;
    Marks();
    if Peek(s, 0) == QUOTE {
      cs := [];
      assert s == [QUOTE] + s[1..];
    } else {
      var ch := CharFrom(s);
      var more := CharsFrom(ParseChar(s).rest);
      cs := [ch] + more;
      MoreChars(ch, more, Ascii("\"") + ParseBody(s).rest);
    }
  }

  lemma StringFrom(s: bytes) returns (cs: seq<Char>)
    requires ParseString(s).Good?
    ensures AreChars(cs) && StringText(cs, ParseString(s).rest) == s && CharsValue(cs) == ParseString(s).value
  {
    hide ParseBody, CharsText, CharsValue, AreChars;
    Marks();
    cs := CharsFrom(s[1..]);
    assert s == [QUOTE] + s[1..];
  }

  // ---------- numbers ----------

  lemma {:induction false} SomeDigits(s: bytes) returns (ds: bytes)
    ensures s == ds + SkipDigits(s) && forall i :: 0 <= i < |ds| ==> IsDigit(ds[i])
  {
    if IsDigit(Peek(s, 0)) {
      var more := SomeDigits(s[1..]);
      ds := [s[0]] + more;
    } else {
      ds := [];
    }
  }

  lemma DigitsFrom(s: bytes) returns (ds: bytes)
    requires Digits(s).Tail?
    ensures AreDigits(ds) && s == ds + Digits(s).rest
  {
    ds := SomeDigits(s);
  }

  lemma SignFrom(s: bytes) returns (minus: bool)
    ensures s == Ascii(if minus then "-" else "") + Sign(s)
  {
    Marks();
    minus := Peek(s, 0) == 45;
  }

  lemma WholeFrom(s: bytes) returns (w: bytes)
    requires Whole(s).Tail?
    ensures AreDigits(w) && (w[0] == 48 ==> |w| == 1) && s == w + Whole(s).rest
  {
    hide Digits;
    if Peek(s, 0) == 48 {
      w := [48];
    } else {
      w := DigitsFrom(s);
    }
  }

  lemma FractionFrom(s: bytes) returns (f: bytes)
    requires Fraction(s).Tail?
    ensures (|f| > 0 ==> AreDigits(f)) && s == FractionText(f) + Fraction(s).rest
  {
    hide Digits;
    Marks();
    if Peek(s, 0) == 46 {
      f := DigitsFrom(s[1..]);
      assert s == [46] + s[1..];
    } else {
      f := [];
    }
  }

  lemma PowerOf(letter: char, sign: string, ds: bytes)
    requires letter as int < 256
    ensures PowerText(Power(letter, sign, ds)) == [letter as int] + (Ascii(sign) + ds)
  {
    hide Ascii;
    OneLetter(letter);
  }

  lemma NoLetters()
    ensures Ascii("") == []
  {
  }

  // The digits of an exponent, with a sign in front and without.
  lemma Signed(s: bytes) returns (p: Power)
    requires Exponent(s).Tail? && (Peek(s, 0) == 69 || Peek(s, 0) == 101) && (Peek(s[1..], 0) == 43 || Peek(s[1..], 0) == 45)
    ensures p.Power? && p.letter in "eE" && p.sign in {"+", "-"} && AreDigits(p.digits)
    ensures s == PowerText(p) + Exponent(s).rest
  {
    hide Digits, AreDigits, PowerText, Ascii;
    Marks();
    var ds := DigitsFrom(s[2..]);
    p := Power(s[0] as char, if s[1] == 43 then "+" else "-", ds);
    PowerOf(p.letter, p.sign, ds);
    assert s == [s[0]] + ([s[1]] + s[2..]);
  }

  lemma Unsigned(s: bytes) returns (p: Power)
    requires Exponent(s).Tail? && (Peek(s, 0) == 69 || Peek(s, 0) == 101) && Peek(s[1..], 0) != 43 && Peek(s[1..], 0) != 45
    ensures p.Power? && p.letter in "eE" && p.sign == "" && AreDigits(p.digits)
    ensures s == PowerText(p) + Exponent(s).rest
  {
    hide Digits, AreDigits, PowerText, Ascii;
    NoLetters();
    var ds := DigitsFrom(s[1..]);
    p := Power(s[0] as char, "", ds);
    PowerOf(p.letter, "", ds);
    assert [] + ds == ds && s == [s[0]] + s[1..];
  }

  lemma PowerFrom(s: bytes) returns (p: Power)
    requires Exponent(s).Tail?
    ensures p.Power? ==> p.letter in "eE" && p.sign in {"", "+", "-"} && AreDigits(p.digits)
    ensures s == PowerText(p) + Exponent(s).rest
  {
    hide Digits, AreDigits;
    if Peek(s, 0) != 69 && Peek(s, 0) != 101 {
      p := NoPower;
    } else if Peek(s[1..], 0) == 43 || Peek(s[1..], 0) == 45 {
      p := Signed(s);
    } else {
      p := Unsigned(s);
    }
  }

  lemma NumeralFrom(s: bytes) returns (n: Numeral)
    requires ParseNumber(s).Good?
    ensures IsNumeral(n) && NumeralText(n) + ParseNumber(s).rest == s && NumeralText(n) == ParseNumber(s).value
  {
    hide Sign, Whole, Fraction, Exponent, PowerText, FractionText, AreDigits;
    var minus := SignFrom(s);
    var w := WholeFrom(Sign(s));
    var f := FractionFrom(Whole(Sign(s)).rest);
    var p := PowerFrom(Fraction(Whole(Sign(s)).rest).rest);
    n := Numeral(minus, w, f, p);
    var rest := ParseNumber(s).rest;
    assert s == NumeralText(n) + rest;
    Behind(NumeralText(n), rest);
  }

  // ---------- values ----------

  lemma LiteralFrom(s: bytes) returns (d: Doc)
    requires ParseValue(s).Good? && Peek(s, 0) in {110, 116, 102}
    ensures IsDoc(d) && Written(d, ParseValue(s).rest) == s && Meaning(d) == ParseValue(s).value
  {
    hide ParseString, ParseArray, ParseObject, ParseNumber;
    Literals();
    var c := Peek(s, 0);
    d := if c == 110 then TNull else if c == 116 then TTrue else TFalse;
    var literal := if c == 110 then NULL_TEXT else if c == 116 then TRUE_TEXT else FALSE_TEXT;
    assert s == literal + s[|literal|..];
  }

  lemma StrFrom(s: bytes) returns (d: Doc)
    requires ParseValue(s).Good? && Peek(s, 0) == QUOTE
    ensures IsDoc(d) && Written(d, ParseValue(s).rest) == s && Meaning(d) == ParseValue(s).value
  {
    hide ParseString, StringText, CharsValue, AreChars;
    var cs := StringFrom(s);
    d := TString(cs);
  }

  lemma NumberFrom(s: bytes) returns (d: Doc)
    requires ParseValue(s).Good? && Peek(s, 0) !in {110, 116, 102, QUOTE, OPEN_ARRAY, OPEN_OBJECT}
    ensures IsDoc(d) && Written(d, ParseValue(s).rest) == s && Meaning(d) == ParseValue(s).value
  {
    hide ParseNumber, NumeralText, IsNumeral;
    var n := NumeralFrom(s);
    d := TNumber(n);
  }

  lemma MoreElementsText(e: Element, es: seq<Element>, rest: bytes)
    requires IsBlank(e.before) && IsDoc(e.doc) && IsBlank(e.after) && AreElements(es)
    ensures AreElements([e] + es) && Meanings([e] + es) == [Meaning(e.doc)] + Meanings(es)
    ensures ElementsText([e] + es, rest)
         == e.before + Written(e.doc, e.after + if |es| == 0 then Ascii("]") + rest else Ascii(",") + ElementsText(es, rest))
  {
    hide IsDoc, Written, Meaning, IsBlank;
    assert ([e] + es)[1..] == es;
  }

  lemma MoreEntriesText(m: Entry, ms: seq<Entry>, rest: bytes)
    requires IsBlank(m.before) && AreChars(m.key) && IsBlank(m.between) && IsBlank(m.behind) && IsDoc(m.doc) && IsBlank(m.after)
    requires AreEntries(ms)
    ensures AreEntries([m] + ms)
    ensures EntryMeanings([m] + ms) == [Member(CharsValue(m.key), Meaning(m.doc))] + EntryMeanings(ms)
    ensures var t := m.after + if |ms| == 0 then Ascii("}") + rest else Ascii(",") + EntriesText(ms, rest);
            EntriesText([m] + ms, rest) ==
            m.before + StringText(m.key, m.between + (Ascii(":") + (m.behind + Written(m.doc, t))))
  {
    hide IsDoc, Written, Meaning, IsBlank, AreChars, StringText, CharsValue;
    assert ([m] + ms)[1..] == ms;
  }

  // Every value read is that of a document, and the octets taken are its text.
  lemma {:induction false} DocFrom(s: bytes) returns (d: Doc)
    requires ParseValue(s).Good?
    ensures IsDoc(d) && Written(d, ParseValue(s).rest) == s && Meaning(d) == ParseValue(s).value
    decreases |s|, 1
  {
    var c := Peek(s, 0);
    if c == 110 || c == 116 || c == 102 {
      d := LiteralFrom(s);
    } else if c == QUOTE {
      d := StrFrom(s);
    } else if c == OPEN_ARRAY {
      d := ArrayFrom(s);
    } else if c == OPEN_OBJECT {
      d := ObjectFrom(s);
    } else {
      d := NumberFrom(s);
    }
  }

  lemma EmptyArray(inner: bytes, rest: bytes)
    requires IsBlank(inner)
    ensures IsDoc(TArray(inner, [])) && Meaning(TArray(inner, [])) == Array([])
    ensures Written(TArray(inner, []), rest) == Ascii("[") + (inner + (Ascii("]") + rest))
    ensures IsDoc(TObject(inner, [])) && Meaning(TObject(inner, [])) == Object([])
    ensures Written(TObject(inner, []), rest) == Ascii("{") + (inner + (Ascii("}") + rest))
  {
    hide IsBlank;
  }

  lemma FullArray(es: seq<Element>, rest: bytes)
    requires |es| > 0 && AreElements(es)
    ensures IsDoc(TArray([], es)) && Meaning(TArray([], es)) == Array(Meanings(es))
    ensures Written(TArray([], es), rest) == Ascii("[") + ElementsText(es, rest)
  {
    hide AreElements, Meanings, ElementsText;
  }

  lemma FullObject(ms: seq<Entry>, rest: bytes)
    requires |ms| > 0 && AreEntries(ms)
    ensures IsDoc(TObject([], ms)) && Meaning(TObject([], ms)) == Object(EntryMeanings(ms))
    ensures Written(TObject([], ms), rest) == Ascii("{") + EntriesText(ms, rest)
  {
    hide AreEntries, EntryMeanings, EntriesText;
  }

  lemma ArrayParses(s: bytes)
    requires ParseValue(s).Good? && Peek(s, 0) == OPEN_ARRAY
    ensures s == Ascii("[") + s[1..]
    ensures var t := SkipSpace(s[1..]);
            if Peek(t, 0) == CLOSE_ARRAY then ParseValue(s) == Good(Array([]), t[1..]) && t == Ascii("]") + t[1..]
            else ParseElements(t).Good? && ParseValue(s) == Good(Array(ParseElements(t).value), ParseElements(t).rest)
  {
    hide ParseElements, SkipSpace;
    Marks();
  }

  lemma ObjectParses(s: bytes)
    requires ParseValue(s).Good? && Peek(s, 0) == OPEN_OBJECT
    ensures s == Ascii("{") + s[1..]
    ensures var t := SkipSpace(s[1..]);
            if Peek(t, 0) == CLOSE_OBJECT then ParseValue(s) == Good(Object([]), t[1..]) && t == Ascii("}") + t[1..]
            else ParseMembers(t).Good? && ParseValue(s) == Good(Object(ParseMembers(t).value), ParseMembers(t).rest)
  {
    hide ParseMembers, SkipSpace;
    Marks();
  }

  lemma {:induction false} ArrayFrom(s: bytes) returns (d: Doc)
    requires ParseValue(s).Good? && Peek(s, 0) == OPEN_ARRAY
    ensures IsDoc(d) && Written(d, ParseValue(s).rest) == s && Meaning(d) == ParseValue(s).value
    decreases |s|, 0
  {
    hide ParseValue, ParseElements, SkipSpace, IsDoc, Written, Meaning, IsBlank, AreElements, ElementsText, Meanings;
    ArrayParses(s);
    var t := SkipSpace(s[1..]);
    var inner := BlankFrom(s[1..]);
    if Peek(t, 0) == CLOSE_ARRAY {
      d := TArray(inner, []);
      EmptyArray(inner, t[1..]);
    } else {
      var es := ElementsFrom(inner, t);
      d := TArray([], es);
      FullArray(es, ParseElements(t).rest);
    }
  }

  lemma {:induction false} ObjectFrom(s: bytes) returns (d: Doc)
    requires ParseValue(s).Good? && Peek(s, 0) == OPEN_OBJECT
    ensures IsDoc(d) && Written(d, ParseValue(s).rest) == s && Meaning(d) == ParseValue(s).value
    decreases |s|, 0
  {
    hide ParseValue, ParseMembers, SkipSpace, IsDoc, Written, Meaning, IsBlank, AreEntries, EntriesText, EntryMeanings;
    ObjectParses(s);
    var t := SkipSpace(s[1..]);
    var inner := BlankFrom(s[1..]);
    if Peek(t, 0) == CLOSE_OBJECT {
      d := TObject(inner, []);
      EmptyArray(inner, t[1..]);
    } else {
      var ms := EntriesFrom(inner, t);
      d := TObject([], ms);
      FullObject(ms, ParseMembers(t).rest);
    }
  }

  lemma ElementsParse(s: bytes)
    requires ParseElements(s).Good?
    ensures ParseValue(s).Good?
    ensures var t := SkipSpace(ParseValue(s).rest);
            if Peek(t, 0) == CLOSE_ARRAY then ParseElements(s) == Good([ParseValue(s).value], t[1..]) && t == Ascii("]") + t[1..]
            else t == Ascii(",") + t[1..] && ParseElements(SkipSpace(t[1..])).Good?
                 && ParseElements(s) == Good([ParseValue(s).value] + ParseElements(SkipSpace(t[1..])).value,
                                             ParseElements(SkipSpace(t[1..])).rest)
  {
    hide ParseValue, SkipSpace;
    Marks();
  }

  lemma {:induction false} ElementsFrom(before: bytes, s: bytes) returns (es: seq<Element>)
    requires IsBlank(before) && ParseElements(s).Good?
    ensures |es| > 0 && AreElements(es) && ElementsText(es, ParseElements(s).rest) == before + s
    ensures Meanings(es) == ParseElements(s).value
    decreases |s|, 2
  {
    hide ParseValue, ParseElements, SkipSpace, IsDoc, Written, Meaning, IsBlank, AreElements, ElementsText, Meanings;
    ElementsParse(s);
    var d := DocFrom(s);
    var after := BlankFrom(ParseValue(s).rest);
    var e := Element(before, d, after);
    var t := SkipSpace(ParseValue(s).rest);
    var rest := ParseElements(s).rest;
    if Peek(t, 0) == CLOSE_ARRAY {
      NoElements(rest);
      MoreElementsText(e, [], rest);
      es := [e] + [];
    } else {
      var b := BlankFrom(t[1..]);
      var more := ElementsFrom(b, SkipSpace(t[1..]));
      MoreElementsText(e, more, rest);
      es := [e] + more;
    }
  }

  lemma NoElements(rest: bytes)
    ensures AreElements([]) && Meanings([]) == []
    ensures AreEntries([]) && EntryMeanings([]) == []
  {
  }

  lemma MemberParses(s: bytes)
    requires ParseMember(s).Good?
    ensures ParseString(s).Good?
    ensures var t := SkipSpace(ParseString(s).rest);
            var u := SkipSpace(t[if |t| > 0 then 1 else 0..]);
            t == Ascii(":") + t[1..] && ParseValue(u).Good?
            && ParseMember(s) == Good(Member(ParseString(s).value, ParseValue(u).value), ParseValue(u).rest)
  {
    hide ParseString, ParseValue, SkipSpace;
    Marks();
  }

  lemma MembersParse(s: bytes)
    requires ParseMembers(s).Good?
    ensures ParseMember(s).Good?
    ensures var t := SkipSpace(ParseMember(s).rest);
            if Peek(t, 0) == CLOSE_OBJECT then ParseMembers(s) == Good([ParseMember(s).value], t[1..]) && t == Ascii("}") + t[1..]
            else t == Ascii(",") + t[1..] && ParseMembers(SkipSpace(t[1..])).Good?
                 && ParseMembers(s) == Good([ParseMember(s).value] + ParseMembers(SkipSpace(t[1..])).value,
                                            ParseMembers(SkipSpace(t[1..])).rest)
  {
    hide ParseMember, SkipSpace;
    Marks();
  }

  // One member, the white space around it still open.
  lemma {:induction false} EntryFrom(s: bytes) returns (m: Entry)
    requires ParseMember(s).Good?
    ensures AreChars(m.key) && IsBlank(m.between) && IsBlank(m.behind) && IsDoc(m.doc)
    ensures StringText(m.key, m.between + (Ascii(":") + (m.behind + Written(m.doc, ParseMember(s).rest)))) == s
    ensures Member(CharsValue(m.key), Meaning(m.doc)) == ParseMember(s).value
    decreases |s|, 0
  {
    hide ParseString, ParseMember, SkipSpace, IsDoc, Written, Meaning, IsBlank, AreChars, StringText, CharsValue;
    MemberParses(s);
    var key := StringFrom(s);
    var between := BlankFrom(ParseString(s).rest);
    var t := SkipSpace(ParseString(s).rest);
    var behind := BlankFrom(t[1..]);
    var d := DocFrom(SkipSpace(t[1..]));
    m := Entry([], key, between, behind, d, []);
  }

  lemma {:induction false} EntriesFrom(before: bytes, s: bytes) returns (ms: seq<Entry>)
    requires IsBlank(before) && ParseMembers(s).Good?
    ensures |ms| > 0 && AreEntries(ms) && EntriesText(ms, ParseMembers(s).rest) == before + s
    ensures EntryMeanings(ms) == ParseMembers(s).value
    decreases |s|, 2
  {
    hide ParseMember, ParseMembers, SkipSpace, IsDoc, Written, Meaning, IsBlank, AreChars, StringText, CharsValue;
    hide AreEntries, EntriesText, EntryMeanings;
    MembersParse(s);
    var m := EntryFrom(s);
    var after := BlankFrom(ParseMember(s).rest);
    var t := SkipSpace(ParseMember(s).rest);
    var rest := ParseMembers(s).rest;
    m := m.(before := before, after := after);
    if Peek(t, 0) == CLOSE_OBJECT {
      NoElements(rest);
      MoreEntriesText(m, [], rest);
      ms := [m] + [];
    } else {
      var b := BlankFrom(t[1..]);
      var more := EntriesFrom(b, SkipSpace(t[1..]));
      MoreEntriesText(m, more, rest);
      ms := [m] + more;
    }
  }

  // ---------- json_decode ----------

  // A document with white space around it, up to the end of the string or a NUL.
  ghost predicate Derives(s: bytes, d: Doc) {
    IsDoc(d) && exists lead: bytes, trail: bytes, end: bytes ::
      IsBlank(lead) && IsBlank(trail) && Peek(end, 0) == 0 && s == lead + Written(d, trail + end)
  }

  lemma DecodesEvery(s: bytes, d: Doc)
    requires Derives(s, d)
    ensures DecodeJson(s) == Decoded(Meaning(d))
  {
    hide ParseValue, SkipSpace, IsDoc, Written, Meaning;
    var lead, trail, end: bytes :|
      IsBlank(lead) && IsBlank(trail) && Peek(end, 0) == 0 && s == lead + Written(d, trail + end);
    BlankSkipped(lead, Written(d, trail + end));
    WrittenStarts(d, trail + end);
    RT.NoSpaceToSkip(Written(d, trail + end));
    EndsBehind(trail, end);
    BlankSkipped(trail, end);
    RT.NoSpaceToSkip(end);
    ReadsDoc(d, trail + end);
  }

  lemma EndsBehind(trail: bytes, end: bytes)
    requires IsBlank(trail) && Peek(end, 0) == 0
    ensures Ends(trail + end)
  {
    Behind(trail, end);
  }

  lemma DecodedDerives(s: bytes) returns (d: Doc)
    requires DecodeJson(s).Decoded?
    ensures Derives(s, d) && DecodeJson(s) == Decoded(Meaning(d))
  {
    hide ParseValue, SkipSpace, IsDoc, Written, Meaning, IsBlank;
    var lead := BlankFrom(s);
    d := DocFrom(SkipSpace(s));
    var rest := ParseValue(SkipSpace(s)).rest;
    var trail := BlankFrom(rest);
    var end := SkipSpace(rest);
    assert s == lead + Written(d, trail + end);
  }

  // json_decode decodes exactly the texts of documents, each as what it means.
  lemma DecodesExactly(s: bytes, v: Json)
    ensures DecodeJson(s) == Decoded(v) <==> exists d :: Derives(s, d) && Meaning(d) == v
  {
    hide DecodeJson, Meaning, IsDoc;
    if DecodeJson(s) == Decoded(v) {
      var d := DecodedDerives(s);
    }
    forall d | Derives(s, d)
      ensures IsDoc(d) && DecodeJson(s) == Decoded(Meaning(d))
    {
      DecodesEvery(s, d);
    }
  }

  // ---------- what is printed ----------

  // The escapes, letter by letter.
  lemma EscapesSpelled(u: nat)
    requires Scalar(u)
    ensures EscapeChar('"' as int) == Ascii("\\\"") && EscapeChar('\\' as int) == Ascii("\\\\")
    ensures EscapeChar(8) == Ascii("\\b") && EscapeChar(9) == Ascii("\\t") && EscapeChar(10) == Ascii("\\n")
    ensures EscapeChar(12) == Ascii("\\f") && EscapeChar(13) == Ascii("\\r")
    ensures u < 0x1F && u !in {8, 9, 10, 12, 13} ==> EscapeChar(u) == Ascii(UnitLetters(u))
    ensures u >= 0x1F && u != '"' as int && u != '\\' as int ==> EscapeChar(u) == WriteChar(u)
  {
    TwoLetters('\\', '"');
    TwoLetters('\\', '\\');
    TwoLetters('\\', 'b');
    TwoLetters('\\', 't');
    TwoLetters('\\', 'n');
    TwoLetters('\\', 'f');
    TwoLetters('\\', 'r');
    if u < 0x1F && u !in {8, 9, 10, 12, 13} { UnitSpelled(u); }
  }

  // A list of two in brackets, one item a line, the closing bracket on a line of its own.
  function Block(open: char, first: bytes, second: bytes, close: char, space: bytes, level: nat): bytes {
    var inner := Indent(space, level + 1);
    Ascii([open, '\n']) + (inner + (first + (Ascii(",\n") + inner) + (second + (Ascii("\n") + Indent(space, level) + Ascii([close])))))
  }

  lemma NewLines()
    ensures Ascii("\n") == [NEWLINE] && Ascii(",\n") == [COMMA, NEWLINE] && Ascii(": ") == [COLON, 32]
    ensures Ascii("[]") == [OPEN_ARRAY, CLOSE_ARRAY] && Ascii("{}") == [OPEN_OBJECT, CLOSE_OBJECT]
  {
    OneLetter('\n');
    TwoLetters(',', '\n');
    TwoLetters(':', ' ');
    TwoLetters('[', ']');
    TwoLetters('{', '}');
  }

  lemma ScalarsSpelled(space: bytes, level: nat)
    ensures Emit(Null, space, level) == Ascii("null") && Emit(Bool(true), space, level) == Ascii("true")
    ensures Emit(Bool(false), space, level) == Ascii("false")
    ensures Emit(Array([]), space, level) == Ascii("[]") && Emit(Object([]), space, level) == Ascii("{}")
  {
    Literals();
    NewLines();
  }

  lemma LastElementSpelled(e: Json, space: bytes, level: nat)
    requires Texts(e)
    ensures EmitElements([e], space, level) == Emit(e, space, level + 1) + Separator(true, CLOSE_ARRAY, space, level)
  {
    hide Texts, Separator, Emit;
  }

  lemma LastMemberSpelled(m: Member, space: bytes, level: nat)
    requires Text(m.key) && Texts(m.value)
    ensures EmitMembers([m], space, level)
         == EmitString(m.key) + [COLON, 32] + Emit(m.value, space, level + 1) + Separator(true, CLOSE_OBJECT, space, level)
  {
    hide Texts, Separator, Emit, EmitString, Valid;
  }

  lemma SeparatorSpelled(close: char, space: bytes, level: nat)
    requires close as int < 256
    ensures Separator(true, close as int, space, level) == Ascii("\n") + Indent(space, level) + Ascii([close])
    ensures Separator(false, close as int, space, level) == Ascii(",\n") + Indent(space, level + 1)
  {
    hide Indent;
    NewLines();
    OneLetter(close);
  }

  lemma ArraySpelled(e: Json, f: Json, space: bytes, level: nat)
    requires Texts(e) && Texts(f)
    ensures Emit(Array([e, f]), space, level)
         == Block('[', Emit(e, space, level + 1), Emit(f, space, level + 1), ']', space, level)
  {
    hide Texts, Indent, Ascii, Separator;
    TwoLetters('[', '\n');
    SeparatorSpelled(']', space, level);
    assert [e, f][1..] == [f];
    LastElementSpelled(f, space, level);
  }

  lemma ObjectSpelled(m: Member, o: Member, space: bytes, level: nat)
    requires Text(m.key) && Texts(m.value) && Text(o.key) && Texts(o.value)
    ensures Emit(Object([m, o]), space, level)
         == Block('{', EmitString(m.key) + Ascii(": ") + Emit(m.value, space, level + 1),
                  EmitString(o.key) + Ascii(": ") + Emit(o.value, space, level + 1), '}', space, level)
  {
    hide Texts, Indent, Valid, Ascii, Separator, EmitString;
    NewLines();
    TwoLetters('{', '\n');
    SeparatorSpelled('}', space, level);
    assert [m, o][1..] == [o];
    LastMemberSpelled(o, space, level);
  }
}
