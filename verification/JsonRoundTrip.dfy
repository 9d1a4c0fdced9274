/**
 json_decode undoes json_stringify exactly on the values without U+001F.
 */
module JsonRoundTrip {
  import opened Bytes
  import opened Utf8
  import opened JsonString
  import opened Json

  // What may follow a value.
  predicate Delimited(rest: bytes) {
    var c := Peek(rest, 0);
    c == 0 || c == COMMA || c == CLOSE_ARRAY || c == CLOSE_OBJECT || IsSpace(c)
  }

  ghost predicate Spaces(space: bytes) {
    forall i :: 0 <= i < |space| ==> IsSpace(space[i])
  }

  // ---------- numbers ----------

  function Extend(t: Tail, rest: bytes): Tail {
    match t case NoTail => NoTail case Tail(u) => Tail(u + rest)
  }

  lemma {:induction false} DigitsExtend(s: bytes, rest: bytes)
    requires Delimited(rest)
    ensures SkipDigits(s + rest) == SkipDigits(s) + rest
  {
    if |s| == 0 {
      assert s + rest == rest;
    } else if IsDigit(s[0]) {
      DigitsExtend(s[1..], rest);
      assert (s + rest)[1..] == s[1..] + rest;
    }
  }

  lemma PeekExtends(s: bytes, rest: bytes)
    requires Delimited(rest)
    ensures |s| > 0 ==> Peek(s + rest, 0) == Peek(s, 0) && (s + rest)[1..] == s[1..] + rest
    ensures |s| == 0 ==> s + rest == rest
    ensures |s| > 1 ==> (s + rest)[2..] == s[2..] + rest
  {
  }

  lemma SomeDigitsExtend(s: bytes, rest: bytes)
    requires Delimited(rest)
    ensures Digits(s + rest) == Extend(Digits(s), rest)
  {
    PeekExtends(s, rest);
    DigitsExtend(s, rest);
  }

  lemma WholeExtends(s: bytes, rest: bytes)
    requires Delimited(rest)
    ensures Whole(s + rest) == Extend(Whole(s), rest)
  {
    PeekExtends(s, rest);
    SomeDigitsExtend(s, rest);
    hide Digits;
  }

  lemma FractionExtends(s: bytes, rest: bytes)
    requires Delimited(rest)
    ensures Fraction(s + rest) == Extend(Fraction(s), rest)
  {
    PeekExtends(s, rest);
    if |s| > 0 { SomeDigitsExtend(s[1..], rest); }
    hide Digits;
  }

  lemma ExponentExtends(s: bytes, rest: bytes)
    requires Delimited(rest)
    ensures Exponent(s + rest) == Extend(Exponent(s), rest)
  {
    hide Digits;
    PeekExtends(s, rest);
    if |s| > 0 {
      PeekExtends(s[1..], rest);
      SomeDigitsExtend(s[1..], rest);
      if |s| > 1 {
        SomeDigitsExtend(s[2..], rest);
      }
    }
  }

  lemma SignExtends(s: bytes, rest: bytes)
    requires Delimited(rest)
    ensures Sign(s + rest) == Sign(s) + rest
  {
    PeekExtends(s, rest);
  }

  lemma NumberExtends(s: bytes, rest: bytes)
    requires Delimited(rest)
    ensures AfterNumber(s + rest) == Extend(AfterNumber(s), rest)
  {
    hide Sign, Whole, Fraction, Exponent, Delimited;
    SignExtends(s, rest);
    WholeExtends(Sign(s), rest);
    if Whole(Sign(s)).Tail? {
      var u := Whole(Sign(s)).rest;
      FractionExtends(u, rest);
      if Fraction(u).Tail? {
        ExponentExtends(Fraction(u).rest, rest);
      }
    }
  }

  lemma ParseUndoesToken(token: bytes, rest: bytes)
    requires IsNumber(token) && Delimited(rest)
    ensures ParseNumber(token + rest) == Good(token, rest)
    ensures |token| > 0 && (IsDigit(token[0]) || token[0] == 45)
  {
    NumberExtends(token, rest);
    NumberStarts(token);
    hide AfterNumber, Delimited;
    assert [] + rest == rest;
    assert (token + rest)[..|token|] == token;
  }

  lemma NumberStarts(s: bytes)
    requires AfterNumber(s).Tail?
    ensures |s| > 0 && (IsDigit(s[0]) || s[0] == 45)
  {
    hide Fraction, Exponent;
  }

  // ---------- literals and separators ----------

  lemma LiteralParses(literal: bytes, rest: bytes, v: Json)
    ensures ParseLiteral(literal + rest, literal, v) == Good(v, rest)
  {
    assert (literal + rest)[|literal|..] == rest;
  }

  lemma {:induction false} SkipIndent(space: bytes, level: nat, rest: bytes)
    requires Spaces(space)
    ensures SkipSpace(Indent(space, level) + rest) == SkipSpace(rest)
  {
    hide SkipSpace;
    if level == 0 {
      assert [] + rest == rest;
    } else {
      SkipIndent(space, level - 1, rest);
      SkipSpaces(space, Indent(space, level - 1) + rest);
      assert Indent(space, level) + rest == space + (Indent(space, level - 1) + rest);
    }
  }

  lemma {:induction false} SkipSpaces(space: bytes, rest: bytes)
    requires Spaces(space)
    ensures SkipSpace(space + rest) == SkipSpace(rest)
  {
    if |space| == 0 {
      assert space + rest == rest;
    } else {
      SkipSpaces(space[1..], rest);
      assert (space + rest)[1..] == space[1..] + rest;
    }
  }

  lemma NoSpaceToSkip(s: bytes)
    requires !IsSpace(Peek(s, 0))
    ensures SkipSpace(s) == s
  {
  }

  lemma SkipNewline(s: bytes)
    ensures SkipSpace([NEWLINE] + s) == SkipSpace(s)
  {
    assert ([NEWLINE] + s)[1..] == s;
  }

  // The separator in front of the closing bracket, and the one in front of another item.
  lemma LastSeparator(close: byte, space: bytes, level: nat, rest: bytes)
    requires Spaces(space) && !IsSpace(close)
    ensures Delimited(Separator(true, close, space, level) + rest)
    ensures SkipSpace(Separator(true, close, space, level) + rest) == [close] + rest
  {
    hide SkipSpace, Indent, Spaces;
    var tail := Indent(space, level) + ([close] + rest);
    assert Separator(true, close, space, level) + rest == [NEWLINE] + tail;
    SkipNewline(tail);
    SkipIndent(space, level, [close] + rest);
    NoSpaceToSkip([close] + rest);
  }

  lemma InnerSeparator(close: byte, space: bytes, level: nat, rest: bytes)
    requires Spaces(space) && !IsSpace(Peek(rest, 0))
    ensures var t := Separator(false, close, space, level) + rest;
            Delimited(t) && SkipSpace(t) == t && Peek(t, 0) == COMMA && SkipSpace(t[1..]) == rest
  {
    hide SkipSpace, Indent, Spaces;
    var tail := Indent(space, level + 1) + rest;
    var t := Separator(false, close, space, level) + rest;
    assert t == [COMMA] + ([NEWLINE] + tail);
    assert t[1..] == [NEWLINE] + tail;
    SkipNewline(tail);
    SkipIndent(space, level + 1, rest);
    NoSpaceToSkip(rest);
    NoSpaceToSkip(t);
  }

  lemma EmitStarts(v: Json, space: bytes, level: nat)
    requires Texts(v)
    ensures |Emit(v, space, level)| > 0 && !IsSpace(Emit(v, space, level)[0])
    ensures Emit(v, space, level)[0] != CLOSE_ARRAY
  {
    match v
    case Number(token) =>
      if IsNumber(token) { NumberStarts(token); }
    case _ =>
  }

  lemma MembersStart(ms: seq<Member>, space: bytes, level: nat)
    requires |ms| > 0 && forall m :: m in ms ==> Text(m.key) && Texts(m.value)
    ensures |EmitMembers(ms, space, level)| > 0 && EmitMembers(ms, space, level)[0] == QUOTE
  {
  }

  lemma ElementsStart(es: seq<Json>, space: bytes, level: nat)
    requires |es| > 0 && forall e :: e in es ==> Texts(e)
    ensures |EmitElements(es, space, level)| > 0 && !IsSpace(EmitElements(es, space, level)[0])
    ensures EmitElements(es, space, level)[0] != CLOSE_ARRAY
  {
    EmitStarts(es[0], space, level + 1);
    hide Emit, IsSpace;
  }

  // ---------- values ----------

  // What reading back a value, its elements or its members has to give.
  function Back(v: Json, rest: bytes): Lex<Json> {
    if Clean(v) then Good(Normal(v), rest) else Bad
  }

  function BackAll(es: seq<Json>, rest: bytes): Lex<seq<Json>> {
    if AllClean(es) then Good(NormalAll(es), rest) else Bad
  }

  function BackMembers(ms: seq<Member>, rest: bytes): Lex<seq<Member>> {
    if MembersClean(ms) then Good(NormalMembers(ms), rest) else Bad
  }

  lemma ParseScalar(v: Json, space: bytes, level: nat, rest: bytes)
    requires Texts(v) && !v.Array? && !v.Object? && Delimited(rest)
    ensures ParseValue(Emit(v, space, level) + rest) == Back(v, rest)
  {
    hide ParseNumber, ParseLiteral, ParseString, EmitString, Delimited;
    match v
    case Null => LiteralParses(NULL_TEXT, rest, Null);
    case Bool(b) => LiteralParses(if b then TRUE_TEXT else FALSE_TEXT, rest, v);
    case Str(s) =>
      ParseUndoesEmit(s, rest);
      StringStarts(s, rest);
    case Number(token) =>
      if IsNumber(token) {
        ParseUndoesToken(token, rest);
      } else {
        LiteralParses(NULL_TEXT, rest, Null);
      }
  }

  lemma StringStarts(s: bytes, rest: bytes)
    requires Valid(s)
    ensures (EmitString(s) + rest)[0] == QUOTE
  {
  }

  // The first line of a container.
  lemma OpensBlock(open: byte, space: bytes, level: nat, items: bytes)
    requires Spaces(space) && |items| > 0 && !IsSpace(items[0])
    ensures var s := [open, NEWLINE] + (Indent(space, level) + items);
            SkipSpace(s[1..]) == items
  {
    var s := [open, NEWLINE] + (Indent(space, level) + items);
    assert s[1..][1..] == Indent(space, level) + items;
    SkipIndent(space, level, items);
    NoSpaceToSkip(items);
  }

  lemma ParseBlockArray(items: bytes, space: bytes, level: nat)
    requires Spaces(space) && |items| > 0 && !IsSpace(items[0]) && items[0] != CLOSE_ARRAY
    ensures ParseValue([OPEN_ARRAY, NEWLINE] + (Indent(space, level) + items)) ==
            match ParseElements(items) case Bad => Bad case Good(es, rest) => Good(Array(es), rest)
  {
    hide ParseElements, Indent, SkipSpace;
    OpensBlock(OPEN_ARRAY, space, level, items);
  }

  lemma ParseBlockObject(items: bytes, space: bytes, level: nat)
    requires Spaces(space) && |items| > 0 && items[0] == QUOTE
    ensures ParseValue([OPEN_OBJECT, NEWLINE] + (Indent(space, level) + items)) ==
            match ParseMembers(items) case Bad => Bad case Good(ms, rest) => Good(Object(ms), rest)
  {
    hide ParseMembers, Indent, SkipSpace;
    OpensBlock(OPEN_OBJECT, space, level, items);
  }

  lemma ParseEmpty(rest: bytes)
    ensures ParseValue([OPEN_ARRAY, CLOSE_ARRAY] + rest) == Good(Array([]), rest)
    ensures ParseValue([OPEN_OBJECT, CLOSE_OBJECT] + rest) == Good(Object([]), rest)
  {
    var a, o := [OPEN_ARRAY, CLOSE_ARRAY] + rest, [OPEN_OBJECT, CLOSE_OBJECT] + rest;
    assert a[1..][1..] == rest && o[1..][1..] == rest;
    NoSpaceToSkip(a[1..]);
    NoSpaceToSkip(o[1..]);
    hide ParseElements, ParseMembers, SkipSpace;
  }

  lemma {:induction false} ParseUndoesEmitValue(v: Json, space: bytes, level: nat, rest: bytes)
    requires Texts(v) && Spaces(space) && Delimited(rest)
    ensures ParseValue(Emit(v, space, level) + rest) == Back(v, rest)
    decreases v, 0
  {
    hide ParseValue, EmitElements, EmitMembers, Spaces, Delimited, IsSpace, IsNumber, Indent;
    match v
    case Array(es) =>
      if |es| == 0 {
        ParseEmpty(rest);
      } else {
        var items := EmitElements(es, space, level) + rest;
        ElementsStart(es, space, level);
        ParseUndoesEmitElements(es, space, level, rest);
        ParseBlockArray(items, space, level + 1);
        Reassociate(OPEN_ARRAY, Indent(space, level + 1), EmitElements(es, space, level), rest);
      }
    case Object(ms) =>
      if |ms| == 0 {
        ParseEmpty(rest);
      } else {
        var items := EmitMembers(ms, space, level) + rest;
        MembersStart(ms, space, level);
        QuoteIsNoSpace();
        ParseUndoesEmitMembers(ms, space, level, rest);
        ParseBlockObject(items, space, level + 1);
        Reassociate(OPEN_OBJECT, Indent(space, level + 1), EmitMembers(ms, space, level), rest);
      }
    case _ => ParseScalar(v, space, level, rest);
  }

  lemma QuoteIsNoSpace()
    ensures !IsSpace(QUOTE) && !IsSpace(CLOSE_ARRAY) && !IsSpace(CLOSE_OBJECT)
  {
  }

  lemma Reassociate(open: byte, indent: bytes, items: bytes, rest: bytes)
    ensures [open, NEWLINE] + (indent + items) + rest == [open, NEWLINE] + (indent + (items + rest))
  {
  }

  // One element and its separator.
  lemma ParseLastElement(text: bytes, t: bytes, e: Json, rest: bytes)
    requires ParseValue(text) == Back(e, t) && SkipSpace(t) == [CLOSE_ARRAY] + rest
    ensures ParseElements(text) == BackAll([e], rest)
  {
    hide ParseValue, SkipSpace, Clean, Normal;
    assert ([CLOSE_ARRAY] + rest)[1..] == rest;
    SingleElement(e);
  }

  lemma SingleElement(e: Json)
    ensures AllClean([e]) <==> Clean(e)
    ensures NormalAll([e]) == [Normal(e)]
  {
    hide Clean, Normal;
    var rest := [e][1..];
    assert rest == [];
    assert AllClean(rest) && NormalAll(rest) == [];
  }

  lemma ParseInnerElement(text: bytes, t: bytes, items: bytes, es: seq<Json>, rest: bytes)
    requires |es| > 0
    requires ParseValue(text) == Back(es[0], t)
    requires SkipSpace(t) == t && Peek(t, 0) == COMMA && SkipSpace(t[1..]) == items
    requires ParseElements(items) == BackAll(es[1..], rest)
    ensures ParseElements(text) == BackAll(es, rest)
  {
    hide ParseValue, SkipSpace, Clean, Normal;
  }

  lemma {:induction false} ParseUndoesEmitElements(es: seq<Json>, space: bytes, level: nat, rest: bytes)
    requires |es| > 0 && (forall e :: e in es ==> Texts(e)) && Spaces(space)
    ensures ParseElements(EmitElements(es, space, level) + rest) == BackAll(es, rest)
    decreases es, 1
  {
    hide ParseValue, ParseElements, Emit, EmitElements, Separator, Spaces, Delimited, IsSpace, BackAll, Back, Texts;
    QuoteIsNoSpace();
    var text := EmitElements(es, space, level) + rest;
    ElementsUnfold(es, space, level, rest);
    if |es| == 1 {
      var t := Separator(true, CLOSE_ARRAY, space, level) + rest;
      LastSeparator(CLOSE_ARRAY, space, level, rest);
      ParseUndoesEmitValue(es[0], space, level + 1, t);
      ParseLastElement(text, t, es[0], rest);
      assert es == [es[0]];
    } else {
      var items := EmitElements(es[1..], space, level) + rest;
      var t := Separator(false, CLOSE_ARRAY, space, level) + items;
      ElementsStart(es[1..], space, level);
      InnerSeparator(CLOSE_ARRAY, space, level, items);
      ParseUndoesEmitValue(es[0], space, level + 1, t);
      ParseUndoesEmitElements(es[1..], space, level, rest);
      ParseInnerElement(text, t, items, es, rest);
    }
  }

  lemma ElementsUnfold(es: seq<Json>, space: bytes, level: nat, rest: bytes)
    requires |es| > 0 && forall e :: e in es ==> Texts(e)
    ensures es[0] in es && Texts(es[0])
    ensures var t := Separator(|es| == 1, CLOSE_ARRAY, space, level)
                     + if |es| == 1 then rest else EmitElements(es[1..], space, level) + rest;
            EmitElements(es, space, level) + rest == Emit(es[0], space, level + 1) + t
  {
    hide Emit, Separator, Texts;
    assert es[0] in es;
  }

  // One member, its key in front.
  lemma ParseUndoesEmitMember(m: Member, value: bytes, t: bytes)
    requires Text(m.key) && ParseValue(value + t) == Back(m.value, t) && |value| > 0 && !IsSpace(value[0])
    ensures ParseMember(EmitString(m.key) + [COLON, 32] + value + t) ==
            if 0x1F !in m.key && Clean(m.value) then Good(Member(m.key, Normal(m.value)), t) else Bad
  {
    hide ParseValue, ParseString, EmitString, Clean, Normal, Valid;
    var after := [COLON, 32] + (value + t);
    ParseUndoesEmit(m.key, after);
    NoSpaceToSkip(after);
    NoSpaceToSkip(value + t);
    assert after[1..][1..] == value + t;
    assert EmitString(m.key) + [COLON, 32] + value + t == EmitString(m.key) + after;
  }

  lemma ParseLastMember(text: bytes, t: bytes, m: Member, rest: bytes)
    requires ParseMember(text) == if 0x1F !in m.key && Clean(m.value) then Good(Member(m.key, Normal(m.value)), t) else Bad
    requires SkipSpace(t) == [CLOSE_OBJECT] + rest
    ensures ParseMembers(text) == BackMembers([m], rest)
  {
    hide ParseMember, SkipSpace, Clean, Normal;
    assert ([CLOSE_OBJECT] + rest)[1..] == rest;
    SingleMember(m);
  }

  lemma SingleMember(m: Member)
    ensures MembersClean([m]) <==> 0x1F !in m.key && Clean(m.value)
    ensures NormalMembers([m]) == [Member(m.key, Normal(m.value))]
  {
    hide Clean, Normal;
    var rest := [m][1..];
    assert rest == [];
    assert MembersClean(rest) && NormalMembers(rest) == [];
  }

  lemma ParseInnerMember(text: bytes, t: bytes, items: bytes, ms: seq<Member>, rest: bytes)
    requires |ms| > 0
    requires var m := ms[0];
             ParseMember(text) == if 0x1F !in m.key && Clean(m.value) then Good(Member(m.key, Normal(m.value)), t) else Bad
    requires SkipSpace(t) == t && Peek(t, 0) == COMMA && SkipSpace(t[1..]) == items
    requires ParseMembers(items) == BackMembers(ms[1..], rest)
    ensures ParseMembers(text) == BackMembers(ms, rest)
  {
    hide ParseMember, SkipSpace, Clean, Normal;
  }

  lemma {:induction false} ParseUndoesEmitMembers(ms: seq<Member>, space: bytes, level: nat, rest: bytes)
    requires |ms| > 0 && (forall m :: m in ms ==> Text(m.key) && Texts(m.value)) && Spaces(space)
    ensures ParseMembers(EmitMembers(ms, space, level) + rest) == BackMembers(ms, rest)
    decreases ms, 1
  {
    hide ParseValue, ParseMember, ParseMembers, Emit, EmitMembers, EmitString, Separator, Spaces, Delimited, IsSpace, BackMembers, Back, Texts;
    QuoteIsNoSpace();
    var m := ms[0];
    assert m in ms && Text(m.key);
    var value, text := Emit(m.value, space, level + 1), EmitMembers(ms, space, level) + rest;
    EmitStarts(m.value, space, level + 1);
    MembersUnfold(ms, space, level, rest);
    if |ms| == 1 {
      var t := Separator(true, CLOSE_OBJECT, space, level) + rest;
      LastSeparator(CLOSE_OBJECT, space, level, rest);
      ParseUndoesEmitValue(m.value, space, level + 1, t);
      ParseUndoesEmitMember(m, value, t);
      ParseLastMember(text, t, m, rest);
      assert ms == [m];
    } else {
      var items := EmitMembers(ms[1..], space, level) + rest;
      var t := Separator(false, CLOSE_OBJECT, space, level) + items;
      MembersStart(ms[1..], space, level);
      InnerSeparator(CLOSE_OBJECT, space, level, items);
      ParseUndoesEmitValue(m.value, space, level + 1, t);
      ParseUndoesEmitMember(m, value, t);
      ParseUndoesEmitMembers(ms[1..], space, level, rest);
      ParseInnerMember(text, t, items, ms, rest);
    }
  }

  lemma MembersUnfold(ms: seq<Member>, space: bytes, level: nat, rest: bytes)
    requires |ms| > 0 && forall m :: m in ms ==> Text(m.key) && Texts(m.value)
    ensures ms[0] in ms && Text(ms[0].key)
    ensures var t := Separator(|ms| == 1, CLOSE_OBJECT, space, level)
                     + if |ms| == 1 then rest else EmitMembers(ms[1..], space, level) + rest;
            EmitMembers(ms, space, level) + rest == EmitString(ms[0].key) + [COLON, 32] + Emit(ms[0].value, space, level + 1) + t
  {
    hide Emit, EmitString, Separator;
    assert ms[0] in ms && Text(ms[0].key);
  }

  // json_decode(json_stringify(v, space)), for an indentation of white space: the value comes
  // back, order and duplicate keys included, unless a string or key holds U+001F.
  lemma DecodeUndoesStringify(v: Json, space: bytes)
    requires Texts(v) && Spaces(space)
    ensures DecodeJson(Emit(v, space, 0)) == if Clean(v) then Decoded(Normal(v)) else NotJson
  {
    hide ParseValue, Emit, Clean, Normal, Texts;
    var text := Emit(v, space, 0);
    EmitStarts(v, space, 0);
    NoSpaceToSkip(text);
    ParseUndoesEmitValue(v, space, 0, []);
    assert text + [] == text;
  }

  lemma RoundTripIff(v: Json, space: bytes)
    requires Texts(v) && Spaces(space) && NumbersAreNumbers(v)
    ensures DecodeJson(Emit(v, space, 0)) == Decoded(v) <==> Clean(v)
  {
    hide DecodeJson, Emit, Clean, Normal;
    DecodeUndoesStringify(v, space);
    NormalIsIdentity(v);
  }
}
