/**
 JSON strings: what emit_string writes, what parse_string reads, and when the one
 undoes the other.
 */
module JsonString {
  import opened Bytes
  import opened Utf8

  datatype Lex<+T> = Bad | Good(value: T, rest: bytes)

  const QUOTE: byte := 34
  const BACKSLASH: byte := 92

  // ---------- \uXXXX ----------

  function HexDigit(v: nat): byte
    requires v < 16
  {
    if v < 10 then 48 + v else 55 + v
  }

  // write_hex16
  function Hex16(v: nat): (s: bytes)
    requires v <= 0xFFFF
    ensures |s| == 4
  {
    [HexDigit(v / 4096 % 16), HexDigit(v / 256 % 16), HexDigit(v / 16 % 16), HexDigit(v % 16)]
  }

  datatype Digit = NoDigit | Digit(v: nat)

  function HexValue(c: byte): (d: Digit)
    ensures d.Digit? ==> d.v < 16
  {
    if 48 <= c <= 57 then Digit(c - 48)
    else if 65 <= c <= 70 then Digit(c - 55)
    else if 97 <= c <= 102 then Digit(c - 87)
    else NoDigit
  }

  // The rest of a hexadecimal number of which k digits are to come.
  function ParseHex(s: bytes, k: nat, acc: nat): (r: Lex<nat>)
    ensures r.Good? ==> |r.rest| + k == |s|
    decreases k
  {
    if k == 0 then Good(acc, s)
    else match HexValue(Peek(s, 0))
      case NoDigit => Bad
      case Digit(v) => ParseHex(s[1..], k - 1, 16 * acc + v)
  }

  // parse_hex16
  function ParseHex16(s: bytes): (r: Lex<nat>)
    ensures r.Good? ==> |r.rest| + 4 == |s|
  {
    ParseHex(s, 4, 0)
  }

  lemma HexBounds(s: bytes, k: nat, acc: nat, bound: nat)
    requires k <= 4 && acc < bound
    ensures var r := ParseHex(s, k, acc);
            r.Good? ==> r.value < bound * (if k == 0 then 1 else if k == 1 then 16 else if k == 2 then 256
                                           else if k == 3 then 4096 else 65536)
    decreases k
  {
    if k > 0 && HexValue(Peek(s, 0)).Digit? {
      HexBounds(s[1..], k - 1, 16 * acc + HexValue(Peek(s, 0)).v, 16 * bound);
    }
  }

  lemma Hex16Bounds(s: bytes)
    ensures ParseHex16(s).Good? ==> ParseHex16(s).value <= 0xFFFF
  {
    HexBounds(s, 4, 0, 1);
  }

  lemma ParseHexStep(v: nat, rest: bytes, k: nat, acc: nat)
    requires v < 16 && k > 0
    ensures ParseHex([HexDigit(v)] + rest, k, acc) == ParseHex(rest, k - 1, 16 * acc + v)
  {
    assert ([HexDigit(v)] + rest)[1..] == rest;
  }

  lemma HexDigits(v: nat)
    requires v <= 0xFFFF
    ensures v / 4096 % 16 * 4096 + v / 256 % 16 * 256 + v / 16 % 16 * 16 + v % 16 == v
  {
    var a := v / 16;
    var b := a / 16;
    assert v == 16 * a + v % 16 && a == 16 * b + a % 16 && b == 16 * (b / 16) + b % 16;
    assert v / 256 == b && v / 4096 == b / 16;
  }

  lemma ParseUndoesHex16(v: nat, rest: bytes)
    requires v <= 0xFFFF
    ensures ParseHex16(Hex16(v) + rest) == Good(v, rest)
  {
    hide HexDigit, ParseHex;
    var d0, d1, d2, d3 := v / 4096 % 16, v / 256 % 16, v / 16 % 16, v % 16;
    assert Hex16(v) + rest == [HexDigit(d0)] + ([HexDigit(d1)] + ([HexDigit(d2)] + ([HexDigit(d3)] + rest)));
    ParseHexStep(d0, [HexDigit(d1)] + ([HexDigit(d2)] + ([HexDigit(d3)] + rest)), 4, 0);
    ParseHexStep(d1, [HexDigit(d2)] + ([HexDigit(d3)] + rest), 3, d0);
    ParseHexStep(d2, [HexDigit(d3)] + rest, 2, 16 * d0 + d1);
    ParseHexStep(d3, rest, 1, 16 * (16 * d0 + d1) + d2);
    HexDigits(v);
    NoDigitsLeft(v, rest);
  }

  // An escape by number, in letters.
  function UnitLetters(v: nat): string
    requires v <= 0xFFFF
  {
    var hex := "0123456789ABCDEF";
    ['\\', 'u', hex[v / 4096], hex[v / 256 % 16], hex[v / 16 % 16], hex[v % 16]]
  }

  lemma HexLetter(v: nat)
    requires v < 16
    ensures HexDigit(v) == "0123456789ABCDEF"[v] as int
  {
  }

  lemma Hex16Spelled(v: nat)
    requires v <= 0xFFFF
    ensures var hex, s := "0123456789ABCDEF", Hex16(v);
            && s[0] == hex[v / 4096] as int && s[1] == hex[v / 256 % 16] as int
            && s[2] == hex[v / 16 % 16] as int && s[3] == hex[v % 16] as int
  {
    hide HexDigit;
    assert v / 4096 % 16 == v / 4096;
    HexLetter(v / 4096);
    HexLetter(v / 256 % 16);
    HexLetter(v / 16 % 16);
    HexLetter(v % 16);
  }

  lemma UnitSpelled(v: nat)
    requires v <= 0xFFFF
    ensures [92, 117] + Hex16(v) == Ascii(UnitLetters(v))
  {
    hide Hex16;
    Hex16Spelled(v);
  }

  lemma NoDigitsLeft(v: nat, rest: bytes)
    ensures ParseHex(rest, 0, v) == Good(v, rest)
  {
  }

  // ---------- reading ----------

  // \uXXXX, or two of them for a surrogate pair; s starts behind the u.
  function ParseUnicode(s: bytes): (r: Lex<bytes>)
    ensures r.Good? ==> |r.rest| < |s| && 1 <= |r.value| <= 4
  {
    Hex16Bounds(s);
    match ParseHex16(s)
    case Bad => Bad
    case Good(uc, t) =>
      if 0xD800 <= uc <= 0xDFFF then
        if Peek(t, 0) != BACKSLASH || Peek(t, 1) != 117 then Bad
        else match ParseHex16(t[2..])
          case Bad => Bad
          case Good(lc, rest) =>
            match FromSurrogatePair(uc, lc)
            case NoPair => Bad
            case Pair(u) => Good(WriteChar(u), rest)
      else if uc == 0 then Bad
      else Good(WriteChar(uc), t)
  }

  // What may follow a backslash.
  function ParseEscape(s: bytes): (r: Lex<bytes>)
    ensures r.Good? ==> |r.rest| < |s| && 1 <= |r.value| <= 4
  {
    var c := Peek(s, 0);
    if c == 34 || c == 92 || c == 47 then Good([c], s[1..])
    else if c == 98 then Good([8], s[1..])
    else if c == 102 then Good([12], s[1..])
    else if c == 110 then Good([10], s[1..])
    else if c == 114 then Good([13], s[1..])
    else if c == 116 then Good([9], s[1..])
    else if c == 117 then ParseUnicode(s[1..])
    else Bad
  }

  // One turn of the loop of parse_string.
  function ParseChar(s: bytes): (r: Lex<bytes>)
    ensures r.Good? ==> |r.rest| < |s| && 1 <= |r.value| <= 4
  {
    var c := Peek(s, 0);
    if c == BACKSLASH then ParseEscape(s[1..])
    else if c <= 0x1F then Bad
    else
      var len := ValidateChar(s);
      if len == 0 then Bad else Good(s[..len], s[len..])
  }

  // The loop, up to the closing quotation mark.
  function ParseBody(s: bytes): (r: Lex<bytes>)
    ensures r.Good? ==> |r.rest| < |s|
    decreases |s|
  {
    if Peek(s, 0) == QUOTE then Good([], s[1..])
    else match ParseChar(s)
      case Bad => Bad
      case Good(c, t) =>
        match ParseBody(t)
        case Bad => Bad
        case Good(more, rest) => Good(c + more, rest)
  }

  function ParseString(s: bytes): (r: Lex<bytes>)
    ensures r.Good? ==> |r.rest| < |s|
  {
    if Peek(s, 0) != QUOTE then Bad else ParseBody(s[1..])
  }

  // ---------- writing ----------

  // One turn of the loop of emit_string.
  function EscapeChar(u: nat): (s: bytes)
    requires Scalar(u)
    ensures 1 <= |s| <= 6
  {
    if u == 34 || u == 92 then [BACKSLASH, u]
    else if u == 8 then [BACKSLASH, 98]
    else if u == 12 then [BACKSLASH, 102]
    else if u == 10 then [BACKSLASH, 110]
    else if u == 13 then [BACKSLASH, 114]
    else if u == 9 then [BACKSLASH, 116]
    else if u < 0x1F then [BACKSLASH, 117] + Hex16(u)
    else WriteChar(u)
  }

  function EmitBody(s: bytes): bytes
    requires Valid(s)
    decreases |s|
  {
    if |s| == 0 then []
    else
      ValidIsWritten(s);
      EscapeChar(ReadChar(s)) + EmitBody(s[ValidateChar(s)..])
  }

  function EmitString(s: bytes): bytes
    requires Valid(s)
  {
    [QUOTE] + EmitBody(s) + [QUOTE]
  }

  // ---------- the round trip ----------

  lemma ParseEscaped(u: nat, rest: bytes)
    requires Scalar(u) && 0 < u < 0x1F && u !in {8, 9, 10, 12, 13}
    ensures ParseChar([BACKSLASH, 117] + Hex16(u) + rest) == Good(WriteChar(u), rest)
  {
    ParseUnit(u, rest);
    ParseU(Hex16(u) + rest);
    assert [BACKSLASH, 117] + Hex16(u) + rest == [BACKSLASH, 117] + (Hex16(u) + rest);
  }

  // Any character of the basic plane but NUL, escaped.
  lemma ParseUnit(u: nat, rest: bytes)
    requires Scalar(u) && 0 < u <= 0xFFFF
    ensures ParseUnicode(Hex16(u) + rest) == Good(WriteChar(u), rest)
  {
    hide ParseHex16, Hex16, WriteChar;
    ParseUndoesHex16(u, rest);
  }

  lemma ParseU(t: bytes)
    ensures ParseChar([BACKSLASH, 117] + t) == ParseUnicode(t)
  {
    hide ParseUnicode;
    var s := [BACKSLASH, 117] + t;
    assert s[1..][1..] == t;
  }

  lemma ParseShort(c: byte, rest: bytes)
    ensures ParseChar([BACKSLASH, c] + rest) == ParseEscape([c] + rest)
  {
    assert ([BACKSLASH, c] + rest)[1..] == [c] + rest;
  }

  lemma ParseTwo(c: byte, v: byte, rest: bytes)
    requires (c == v && c in {34, 92}) || (c, v) in {(98, 8), (102, 12), (110, 10), (114, 13), (116, 9)}
    ensures ParseChar([BACKSLASH, c] + rest) == Good([v], rest)
  {
    ParseShort(c, rest);
    assert ([c] + rest)[1..] == rest;
  }

  lemma ParsePlain(u: nat, rest: bytes)
    requires Scalar(u) && 0x1F <= u != 34 && u != 92
    ensures ParseChar(WriteChar(u) + rest) == if u == 0x1F then Bad else Good(WriteChar(u), rest)
  {
    hide ValidateChar, ReadChar;
    WrittenIsValid(u, rest);
    FirstOctet(u, rest);
    var s := WriteChar(u) + rest;
    assert s[..|WriteChar(u)|] == WriteChar(u) && s[|WriteChar(u)|..] == rest;
  }

  lemma FirstOctet(u: nat, rest: bytes)
    requires Scalar(u)
    ensures var c := (WriteChar(u) + rest)[0];
            if u < 0x80 then c == u else c >= 0x80
  {
  }

  // U+001F is written as it is, but not read.
  lemma ParseUndoesEscape(u: nat, rest: bytes)
    requires Scalar(u) && u > 0
    ensures ParseChar(EscapeChar(u) + rest) == if u == 0x1F then Bad else Good(WriteChar(u), rest)
    ensures (EscapeChar(u) + rest)[0] != QUOTE
  {
    hide ParseChar, Hex16;
    if u == 34 || u == 92 { ParseTwo(u, u, rest); }
    else if u == 8 { ParseTwo(98, 8, rest); }
    else if u == 12 { ParseTwo(102, 12, rest); }
    else if u == 10 { ParseTwo(110, 10, rest); }
    else if u == 13 { ParseTwo(114, 13, rest); }
    else if u == 9 { ParseTwo(116, 9, rest); }
    else if u < 0x1F { ParseEscaped(u, rest); }
    else {
      ParsePlain(u, rest);
      FirstOctet(u, rest);
    }
  }

  lemma ParseBodyStep(text: bytes, c: bytes, t: bytes)
    requires Peek(text, 0) != QUOTE && ParseChar(text) == Good(c, t)
    ensures ParseBody(text) == match ParseBody(t) case Bad => Bad case Good(more, rest) => Good(c + more, rest)
  {
    hide ParseChar;
  }

  // A character of a string and the octets it is written with.
  lemma CharOctets(s: bytes, c: byte)
    requires |s| > 0 && ValidateChar(s) > 0 && c < 0x80
    ensures Scalar(ReadChar(s)) && WriteChar(ReadChar(s)) == s[..ValidateChar(s)]
    ensures c in s[..ValidateChar(s)] <==> ReadChar(s) == c
  {
    ValidIsWritten(s);
    hide ValidateChar, ReadChar;
    OctetsOf(ReadChar(s), c);
  }

  lemma OctetsOf(u: nat, c: byte)
    requires Scalar(u) && c < 0x80
    ensures c in WriteChar(u) <==> u == c
  {
  }

  lemma InTail(s: bytes, n: nat, c: byte)
    requires n <= |s|
    ensures c in s <==> c in s[..n] || c in s[n..]
  {
    assert s == s[..n] + s[n..];
  }

  // The first character of a string, and what is behind it.
  lemma EmitStep(s: bytes) returns (u: nat, t: bytes)
    requires Valid(s) && |s| > 0 && 0 !in s
    ensures Scalar(u) && u > 0 && Valid(t) && 0 !in t && |t| < |s|
    ensures s == WriteChar(u) + t && EmitBody(s) == EscapeChar(u) + EmitBody(t)
    ensures 0x1F in s <==> u == 0x1F || 0x1F in t
  {
    hide EscapeChar, WriteChar;
    CharOctets(s, 0);
    CharOctets(s, 0x1F);
    hide ReadChar, ValidateChar;
    var n := ValidateChar(s);
    u, t := ReadChar(s), s[n..];
    InTail(s, n, 0);
    InTail(s, n, 0x1F);
    assert s == s[..n] + t;
  }

  lemma {:induction false} ParseUndoesEmitBody(s: bytes, rest: bytes)
    requires Valid(s) && 0 !in s
    ensures ParseBody(EmitBody(s) + ([QUOTE] + rest)) == if 0x1F in s then Bad else Good(s, rest)
    decreases |s|
  {
    hide ParseChar, EscapeChar, ReadChar, ValidateChar, WriteChar, Valid;
    var end := [QUOTE] + rest;
    if |s| == 0 {
      assert EmitBody(s) + end == end;
      assert end[1..] == rest;
    } else {
      hide EmitBody;
      var u, more := EmitStep(s);
      var t := EmitBody(more) + end;
      ParseUndoesEmitBody(more, rest);
      ParseUndoesEscape(u, t);
      assert EmitBody(s) + end == EscapeChar(u) + t;
      if u != 0x1F { ParseBodyStep(EscapeChar(u) + t, WriteChar(u), t); }
    }
  }

  // parse_string undoes emit_string on every string without U+001F, and rejects the others.
  lemma ParseUndoesEmit(s: bytes, rest: bytes)
    requires Valid(s) && 0 !in s
    ensures ParseString(EmitString(s) + rest) == if 0x1F in s then Bad else Good(s, rest)
  {
    hide ParseBody, EmitBody;
    ParseUndoesEmitBody(s, rest);
    var text := EmitString(s) + rest;
    assert text[0] == QUOTE && text[1..] == EmitBody(s) + ([QUOTE] + rest);
  }

  // ---------- what can be read at all ----------

  lemma UnicodeIsChar(s: bytes) returns (u: nat)
    requires ParseUnicode(s).Good?
    ensures Scalar(u) && u > 0 && ParseUnicode(s).value == WriteChar(u)
  {
    hide ParseHex16, WriteChar;
    Hex16Bounds(s);
    u := ParseHex16(s).value;
    if 0xD800 <= u <= 0xDFFF {
      u := FromSurrogatePair(u, ParseHex16(ParseHex16(s).rest[2..]).value).u;
    }
  }

  lemma CharIsChar(s: bytes) returns (u: nat)
    requires ParseChar(s).Good?
    ensures Scalar(u) && u > 0 && ParseChar(s).value == WriteChar(u)
  {
    hide ParseUnicode, ValidateChar, ReadChar;
    if Peek(s, 0) == BACKSLASH {
      if Peek(s[1..], 0) == 117 {
        u := UnicodeIsChar(s[1..][1..]);
      } else {
        u := ParseChar(s).value[0];
      }
    } else {
      ValidIsWritten(s);
      u := ReadChar(s);
      FirstOctet(u, s[ValidateChar(s)..]);
      assert s == s[..ValidateChar(s)] + s[ValidateChar(s)..];
    }
  }

  // Whatever parse_string accepts is UTF-8 and holds no NUL.
  lemma {:induction false} ParsedIsText(s: bytes)
    requires ParseBody(s).Good?
    ensures Valid(ParseBody(s).value) && 0 !in ParseBody(s).value
    decreases |s|
  {
    hide ParseChar, ReadChar, ValidateChar, WriteChar;
    if Peek(s, 0) != QUOTE {
      var u := CharIsChar(s);
      var t := ParseChar(s).rest;
      ParsedIsText(t);
      TextExtends(u, ParseBody(t).value);
    }
  }

  lemma TextExtends(u: nat, s: bytes)
    requires Scalar(u) && Valid(s)
    ensures Valid(WriteChar(u) + s)
    ensures u > 0 && 0 !in s ==> 0 !in WriteChar(u) + s
  {
    hide ReadChar, ValidateChar, WriteChar;
    WrittenIsValid(u, s);
    OctetsOf(u, 0);
    assert (WriteChar(u) + s)[|WriteChar(u)|..] == s;
  }
}
