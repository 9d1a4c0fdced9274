/**
 The text of CBOR text strings, as utf8EscapedDump prints it: a UTF-8 decoder of its own
 and an escape for every character outside printable US-ASCII.
 */
module CborPretty {
  import opened Bytes
  import opened Utf8
  import opened JsonString

  // One character as it is printed.
  function PrettyChar(u: nat): (s: bytes)
    requires Scalar(u)
  {
    if u == 34 || u == 92 then [BACKSLASH, u]
    else if 0x20 <= u < 0x7F then [u]
    else if u == 8 then [BACKSLASH, 98]
    else if u == 12 then [BACKSLASH, 102]
    else if u == 10 then [BACKSLASH, 110]
    else if u == 13 then [BACKSLASH, 114]
    else if u == 9 then [BACKSLASH, 116]
    else if u <= 0xFFFF then [BACKSLASH, 117] + Hex16(u)
    else
      var (uc, lc) := ToSurrogatePair(u);
      [BACKSLASH, 117] + Hex16(uc) + ([BACKSLASH, 117] + Hex16(lc))
  }

  // The same in letters: printable characters as they are, five control characters by a letter,
  // all others by number, in two halves beyond the basic plane.
  lemma PrettySpelled(u: nat)
    requires Scalar(u)
    ensures PrettyChar('"' as int) == Ascii("\\\"") && PrettyChar('\\' as int) == Ascii("\\\\")
    ensures PrettyChar(8) == Ascii("\\b") && PrettyChar(9) == Ascii("\\t") && PrettyChar(10) == Ascii("\\n")
    ensures PrettyChar(12) == Ascii("\\f") && PrettyChar(13) == Ascii("\\r")
    ensures ' ' as int <= u <= '~' as int && u != '"' as int && u != '\\' as int ==> PrettyChar(u) == Ascii([u as char])
    ensures (u < 0x20 && u !in {8, 9, 10, 12, 13}) || 0x7F <= u <= 0xFFFF ==> PrettyChar(u) == Ascii(UnitLetters(u))
    ensures u > 0xFFFF ==>
              var (uc, lc) := ToSurrogatePair(u);
              uc <= 0xFFFF && lc <= 0xFFFF && PrettyChar(u) == Ascii(UnitLetters(uc)) + Ascii(UnitLetters(lc))
  {
    hide Hex16, ToSurrogatePair, UnitLetters;
    TwoLetters('\\', '"');
    TwoLetters('\\', '\\');
    TwoLetters('\\', 'b');
    TwoLetters('\\', 't');
    TwoLetters('\\', 'n');
    TwoLetters('\\', 'f');
    TwoLetters('\\', 'r');
    if u <= 0xFFFF {
      UnitSpelled(u);
      if u <= '~' as int { OneLetter(u as char); }
    } else {
      HalvesFit(u);
      var (uc, lc) := ToSurrogatePair(u);
      UnitSpelled(uc);
      UnitSpelled(lc);
    }
    hide Ascii;
  }

  datatype Dump = Dump(ok: bool, text: bytes)

  // Everything that is printed before the end or the first invalid character.
  function Dumped(s: bytes): Dump
    decreases |s|
  {
    if |s| == 0 then Dump(true, [])
    else if ValidateChar(s) == 0 then Dump(false, [])
    else
      ValidIsWritten(s);
      var more := Dumped(s[ValidateChar(s)..]);
      Dump(more.ok, PrettyChar(ReadChar(s)) + more.text)
  }

  // What the decoder checks of a character of several octets: the tails first, the value at the end.
  predicate Tails(s: bytes, k: nat) {
    |s| > k && forall i :: 1 <= i <= k ==> IsTail(s[i])
  }

  function Low(c: nat): nat {
    c % 64
  }

  function Two(c0: nat, c1: nat): nat {
    c0 * 64 + Low(c1)
  }

  function Three(c0: nat, c1: nat, c2: nat): nat {
    Two(c0, c1) * 64 + Low(c2)
  }

  function Four(c0: nat, c1: nat, c2: nat, c3: nat): nat {
    Three(c0, c1, c2) * 64 + Low(c3)
  }

  // The check of the value: overlong, a surrogate or out of range.
  predicate InRange(u: nat, least: nat) {
    least <= u && Scalar(u)
  }

  lemma TwoAgrees(s: bytes)
    requires |s| > 0 && 0xC2 <= s[0] <= 0xDF
    ensures ValidateChar(s) > 0 <==> Tails(s, 1) && InRange(Two(s[0] % 32, s[1]), 0x80)
    ensures ValidateChar(s) > 0 ==> ValidateChar(s) == 2 && ReadChar(s) == Two(s[0] % 32, s[1]) < 0x800
  {
    hide Two, Join, InRange;
    if Tails(s, 1) { TwoValue(s[0], s[1]); }
  }

  lemma TwoValue(c: byte, d: byte)
    requires 0xC2 <= c <= 0xDF && IsTail(d)
    ensures Join(0, 0, c % 32, d) == Two(c % 32, d) < 0x800 && InRange(Two(c % 32, d), 0x80)
  {
    TwoCounts(c, d);
    LowOfTail(d);
    TwoHead(c);
    hide Join, Low;
  }

  lemma TwoHead(c: byte)
    requires 0xC0 <= c <= 0xDF
    ensures c % 32 == c - 0xC0
  {
  }

  lemma LowOfTail(c: byte)
    requires IsTail(c)
    ensures Low(c) == c % 64 == c - 0x80
  {
  }

  lemma ThreeValue(h: nat, c1: byte, c2: byte)
    requires h < 16 && IsTail(c1) && IsTail(c2)
    ensures var u := Three(h, c1, c2);
            u == Join(0, h, c1, c2) && InRange(u, 0x800) == (u <= 0xFFFF && (h == 0 ==> c1 >= 0xA0) && (h == 13 ==> c1 <= 0x9F))
    ensures Three(h, c1, c2) <= 0xFFFF
  {
    LowOfTail(c1);
    LowOfTail(c2);
    assert h % 64 == h;
    hide Low;
    assert Three(h, c1, c2) == h * 4096 + (c1 - 0x80) * 64 + (c2 - 0x80);
    assert Join(0, h, c1, c2) == h * 4096 + (c1 - 0x80) * 64 + (c2 - 0x80);
  }

  lemma ThreeAgrees(s: bytes)
    requires |s| > 0 && 0xE0 <= s[0] <= 0xEF
    ensures ValidateChar(s) > 0 <==> Tails(s, 2) && InRange(Three(s[0] % 16, s[1], s[2]), 0x800)
    ensures ValidateChar(s) > 0 ==> ValidateChar(s) == 3 && ReadChar(s) == Three(s[0] % 16, s[1], s[2]) <= 0xFFFF
  {
    hide Three, Join, InRange;
    ThreeHead(s[0]);
    if Tails(s, 2) { ThreeValue(s[0] % 16, s[1], s[2]); }
  }

  lemma FourValue(h: nat, c1: byte, c2: byte, c3: byte)
    requires h < 5 && IsTail(c1) && IsTail(c2) && IsTail(c3)
    ensures var u := Four(h, c1, c2, c3);
            u == Join(h, c1, c2, c3) && InRange(u, 0x1_0000) == ((h == 0 ==> c1 >= 0x90) && (h == 4 ==> c1 <= 0x8F))
  {
    LowOfTail(c1);
    LowOfTail(c2);
    LowOfTail(c3);
    assert h % 64 == h;
    hide Low;
    assert Four(h, c1, c2, c3) == h * 0x4_0000 + (c1 - 0x80) * 4096 + (c2 - 0x80) * 64 + (c3 - 0x80);
    assert Join(h, c1, c2, c3) == h * 0x4_0000 + (c1 - 0x80) * 4096 + (c2 - 0x80) * 64 + (c3 - 0x80);
  }

  lemma FourAgrees(s: bytes)
    requires |s| > 0 && 0xF0 <= s[0] <= 0xF4
    ensures ValidateChar(s) > 0 <==> Tails(s, 3) && InRange(Four(s[0] % 8, s[1], s[2], s[3]), 0x1_0000)
    ensures ValidateChar(s) > 0 ==> ValidateChar(s) == 4 && ReadChar(s) == Four(s[0] % 8, s[1], s[2], s[3])
  {
    hide Four, Join, InRange;
    FourHead(s[0]);
    if Tails(s, 3) { FourValue(s[0] % 8, s[1], s[2], s[3]); }
  }

  // The decoding of a character of several octets at p, with n octets behind it.
  method DecodeChar(buffer: bytes, p: nat, n: nat) returns (ok: bool, uc: nat, charsNeeded: nat)
    requires p < |buffer| && buffer[p] >= 0x80 && n == |buffer| - p - 1
    ensures ok <==> ValidateChar(buffer[p..]) > 0
    ensures ok ==> charsNeeded == ValidateChar(buffer[p..]) && uc == ReadChar(buffer[p..])
    ensures ok ==> uc >= 0x80 && (charsNeeded > 3 <==> uc > 0xFFFF)
  {
    ghost var s := buffer[p..];
    uc := buffer[p];
    ok := false;
    charsNeeded := 0;
    var minUc := 0;
    if uc <= 0xC1 { return; }
    if uc < 0xE0 {
      charsNeeded, minUc, uc := 2, 0x80, uc % 32;
      TwoAgrees(s);
    } else if uc < 0xF0 {
      charsNeeded, minUc, uc := 3, 0x800, uc % 16;
      ThreeAgrees(s);
    } else if uc < 0xF5 {
      charsNeeded, minUc, uc := 4, 0x1_0000, uc % 8;
      FourAgrees(s);
    } else {
      return;
    }
    hide ValidateChar, ReadChar, Low;
    if n < charsNeeded - 1 { return; }
    if !IsTail(buffer[p + 1]) { return; }
    uc := uc * 64 + Low(buffer[p + 1]);
    if charsNeeded > 2 {
      if !IsTail(buffer[p + 2]) { return; }
      uc := uc * 64 + Low(buffer[p + 2]);
      if charsNeeded > 3 {
        if !IsTail(buffer[p + 3]) { return; }
        uc := uc * 64 + Low(buffer[p + 3]);
      }
    }
    RangeCheck(uc, minUc);
    if uc < minUc || (uc - 0xD800) % 0x1_0000_0000 < 2048 || uc > 0x10FFFF { return; }
    ok := true;
  }

  // The check for surrogates subtracts 32-bit numbers.
  lemma RangeCheck(u: nat, least: nat)
    ensures InRange(u, least) <==> !(u < least || (u - 0xD800) % 0x1_0000_0000 < 2048 || u > 0x10FFFF)
  {
  }

  // utf8EscapedDump, with what it prints as its result
  method Utf8EscapedDump(buffer: bytes) returns (ok: bool, out: bytes)
    ensures Dump(ok, out) == Dumped(buffer)
  {
    hide ValidateChar, ReadChar, PrettyChar;
    var p, n := 0, |buffer|;
    out := [];
    ok := false;
    while n > 0
      invariant n >= 0 && p + n == |buffer|
      invariant Dumped(buffer) == After(out, Dumped(buffer[p..]))
    {
      n := n - 1;
      var uc := buffer[p];
      ghost var s := buffer[p..];
      if uc < 0x80 {
        AsciiIsItself(s);
        DumpStep(buffer, p, out);
        var text := PrintAscii(uc);
        out := out + text;
        p := p + 1;
      } else {
        var valid, u, charsNeeded := DecodeChar(buffer, p, n);
        if !valid {
          assert out + [] == out;
          return;
        }
        n := n - (charsNeeded - 1);
        DumpStep(buffer, p, out);
        var text := PrintWide(u, charsNeeded);
        out := out + text;
        p := p + charsNeeded;
      }
    }
    ok := true;
    assert buffer[p..] == [] && out + [] == out;
  }

  lemma AsciiIsItself(s: bytes)
    requires |s| > 0 && s[0] < 0x80
    ensures ValidateChar(s) == 1 && ReadChar(s) == s[0]
  {
  }

  // What will have been printed in all, `out` having been printed before.
  function After(out: bytes, d: Dump): Dump {
    Dump(d.ok, out + d.text)
  }

  lemma AfterAppend(out: bytes, c: bytes, d: Dump)
    ensures After(out, After(c, d)) == After(out + c, d)
  {
  }

  lemma DumpStep(buffer: bytes, p: nat, out: bytes)
    requires p < |buffer| && ValidateChar(buffer[p..]) > 0
    ensures var s, n := buffer[p..], ValidateChar(buffer[p..]);
            && p + n <= |buffer| && Scalar(ReadChar(s))
            && After(out, Dumped(s)) == After(out + PrettyChar(ReadChar(s)), Dumped(buffer[p + n..]))
  {
    hide ValidateChar, ReadChar, WriteChar, PrettyChar, Dumped, After;
    var s := buffer[p..];
    var n := ValidateChar(s);
    DumpedUnfolds(s);
    AfterAppend(out, PrettyChar(ReadChar(s)), Dumped(s[n..]));
    Skip(buffer, p, n);
  }

  lemma Skip(buffer: bytes, p: nat, n: nat)
    requires p + n <= |buffer|
    ensures buffer[p..][n..] == buffer[p + n..]
  {
  }

  lemma DumpedUnfolds(s: bytes)
    requires |s| > 0 && ValidateChar(s) > 0
    ensures Scalar(ReadChar(s))
    ensures var more := Dumped(s[ValidateChar(s)..]);
            Dumped(s) == After(PrettyChar(ReadChar(s)), more)
  {
    hide ValidateChar, ReadChar, WriteChar, PrettyChar;
    ValidIsWritten(s);
  }

  method PrintAscii(uc: byte) returns (text: bytes)
    requires uc < 0x80
    ensures text == PrettyChar(uc)
  {
    if uc < 0x7F && uc >= 0x20 && uc != BACKSLASH && uc != QUOTE {
      return [uc];
    }
    var escaped := uc;
    if uc == 34 || uc == 92 {
    } else if uc == 8 {
      escaped := 98;
    } else if uc == 12 {
      escaped := 102;
    } else if uc == 10 {
      escaped := 110;
    } else if uc == 13 {
      escaped := 114;
    } else if uc == 9 {
      escaped := 116;
    } else {
      return [BACKSLASH, 117] + Hex16(uc);
    }
    text := [BACKSLASH, escaped];
  }

  method PrintWide(uc: nat, charsNeeded: nat) returns (text: bytes)
    requires Scalar(uc) && uc >= 0x80 && (charsNeeded > 3 <==> uc > 0xFFFF)
    ensures text == PrettyChar(uc)
  {
    if charsNeeded > 3 {
      HalvesAgree(uc);
      text := [BACKSLASH, 117] + Hex16(uc / 0x400 + 0xD7C0) + ([BACKSLASH, 117] + Hex16(uc % 0x400 + 0xDC00));
    } else {
      text := [BACKSLASH, 117] + Hex16(uc);
    }
  }

  // Its two halves are those of to_surrogate_pair.
  lemma HalvesAgree(uc: nat)
    requires 0x1_0000 <= uc <= 0x10FFFF
    ensures ToSurrogatePair(uc) == (uc / 0x400 + 0xD7C0, uc % 0x400 + 0xDC00)
  {
    var n := uc - 0x1_0000;
    assert n / 0x400 == uc / 0x400 - 64;
  }

  // ---------- the two decoders agree ----------

  lemma {:induction false} DumpsExactlyUtf8(s: bytes)
    ensures Dumped(s).ok <==> Valid(s)
    decreases |s|
  {
    hide ValidateChar, ReadChar, PrettyChar;
    if |s| > 0 && ValidateChar(s) > 0 {
      DumpsExactlyUtf8(s[ValidateChar(s)..]);
    }
  }

  lemma HalvesFit(u: nat)
    requires 0x1_0000 <= u <= 0x10FFFF
    ensures var (uc, lc) := ToSurrogatePair(u); 0xD800 <= uc <= 0xDFFF && lc <= 0xFFFF
  {
  }

  lemma ParseHalves(u: nat, uc: nat, lc: nat, rest: bytes)
    requires Scalar(u) && 0xD800 <= uc <= 0xDFFF && lc <= 0xFFFF && FromSurrogatePair(uc, lc) == Utf8.Pair(u)
    ensures ParseUnicode(Hex16(uc) + ([BACKSLASH, 117] + (Hex16(lc) + rest))) == Good(WriteChar(u), rest)
  {
    hide WriteChar, Hex16, ParseHex16, FromSurrogatePair;
    var low := [BACKSLASH, 117] + (Hex16(lc) + rest);
    ParseUndoesHex16(uc, low);
    ParseUndoesHex16(lc, rest);
    assert low[2..] == Hex16(lc) + rest;
  }

  lemma ParsePair(u: nat, rest: bytes)
    requires 0xFFFF < u <= 0x10FFFF
    ensures ParseChar(PrettyChar(u) + rest) == Good(WriteChar(u), rest)
  {
    hide Hex16, ParseUnicode, ParseChar, FromSurrogatePair, ToSurrogatePair, WriteChar;
    FromToSurrogatePair(u);
    HalvesFit(u);
    var (uc, lc) := ToSurrogatePair(u);
    var low := [BACKSLASH, 117] + (Hex16(lc) + rest);
    ParseHalves(u, uc, lc, rest);
    ParseU(Hex16(uc) + low);
    assert PrettyChar(u) + rest == [BACKSLASH, 117] + (Hex16(uc) + low);
  }

  lemma ParsePretty(u: nat, rest: bytes)
    requires Scalar(u) && u > 0
    ensures ParseChar(PrettyChar(u) + rest) == Good(WriteChar(u), rest)
    ensures |PrettyChar(u)| > 0 && (PrettyChar(u) + rest)[0] != QUOTE
  {
    hide ParseChar, Hex16, ParseUnicode, ToSurrogatePair;
    if u == 34 || u == 92 { ParseTwo(u, u, rest); }
    else if 0x20 <= u < 0x7F { ParsePlain(u, rest); }
    else if u == 8 { ParseTwo(98, 8, rest); }
    else if u == 12 { ParseTwo(102, 12, rest); }
    else if u == 10 { ParseTwo(110, 10, rest); }
    else if u == 13 { ParseTwo(114, 13, rest); }
    else if u == 9 { ParseTwo(116, 9, rest); }
    else if u <= 0xFFFF {
      ParseUnit(u, rest);
      ParseU(Hex16(u) + rest);
      assert PrettyChar(u) + rest == [BACKSLASH, 117] + (Hex16(u) + rest);
    } else {
      ParsePair(u, rest);
    }
  }

  // What is printed of a string, taken as the inside of a JSON string, is read back as that string.
  lemma {:induction false} ParseUndoesDump(s: bytes, rest: bytes)
    requires Valid(s) && 0 !in s
    ensures ParseBody(Dumped(s).text + ([QUOTE] + rest)) == Good(s, rest)
    decreases |s|
  {
    hide ParseChar, PrettyChar, ReadChar, ValidateChar, WriteChar;
    var end := [QUOTE] + rest;
    if |s| == 0 {
      assert Dumped(s).text + end == end;
      assert end[1..] == rest;
    } else {
      var n := ValidateChar(s);
      var u, t := ReadChar(s), Dumped(s[n..]).text + end;
      CharOctets(s, 0);
      InTail(s, n, 0);
      ParseUndoesDump(s[n..], rest);
      ParsePretty(u, t);
      assert Dumped(s).text + end == PrettyChar(u) + t;
      ParseBodyStep(PrettyChar(u) + t, WriteChar(u), t);
      assert s == s[..n] + s[n..];
    }
  }
}
