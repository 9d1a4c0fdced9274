/**
 Byte strings written out as Base16, Base64 and Base64url, converted in place: the
 octets are read from the tail of the buffer the text grows into.
 */
module CborToText {
  import opened Bytes
  import opened CborNumber
  import opened CborCursor
  import opened CborStrings
  import opened CborParser

  // ---------- the encodings of RFC 4648 ----------

  // An alphabet of 64 characters and, behind it, the filler.
  ghost predicate Alphabet(a: bytes) {
    && |a| == 65
    && (forall i :: 0 <= i < 64 ==> a[i] != 0 && a[i] != a[64])
    && (forall i, j :: 0 <= i < j < 64 ==> a[i] != a[j])
  }

  // The character for bits 6k .. 6k+5 of a 24-bit group, k = 3 being the first.
  function Sextet(group: nat, k: nat): (v: nat)
    requires k < 4
    ensures v < 64
  {
    if k == 3 then group / 0x4_0000 % 64
    else if k == 2 then group / 0x1000 % 64
    else if k == 1 then group / 64 % 64
    else group % 64
  }

  function Group(b0: byte, b1: byte, b2: byte): (g: nat)
    ensures g < 0x100_0000
  {
    b0 * 0x1_0000 + b1 * 0x100 + b2
  }

  function Quad(a: bytes, g: nat): (s: bytes)
    requires |a| == 65
    ensures |s| == 4
  {
    [a[Sextet(g, 3)], a[Sextet(g, 2)], a[Sextet(g, 1)], a[Sextet(g, 0)]]
  }

  // Sections 4 and 5: padded with the filler, or not at all.
  function Base64(a: bytes, padded: bool, s: bytes): (r: bytes)
    requires |a| == 65
    decreases |s|
  {
    if |s| == 0 then []
    else if |s| == 1 then
      Quad(a, Group(s[0], 0, 0))[..2] + (if padded then [a[64], a[64]] else [])
    else if |s| == 2 then
      Quad(a, Group(s[0], s[1], 0))[..3] + (if padded then [a[64]] else [])
    else
      Quad(a, Group(s[0], s[1], s[2])) + Base64(a, padded, s[3..])
  }

  // Section 8, in lower case.
  function HexDigit(v: nat): (c: byte)
    requires v < 16
  {
    if v < 10 then 48 + v else 87 + v
  }

  function Base16(s: bytes): (r: bytes)
    ensures |r| == 2 * |s|
  {
    if |s| == 0 then [] else [HexDigit(s[0] / 16), HexDigit(s[0] % 16)] + Base16(s[1..])
  }

  // The text in a buffer, up to its NUL.
  function CString(b: bytes): (r: bytes)
    ensures |r| <= |b|
  {
    if |b| == 0 || b[0] == 0 then [] else [b[0]] + CString(b[1..])
  }

  // ---------- the text determines the octets ----------

  function IndexOf(a: bytes, c: byte, k: nat): (i: nat)
    requires k <= 64 <= |a|
    decreases 64 - k
  {
    if k == 64 || a[k] == c then k else IndexOf(a, c, k + 1)
  }

  lemma IndexOfChar(a: bytes, v: nat, k: nat)
    requires Alphabet(a) && k <= v < 64
    ensures IndexOf(a, a[v], k) == v
    decreases v - k
  {
    if k < v { IndexOfChar(a, v, k + 1); }
  }

  function Ungroup(g: nat): (s: bytes)
  {
    [g / 0x1_0000 % 256, g / 0x100 % 256, g % 256]
  }

  // A decoder that stops at the filler or the end.
  function Decode64(a: bytes, t: bytes): (s: bytes)
    requires |a| == 65
    decreases |t|
  {
    if |t| < 2 then []
    else
      var v0, v1 := IndexOf(a, t[0], 0), IndexOf(a, t[1], 0);
      if |t| == 2 || t[2] == a[64] then Ungroup(v0 * 0x4_0000 + v1 * 0x1000)[..1]
      else
        var v2 := IndexOf(a, t[2], 0);
        if |t| == 3 || t[3] == a[64] then Ungroup(v0 * 0x4_0000 + v1 * 0x1000 + v2 * 64)[..2]
        else Ungroup(v0 * 0x4_0000 + v1 * 0x1000 + v2 * 64 + IndexOf(a, t[3], 0)) + Decode64(a, t[4..])
  }

  // Twenty-four bits are four sextets, whatever stands above them.
  lemma SextetsOfGroup(top: nat, b0: byte, b1: byte, b2: byte)
    ensures var g := top * 0x100_0000 + Group(b0, b1, b2);
            && Sextet(g, 3) == b0 / 4 && Sextet(g, 2) == b0 % 4 * 16 + b1 / 16
            && Sextet(g, 1) == b1 % 16 * 4 + b2 / 64 && Sextet(g, 0) == b2 % 64
  {
    var g := top * 0x100_0000 + Group(b0, b1, b2);
    SplitAt(g, 0x4_0000, top * 64 + b0 / 4, b0 % 4 * 0x1_0000 + b1 * 0x100 + b2);
    SplitAt(top * 64 + b0 / 4, 64, top, b0 / 4);
    SplitAt(g, 0x1000, top * 0x1000 + b0 * 16 + b1 / 16, b1 % 16 * 0x100 + b2);
    SplitAt(top * 0x1000 + b0 * 16 + b1 / 16, 64, top * 64 + b0 / 4, b0 % 4 * 16 + b1 / 16);
    SplitAt(g, 64, top * 0x4_0000 + b0 * 0x400 + b1 * 4 + b2 / 64, b2 % 64);
    SplitAt(top * 0x4_0000 + b0 * 0x400 + b1 * 4 + b2 / 64, 64, top * 0x1000 + b0 * 16 + b1 / 16, b1 % 16 * 4 + b2 / 64);
  }

  lemma SplitAt(g: nat, m: nat, q: nat, r: nat)
    requires r < m && g == q * m + r
    ensures g / m == q && g % m == r
  {
    var d := q - g / m;
    assert d * m == g % m - r;
    Multiple(d, m);
  }

  lemma Multiple(d: int, m: nat)
    ensures d >= 1 ==> d * m >= m
    ensures d <= -1 ==> d * m + m <= 0
  {
    if d >= 1 {
      assert (d - 1) * m >= 0;
    } else if d <= -1 {
      assert (-d - 1) * m >= 0;
    }
  }

  lemma GroupSum(b0: byte, b1: byte, b2: byte)
    ensures b0 / 4 * 0x4_0000 + (b0 % 4 * 16 + b1 / 16) * 0x1000 + (b1 % 16 * 4 + b2 / 64) * 64 + b2 % 64
         == b0 * 0x1_0000 + b1 * 0x100 + b2
  {
    assert b0 == b0 / 4 * 4 + b0 % 4;
    assert b1 == b1 / 16 * 16 + b1 % 16;
    assert b2 == b2 / 64 * 64 + b2 % 64;
  }

  lemma UngroupSum(b0: byte, b1: byte, b2: byte)
    ensures Ungroup(b0 * 0x1_0000 + b1 * 0x100 + b2) == [b0, b1, b2]
  {
    var g := b0 * 0x1_0000 + b1 * 0x100 + b2;
    SplitAt(g, 0x1_0000, b0, b1 * 0x100 + b2);
    SplitAt(g, 0x100, b0 * 0x100 + b1, b2);
    SplitAt(b0 * 0x100 + b1, 0x100, b0, b1);
  }

  lemma UngroupGroup(b0: byte, b1: byte, b2: byte)
    ensures Ungroup(b0 / 4 * 0x4_0000 + (b0 % 4 * 16 + b1 / 16) * 0x1000 + (b1 % 16 * 4 + b2 / 64) * 64 + b2 % 64)
         == [b0, b1, b2]
  {
    hide Ungroup;
    GroupSum(b0, b1, b2);
    UngroupSum(b0, b1, b2);
  }

  // The four characters of a group name the three octets.
  lemma QuadDecodes(a: bytes, b0: byte, b1: byte, b2: byte)
    requires Alphabet(a)
    ensures var q := Quad(a, Group(b0, b1, b2));
            && IndexOf(a, q[0], 0) == b0 / 4 && IndexOf(a, q[1], 0) == b0 % 4 * 16 + b1 / 16
            && IndexOf(a, q[2], 0) == b1 % 16 * 4 + b2 / 64 && IndexOf(a, q[3], 0) == b2 % 64
            && q[2] != a[64] && q[3] != a[64]
  {
    hide IndexOf, Sextet;
    SextetsOfGroup(0, b0, b1, b2);
    var g := Group(b0, b1, b2);
    IndexOfChar(a, Sextet(g, 3), 0);
    IndexOfChar(a, Sextet(g, 2), 0);
    IndexOfChar(a, Sextet(g, 1), 0);
    IndexOfChar(a, Sextet(g, 0), 0);
  }

  lemma {:induction false} DecodeUndoesBase64(a: bytes, padded: bool, s: bytes)
    requires Alphabet(a)
    ensures Decode64(a, Base64(a, padded, s)) == s
    decreases |s|
  {
    hide Quad, Group, Ungroup, IndexOf;
    if |s| == 1 {
      QuadDecodes(a, s[0], 0, 0);
      UngroupGroup(s[0], 0, 0);
    } else if |s| == 2 {
      QuadDecodes(a, s[0], s[1], 0);
      UngroupGroup(s[0], s[1], 0);
    } else if |s| > 2 {
      QuadDecodes(a, s[0], s[1], s[2]);
      UngroupGroup(s[0], s[1], s[2]);
      DecodeUndoesBase64(a, padded, s[3..]);
      assert Base64(a, padded, s)[4..] == Base64(a, padded, s[3..]);
      assert s == [s[0], s[1], s[2]] + s[3..];
    }
  }

  function HexValue(c: byte): nat {
    if 48 <= c <= 57 then c - 48 else if 97 <= c <= 102 then c - 87 else 0
  }

  function Decode16(t: bytes): (s: bytes) {
    if |t| < 2 then [] else [(HexValue(t[0]) * 16 + HexValue(t[1])) % 256] + Decode16(t[2..])
  }

  lemma DigitsOf(c: byte)
    ensures HexValue(HexDigit(c / 16)) * 16 + HexValue(HexDigit(c % 16)) == c
  {
    assert HexValue(HexDigit(c / 16)) == c / 16 && HexValue(HexDigit(c % 16)) == c % 16;
  }

  lemma {:induction false} DecodeUndoesBase16(s: bytes)
    ensures Decode16(Base16(s)) == s
  {
    if |s| > 0 {
      DigitsOf(s[0]);
      hide HexDigit, HexValue;
      DecodeUndoesBase16(s[1..]);
      assert Base16(s)[2..] == Base16(s[1..]);
    }
  }

  // ---------- in place ----------

  method PutPair(buffer: array<byte>, out: nat, c0: byte, c1: byte)
    requires out + 2 <= buffer.Length
    modifies buffer
    ensures buffer[..out + 2] == old(buffer[..out]) + [c0, c1]
    ensures forall j :: out + 2 <= j < buffer.Length ==> buffer[j] == old(buffer[j])
  {
    buffer[out] := c0;
    buffer[out + 1] := c1;
  }

  lemma Base16Step(s: bytes, i: nat)
    requires i < |s|
    ensures Base16(s[i..]) == [HexDigit(s[i] / 16), HexDigit(s[i] % 16)] + Base16(s[i + 1..])
  {
    assert s[i..][1..] == s[i + 1..];
  }

  // The loop of dump_bytestring_base16: n octets at buffer[n..2n] become 2n digits.
  method Base16InPlace(buffer: array<byte>, n: nat)
    requires buffer.Length == 2 * n + 1
    modifies buffer
    ensures buffer[..2 * n] == Base16(old(buffer[n..2 * n])) && buffer[2 * n] == old(buffer[2 * n])
  {
    hide Base16, HexDigit;
    ghost var s := buffer[n..2 * n];
    var i := 0;
    while i < n
      invariant 0 <= i <= n
      invariant buffer[..2 * i] + Base16(s[i..]) == Base16(s)
      invariant forall j :: i <= j < n ==> buffer[n + j] == s[j]
      invariant buffer[2 * n] == old(buffer[2 * n])
    {
      var b := buffer[n + i];
      var c0, c1 := HexDigit(b / 16), HexDigit(b % 16);
      ghost var done, rest := buffer[..2 * i], Base16(s[i + 1..]);
      Base16Step(s, i);
      PutPair(buffer, 2 * i, c0, c1);
      assert done + [c0, c1] + rest == done + ([c0, c1] + rest);
      i := i + 1;
    }
    NothingLeft(s);
  }

  lemma NothingLeft(s: bytes)
    ensures s[|s|..] == [] && Base16(s[|s|..]) == []
  {
  }

  method PutQuad(buffer: array<byte>, out: nat, c: bytes)
    requires out + 4 <= buffer.Length && |c| == 4
    modifies buffer
    ensures buffer[..out + 4] == old(buffer[..out]) + c
    ensures forall j :: out + 4 <= j < buffer.Length ==> buffer[j] == old(buffer[j])
  {
    buffer[out] := c[0];
    buffer[out + 1] := c[1];
    buffer[out + 2] := c[2];
    buffer[out + 3] := c[3];
  }

  lemma Base64Step(a: bytes, padded: bool, s: bytes, i: nat)
    requires |a| == 65 && i + 3 <= |s|
    ensures Base64(a, padded, s[i..]) == Quad(a, Group(s[i], s[i + 1], s[i + 2])) + Base64(a, padded, s[i + 3..])
  {
    assert s[i..][3..] == s[i + 3..];
  }

  // Reading one octet too many from the front changes no character.
  lemma TopOctetIsIgnored(a: bytes, top: nat, b0: byte, b1: byte, b2: byte)
    requires |a| == 65
    ensures Quad(a, top * 0x100_0000 + Group(b0, b1, b2)) == Quad(a, Group(b0, b1, b2))
  {
    SextetsOfGroup(top, b0, b1, b2);
    SextetsOfGroup(0, b0, b1, b2);
  }

  lemma {:induction false} TextThenRest(p: bytes, q: bytes)
    requires 0 !in p
    ensures CString(p + q) == p + CString(q)
  {
    if |p| == 0 {
      assert p + q == q;
    } else {
      assert (p + q)[1..] == p[1..] + q;
      TextThenRest(p[1..], q);
    }
  }

  // The end of the text for the last one or two octets, or for none.
  function LastQuad(a: bytes, s: bytes): (r: bytes)
    requires |a| == 65 && |s| < 3
  {
    if |s| == 0 then [0]
    else
      var g := Group(s[0], if |s| == 2 then s[1] else 0, 0);
      [a[Sextet(g, 3)], a[Sextet(g, 2)], if |s| == 2 then a[Sextet(g, 1)] else a[64], a[64], 0]
  }

  // Four characters, of which the last two may be NUL, and a NUL.
  lemma FourThenNul(c0: byte, c1: byte, c2: byte, c3: byte, rest: bytes)
    requires c0 != 0 && c1 != 0
    ensures CString([c0, c1, c2, c3, 0] + rest) ==
            if c2 == 0 then [c0, c1] else if c3 == 0 then [c0, c1, c2] else [c0, c1, c2, c3]
  {
    if c2 == 0 {
      TextThenRest([c0, c1], [0, c3, 0] + rest);
      assert [c0, c1, c2, c3, 0] + rest == [c0, c1] + ([0, c3, 0] + rest);
    } else if c3 == 0 {
      TextThenRest([c0, c1, c2], [0, 0] + rest);
      assert [c0, c1, c2, c3, 0] + rest == [c0, c1, c2] + ([0, 0] + rest);
    } else {
      TextThenRest([c0, c1, c2, c3], [0] + rest);
      assert [c0, c1, c2, c3, 0] + rest == [c0, c1, c2, c3] + ([0] + rest);
    }
  }

  lemma LastQuadIsBase64(a: bytes, s: bytes, rest: bytes)
    requires Alphabet(a) && |s| < 3
    ensures CString(LastQuad(a, s) + rest) == Base64(a, a[64] != 0, s)
  {
    if |s| == 0 {
      assert ([0] + rest)[0] == 0;
    } else {
      hide CString, Sextet, Group;
      var g := Group(s[0], if |s| == 2 then s[1] else 0, 0);
      FourThenNul(a[Sextet(g, 3)], a[Sextet(g, 2)], if |s| == 2 then a[Sextet(g, 1)] else a[64], a[64], rest);
      assert Quad(a, g)[..2] == [a[Sextet(g, 3)], a[Sextet(g, 2)]];
      assert Quad(a, g)[..3] == [a[Sextet(g, 3)], a[Sextet(g, 2)], a[Sextet(g, 1)]];
    }
  }

  function Word(b0: byte, b1: byte, b2: byte, b3: byte): nat {
    b0 * 0x100_0000 + b1 * 0x1_0000 + b2 * 0x100 + b3
  }

  // The loop's reading of a group: four octets at once after the first time.
  method ReadGroup(buffer: array<byte>, at: nat, first: bool) returns (val: nat)
    requires at + 3 <= buffer.Length && (first || at > 0)
    ensures exists top: nat :: val == top * 0x100_0000 + Group(buffer[at], buffer[at + 1], buffer[at + 2])
  {
    if first {
      val := Group(buffer[at], buffer[at + 1], buffer[at + 2]);
      assert val == 0 * 0x100_0000 + Group(buffer[at], buffer[at + 1], buffer[at + 2]);
    } else {
      val := Word(buffer[at - 1], buffer[at], buffer[at + 1], buffer[at + 2]);
      assert val == buffer[at - 1] * 0x100_0000 + Group(buffer[at], buffer[at + 1], buffer[at + 2]);
    }
  }

  // The groups of three; what is left unread stays where it was.
  method GroupsInPlace(a: bytes, buffer: array<byte>, n: nat) returns (i: nat, out: nat)
    requires Alphabet(a) && buffer.Length == (n + 5) / 3 * 4 + 1
    modifies buffer
    ensures i <= n < i + 3 && i % 3 == 0 && out == i / 3 * 4
    ensures var s := old(buffer[buffer.Length - 1 - n..buffer.Length - 1]);
            buffer[..out] + Base64(a, a[64] != 0, s[i..]) == Base64(a, a[64] != 0, s)
    ensures 0 !in buffer[..out]
    ensures forall j :: buffer.Length - 1 - n + i <= j < buffer.Length ==> buffer[j] == old(buffer[j])
  {
    hide Base64, Quad, Group;
    var input := buffer.Length - 1 - n;
    ghost var s := buffer[input..buffer.Length - 1];
    ghost var whole, k := Base64(a, a[64] != 0, s), 0;
    i, out := 0, 0;
    assert buffer[..0] + Base64(a, a[64] != 0, s[0..]) == whole by { assert s[0..] == s; }
    while n - i >= 3
      invariant i == 3 * k <= n && out == 4 * k
      invariant out <= buffer.Length && buffer[..out] + Base64(a, a[64] != 0, s[i..]) == whole
      invariant 0 !in buffer[..out]
      invariant forall j :: input + i <= j < buffer.Length ==> buffer[j] == old(buffer[j])
    {
      ghost var p, quad := buffer[..out], Quad(a, Group(s[i], s[i + 1], s[i + 2]));
      RoomForQuad(n, k);
      Base64Step(a, a[64] != 0, s, i);
      NoNul(a, Group(s[i], s[i + 1], s[i + 2]));
      Regroup(p, quad, Base64(a, a[64] != 0, s[i + 3..]));
      OneGroup(a, buffer, input + i, out, i == 0, s[i], s[i + 1], s[i + 2]);
      assert buffer[..out + 4] == p + quad;
      i, out, k := i + 3, out + 4, k + 1;
    }
  }

  lemma RoomForQuad(n: nat, k: nat)
    requires 3 * k + 3 <= n
    ensures n + 4 * k + 4 <= (n + 5) / 3 * 4 + 3 * k + 3
  {
  }

  lemma Regroup(p: bytes, quad: bytes, rest: bytes)
    ensures (p + quad) + rest == p + (quad + rest)
    ensures 0 !in p && 0 !in quad ==> 0 !in p + quad
  {
  }

  method OneGroup(a: bytes, buffer: array<byte>, from: nat, out: nat, first: bool, ghost b0: byte, ghost b1: byte, ghost b2: byte)
    requires Alphabet(a) && out + 4 <= from + 3 <= buffer.Length && (!first ==> from > 0)
    requires buffer[from] == b0 && buffer[from + 1] == b1 && buffer[from + 2] == b2
    modifies buffer
    ensures buffer[..out + 4] == old(buffer[..out]) + Quad(a, Group(b0, b1, b2))
    ensures forall j :: from + 3 <= j < buffer.Length ==> buffer[j] == old(buffer[j])
  {
    hide Quad, Group;
    var val := ReadGroup(buffer, from, first);
    ghost var top: nat :| val == top * 0x100_0000 + Group(buffer[from], buffer[from + 1], buffer[from + 2]);
    TopOctetIsIgnored(a, top, buffer[from], buffer[from + 1], buffer[from + 2]);
    PutQuad(buffer, out, Quad(a, val));
  }

  lemma NoNul(a: bytes, g: nat)
    requires Alphabet(a)
    ensures 0 !in Quad(a, g)
  {
  }

  // generic_dump_base64 from its conversion loop on.
  method Base64InPlace(a: bytes, buffer: array<byte>, n: nat)
    requires Alphabet(a) && buffer.Length == (n + 5) / 3 * 4 + 1 && buffer[buffer.Length - 1] == 0
    modifies buffer
    ensures CString(buffer[..]) == Base64(a, a[64] != 0, old(buffer[buffer.Length - 1 - n..buffer.Length - 1]))
  {
    hide Base64, CString, LastQuad;
    ghost var s := buffer[buffer.Length - 1 - n..buffer.Length - 1];
    var i, out := GroupsInPlace(a, buffer, n);
    ghost var p, t := buffer[..out], s[i..];
    assert t == buffer[buffer.Length - 1 - n + i..buffer.Length - 1];
    FinishInPlace(a, buffer, n, i, out);
    ghost var end := out + |LastQuad(a, t)|;
    ghost var rest := buffer[end..];
    LastQuadIsBase64(a, t, rest);
    TextThenRest(p, LastQuad(a, t) + rest);
    assert buffer[..] == buffer[..out] + (buffer[out..end] + buffer[end..]);
  }

  // Five octets, from the last to the first.
  method PutLast(buffer: array<byte>, out: nat, c: bytes)
    requires out + 5 <= buffer.Length && |c| == 5
    modifies buffer
    ensures buffer[out..out + 5] == c && buffer[..out] == old(buffer[..out])
  {
    buffer[out + 4] := c[4];
    buffer[out + 3] := c[3];
    buffer[out + 2] := c[2];
    buffer[out + 1] := c[1];
    buffer[out] := c[0];
  }

  // The tail behind the loop.
  method FinishInPlace(a: bytes, buffer: array<byte>, n: nat, i: nat, out: nat)
    requires Alphabet(a) && buffer.Length == (n + 5) / 3 * 4 + 1 && buffer[buffer.Length - 1] == 0
    requires i <= n < i + 3 && i % 3 == 0 && out == i / 3 * 4
    modifies buffer
    ensures var last := LastQuad(a, old(buffer[buffer.Length - 1 - n + i..buffer.Length - 1]));
            && out + |last| <= buffer.Length
            && buffer[out..out + |last|] == last
            && buffer[..out] == old(buffer[..out])
  {
    var input := buffer.Length - 1 - n;
    if n - i > 0 {
      hide Sextet, Group;
      var val := Group(buffer[input + i], buffer[input + i + 1], 0);
      ghost var s := buffer[input + i..buffer.Length - 1];
      assert s[0] == buffer[input + i] && (|s| == 2 ==> s[1] == buffer[input + i + 1]);
      PutLast(buffer, out, [a[Sextet(val, 3)], a[Sextet(val, 2)], if n - i == 2 then a[Sextet(val, 1)] else a[64], a[64], 0]);
    } else {
      buffer[out] := 0;
    }
  }

  // ---------- the two alphabets ----------

  // Table 1 of RFC 4648, up to its last two characters.
  function Letter(v: nat): (c: byte)
    requires v < 62
  {
    if v < 26 then 65 + v else if v < 52 then 71 + v else v - 4
  }

  function Letters(c62: byte, c63: byte, filler: byte): (a: bytes)
    ensures |a| == 65
  {
    seq(62, v requires 0 <= v < 62 => Letter(v)) + [c62, c63, filler]
  }

  const STANDARD := Letters(43, 47, 61)
  const URL_SAFE := Letters(45, 95, 0)

  // Tables 1 and 2 of RFC 4648, which differ in the last two characters.
  function Spelled(v: nat, c62: char, c63: char): char
    requires v < 64
  {
    match v
    case 0 => 'A' case 1 => 'B' case 2 => 'C' case 3 => 'D' case 4 => 'E' case 5 => 'F'
    case 6 => 'G' case 7 => 'H' case 8 => 'I' case 9 => 'J' case 10 => 'K' case 11 => 'L'
    case 12 => 'M' case 13 => 'N' case 14 => 'O' case 15 => 'P' case 16 => 'Q' case 17 => 'R'
    case 18 => 'S' case 19 => 'T' case 20 => 'U' case 21 => 'V' case 22 => 'W' case 23 => 'X'
    case 24 => 'Y' case 25 => 'Z' case 26 => 'a' case 27 => 'b' case 28 => 'c' case 29 => 'd'
    case 30 => 'e' case 31 => 'f' case 32 => 'g' case 33 => 'h' case 34 => 'i' case 35 => 'j'
    case 36 => 'k' case 37 => 'l' case 38 => 'm' case 39 => 'n' case 40 => 'o' case 41 => 'p'
    case 42 => 'q' case 43 => 'r' case 44 => 's' case 45 => 't' case 46 => 'u' case 47 => 'v'
    case 48 => 'w' case 49 => 'x' case 50 => 'y' case 51 => 'z' case 52 => '0' case 53 => '1'
    case 54 => '2' case 55 => '3' case 56 => '4' case 57 => '5' case 58 => '6' case 59 => '7'
    case 60 => '8' case 61 => '9'
    case _ => if v == 62 then c62 else c63
  }

  lemma AlphabetsSpelled()
    ensures |STANDARD| == |URL_SAFE| == 65 && STANDARD[64] == '=' as int && URL_SAFE[64] == 0
    ensures forall v :: 0 <= v < 64 ==> STANDARD[v] == Spelled(v, '+', '/') as int && URL_SAFE[v] == Spelled(v, '-', '_') as int
  {
  }

  // Of the test vectors of section 10 of RFC 4648.
  lemma TestVectors()
    ensures Base64(STANDARD, true, Ascii("f")) == Ascii("Zg==")
    ensures Base64(STANDARD, true, Ascii("fo")) == Ascii("Zm8=")
    ensures Base64(STANDARD, true, Ascii("foobar")) == Ascii("Zm9vYmFy")
    ensures Base16(Ascii("foo")) == Ascii("666f6f")
  {
    OneChar();
    TwoChars();
    SixChars();
    InBase16();
    hide Base64, Base16;
  }

  // Four letters of the standard alphabet, by their numbers.
  lemma FourLetters(d0: nat, d1: nat, d2: nat, d3: nat)
    requires d0 < 64 && d1 < 64 && d2 < 64 && d3 < 64
    ensures Quad(STANDARD, d0 * 0x4_0000 + d1 * 0x1000 + d2 * 0x40 + d3)
         == Ascii([Spelled(d0, '+', '/'), Spelled(d1, '+', '/'), Spelled(d2, '+', '/'), Spelled(d3, '+', '/')])
  {
    hide Spelled, Quad, Letters;
    QuadAt(STANDARD, d0, d1, d2, d3);
    var t := [Spelled(d0, '+', '/'), Spelled(d1, '+', '/'), Spelled(d2, '+', '/'), Spelled(d3, '+', '/')];
    LetterAt(t, 0, d0);
    LetterAt(t, 1, d1);
    LetterAt(t, 2, d2);
    LetterAt(t, 3, d3);
  }

  lemma LetterAt(t: string, i: nat, d: nat)
    requires i < |t| && d < 64 && t[i] == Spelled(d, '+', '/')
    ensures Ascii(t)[i] == STANDARD[d]
  {
    hide Spelled, Letters;
    AlphabetsSpelled();
  }

  lemma QuadAt(a: bytes, d0: nat, d1: nat, d2: nat, d3: nat)
    requires |a| == 65 && d0 < 64 && d1 < 64 && d2 < 64 && d3 < 64
    ensures Quad(a, d0 * 0x4_0000 + d1 * 0x1000 + d2 * 0x40 + d3) == [a[d0], a[d1], a[d2], a[d3]]
  {
    hide Sextet;
    SextetsAt(d0 * 0x4_0000 + d1 * 0x1000 + d2 * 0x40 + d3, d0, d1, d2, d3);
  }

  lemma SextetsAt(g: nat, d0: nat, d1: nat, d2: nat, d3: nat)
    requires d0 < 64 && d1 < 64 && d2 < 64 && d3 < 64 && g == d0 * 0x4_0000 + d1 * 0x1000 + d2 * 0x40 + d3
    ensures Sextet(g, 3) == d0 && Sextet(g, 2) == d1 && Sextet(g, 1) == d2 && Sextet(g, 0) == d3
  {
    assert g % 64 == d3;
    assert g / 64 == d0 * 0x1000 + d1 * 0x40 + d2;
    assert g / 0x1000 == d0 * 0x40 + d1;
    assert g / 0x4_0000 == d0;
  }

  // One octet and two octets fill a group up with zeros and leave out letters for them.
  lemma PadsOne(a: bytes, b: byte)
    requires |a| == 65
    ensures Base64(a, true, [b]) == Quad(a, Group(b, 0, 0))[..2] + [a[64], a[64]]
  {
    hide Quad, Group;
  }

  lemma PadsTwo(a: bytes, b: byte, c: byte)
    requires |a| == 65
    ensures Base64(a, true, [b, c]) == Quad(a, Group(b, c, 0))[..3] + [a[64]]
  {
    hide Quad, Group;
  }

  lemma OneChar()
    ensures Base64(STANDARD, true, Ascii("f")) == Ascii("Zg==")
  {
    hide Quad, Group, Base64, Letters;
    QuadF();
    PadsOne(STANDARD, 102);
    Filler();
    assert Ascii("f") == [102];
  }

  lemma TwoChars()
    ensures Base64(STANDARD, true, Ascii("fo")) == Ascii("Zm8=")
  {
    hide Quad, Group, Base64, Letters;
    QuadFo();
    PadsTwo(STANDARD, 102, 111);
    Filler();
    assert Ascii("fo") == [102, 111];
  }

  lemma Filler()
    ensures STANDARD[64] == 61
  {
  }

  lemma QuadF()
    ensures Quad(STANDARD, Group(102, 0, 0)) == Ascii("ZgAA")
  {
    FourLetters(25, 32, 0, 0);
    hide Quad, Letters, Ascii;
  }

  lemma QuadFo()
    ensures Quad(STANDARD, Group(102, 111, 0)) == Ascii("Zm8A")
  {
    FourLetters(25, 38, 60, 0);
    hide Quad, Letters, Ascii;
  }

  lemma SixChars()
    ensures Base64(STANDARD, true, Ascii("foobar")) == Ascii("Zm9vYmFy")
  {
    QuadFoo();
    QuadBar();
    hide Quad, Group, Ascii;
    var s := Ascii("foobar");
    assert s[3..][0] == s[3] && s[3..][1] == s[4] && s[3..][2] == s[5] && s[3..][3..] == [];
    assert Base64(STANDARD, true, []) == [];
  }

  lemma QuadFoo()
    ensures Quad(STANDARD, Group('f' as int, 'o' as int, 'o' as int)) == Ascii("Zm9v")
  {
    FourLetters(25, 38, 61, 47);
    hide Quad, Letters, Ascii;
  }

  lemma QuadBar()
    ensures Quad(STANDARD, Group('b' as int, 'a' as int, 'r' as int)) == Ascii("YmFy")
  {
    FourLetters(24, 38, 5, 50);
    hide Quad, Letters, Ascii;
  }

  lemma InBase16()
    ensures Base16(Ascii("foo")) == Ascii("666f6f")
  {
    var s := Ascii("foo");
    assert s[1..] == Ascii("oo") && s[1..][1..] == Ascii("o") && s[1..][1..][1..] == [];
  }

  lemma BothAreAlphabets()
    ensures Alphabet(STANDARD) && Alphabet(URL_SAFE)
  {
  }

  // ---------- the conversions ----------

  lemma {:induction false} ChunksFit(data: bytes, p: nat, typ: nat, total: nat)
    requires p <= |data| && ScanChunks(data, p, typ, total).err.NoError?
    ensures |ScanChunks(data, p, typ, total).s| <= |data| - p
    decreases |data| - p
  {
    var c := ChunkAt(data, p, typ, total);
    if c.Chunk? {
      ChunksFit(data, c.start + c.len, typ, total + c.len);
    }
  }

  lemma StringFits(data: bytes, it: Cursor)
    requires Valid(data, it) && IsString(it.typ) && ScanString(data, it).err.NoError?
    ensures |ScanString(data, it).s| <= |data|
  {
    if it.flags.unknownLength {
      ChunksFit(data, it.ptr + 1, it.typ, 0);
    }
  }

  // Behind a well-formed string the next item must be well-formed too, which the dumpers assert.
  ghost predicate NextIsReadable(data: bytes, it: Cursor)
    requires Valid(data, it) && IsString(it.typ)
  {
    var sc := ScanString(data, it);
    sc.err.NoError? ==> PreparseNext(data, it.(ptr := sc.next)).err.NoError?
  }

  // cbor_value_calculate_string_length and the copy to the tail of a new buffer of length
  // octets, followed by a NUL.
  method CopyToTail(it: CborValue, n: nat, length: nat) returns (buffer: array<byte>)
    requires Valid(it.buffer, it.State()) && IsString(it.typ) && NextIsReadable(it.buffer, it.State())
    requires var sc := ScanString(it.buffer, it.State()); sc.err.NoError? && n == |sc.s|
    requires n < SIZE_MAX && n <= length
    modifies it
    ensures fresh(buffer) && buffer.Length == length + 1
    ensures var sc := old(ScanString(it.buffer, it.State()));
            && buffer[length - n..length] == sc.s && buffer[length] == 0
            && it.buffer == old(it.buffer)
            && it.State() == PreparseNext(old(it.buffer), old(it.State()).(ptr := sc.next)).it
  {
    hide PreparseNext, Preparse, ScanString;
    buffer := new byte[length + 1];
    ghost var before := buffer[..];
    ghost var data, state := it.buffer, it.State();
    var err, total := it.CopyString(buffer, length - n, n + 1, it);
    assert Written(data, state, n + 1) == ScanString(data, state).s + [0];
    assert buffer[..] == before[..length - n] + (ScanString(data, state).s + [0]);
  }

  // dump_bytestring_base16
  method DumpBase16(it: CborValue) returns (err: Error, result: array?<byte>)
    requires Valid(it.buffer, it.State()) && it.typ == BYTE_STRING_TYPE && NextIsReadable(it.buffer, it.State())
    requires |it.buffer| < SIZE_MAX
    modifies it
    ensures err == old(ScanString(it.buffer, it.State())).err
    ensures var sc := old(ScanString(it.buffer, it.State()));
            if err.NoError? then
              && result != null && CString(result[..]) == Base16(sc.s)
              && it.buffer == old(it.buffer)
              && it.State() == PreparseNext(old(it.buffer), old(it.State()).(ptr := sc.next)).it
            else unchanged(it)
  {
    hide PreparseNext, Preparse, ScanString, CString, Base16;
    ghost var sc := ScanString(it.buffer, it.State());
    var n;
    result := null;
    err, n := it.CopyString(null, 0, SIZE_MAX, null);
    if !err.NoError? { return; }
    StringFits(it.buffer, it.State());
    var buffer := CopyToTail(it, n, 2 * n);
    assert buffer[n..2 * n] == sc.s;
    Base16InPlace(buffer, n);
    HexIsText(sc.s, []);
    assert buffer[..] == buffer[..2 * n] + ([0] + []);
    result := buffer;
  }

  lemma {:induction false} HexIsText(s: bytes, rest: bytes)
    ensures CString(Base16(s) + ([0] + rest)) == Base16(s)
  {
    HexHasNoNul(s);
    TextThenRest(Base16(s), [0] + rest);
  }

  lemma {:induction false} HexHasNoNul(s: bytes)
    ensures 0 !in Base16(s)
  {
    if |s| > 0 { HexHasNoNul(s[1..]); }
  }

  // generic_dump_base64
  method DumpBase64(it: CborValue, alphabet: bytes) returns (err: Error, result: array?<byte>)
    requires Valid(it.buffer, it.State()) && it.typ == BYTE_STRING_TYPE && NextIsReadable(it.buffer, it.State())
    requires |it.buffer| < SIZE_MAX && Alphabet(alphabet)
    modifies it
    ensures err == old(ScanString(it.buffer, it.State())).err
    ensures var sc := old(ScanString(it.buffer, it.State()));
            if err.NoError? then
              && result != null && CString(result[..]) == Base64(alphabet, alphabet[64] != 0, sc.s)
              && it.buffer == old(it.buffer)
              && it.State() == PreparseNext(old(it.buffer), old(it.State()).(ptr := sc.next)).it
            else unchanged(it)
  {
    hide PreparseNext, Preparse, ScanString, CString, Base64, Alphabet;
    ghost var sc := ScanString(it.buffer, it.State());
    var n;
    result := null;
    err, n := it.CopyString(null, 0, SIZE_MAX, null);
    if !err.NoError? { return; }
    StringFits(it.buffer, it.State());
    var length := (n + 5) / 3 * 4;
    var buffer := CopyToTail(it, n, length);
    Base64InPlace(alphabet, buffer, n);
    result := buffer;
  }

  // dump_bytestring_base64 and dump_bytestring_base64url
  method DumpBase64Standard(it: CborValue) returns (err: Error, result: array?<byte>)
    requires Valid(it.buffer, it.State()) && it.typ == BYTE_STRING_TYPE && NextIsReadable(it.buffer, it.State())
    requires |it.buffer| < SIZE_MAX
    modifies it
    ensures err == old(ScanString(it.buffer, it.State())).err
    ensures err.NoError? ==> result != null && CString(result[..]) == Base64(STANDARD, true, old(ScanString(it.buffer, it.State())).s)
  {
    BothAreAlphabets();
    err, result := DumpBase64(it, STANDARD);
  }

  method DumpBase64Url(it: CborValue) returns (err: Error, result: array?<byte>)
    requires Valid(it.buffer, it.State()) && it.typ == BYTE_STRING_TYPE && NextIsReadable(it.buffer, it.State())
    requires |it.buffer| < SIZE_MAX
    modifies it
    ensures err == old(ScanString(it.buffer, it.State())).err
    ensures err.NoError? ==> result != null && CString(result[..]) == Base64(URL_SAFE, false, old(ScanString(it.buffer, it.State())).s)
  {
    BothAreAlphabets();
    err, result := DumpBase64(it, URL_SAFE);
  }
}
