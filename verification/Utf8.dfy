/**
 The UTF-8 and UTF-16 codecs of ccan/json, and the text dumper of cborpretty.c, a
 second decoder of its own.

 A C string is given by its octets; the octet behind the last is its NUL.
 */
module Utf8 {
  import opened Bytes

  function Peek(s: bytes, i: nat): byte
    requires i <= |s|
  {
    if i < |s| then s[i] else 0
  }

  predicate Scalar(u: nat) {
    u <= 0x10FFFF && !(0xD800 <= u <= 0xDFFF)
  }

  predicate IsTail(c: byte) {
    0x80 <= c <= 0xBF
  }

  // utf8_validate_cz: the length of the character at the front, or 0.
  function ValidateChar(s: bytes): (len: nat)
    ensures len <= 4 && (|s| > 0 ==> len <= |s|)
    ensures |s| == 0 ==> len == 1
  {
    var c := Peek(s, 0);
    if c <= 0x7F then 1
    else if c <= 0xC1 then 0
    else if c <= 0xDF then
      if !IsTail(Peek(s, 1)) then 0 else 2
    else if c <= 0xEF then
      if c == 0xE0 && Peek(s, 1) < 0xA0 then 0
      else if c == 0xED && Peek(s, 1) > 0x9F then 0
      else if !IsTail(Peek(s, 1)) then 0
      else if !IsTail(Peek(s, 2)) then 0
      else 3
    else if c <= 0xF4 then
      if c == 0xF0 && Peek(s, 1) < 0x90 then 0
      else if c == 0xF4 && Peek(s, 1) > 0x8F then 0
      else if !IsTail(Peek(s, 1)) then 0
      else if !IsTail(Peek(s, 2)) then 0
      else if !IsTail(Peek(s, 3)) then 0
      else 4
    else 0
  }

  // Six bits from each octet.
  function Join(c0: nat, c1: nat, c2: nat, c3: nat): nat {
    c0 % 64 * 0x4_0000 + c1 % 64 * 4096 + c2 % 64 * 64 + c3 % 64
  }

  // utf8_read_char, which asserts that there is a character.
  function ReadChar(s: bytes): (u: nat)
    requires |s| > 0 && ValidateChar(s) > 0
  {
    var c := s[0];
    if c <= 0x7F then c
    else if c <= 0xDF then Join(0, 0, c % 32, s[1])
    else if c <= 0xEF then Join(0, c % 16, s[1], s[2])
    else Join(c % 8, s[1], s[2], s[3])
  }

  // utf8_write_char
  function WriteChar(u: nat): (s: bytes)
    requires Scalar(u)
    ensures 1 <= |s| <= 4
  {
    if u <= 0x7F then [u]
    else if u <= 0x7FF then [0xC0 + u / 64, 0x80 + u % 64]
    else if u <= 0xFFFF then [0xE0 + u / 4096, 0x80 + u / 64 % 64, 0x80 + u % 64]
    else [0xF0 + u / 0x4_0000, 0x80 + u / 4096 % 64, 0x80 + u / 64 % 64, 0x80 + u % 64]
  }

  lemma JoinSplits(u: nat)
    requires u < 0x40_0000
    ensures u / 0x4_0000 < 64 && u == Join(u / 0x4_0000, u / 4096 % 64, u / 64 % 64, u % 64)
    ensures u < 0x4_0000 ==> u / 4096 < 64 && u == Join(0, u / 4096, u / 64 % 64, u % 64)
    ensures u < 4096 ==> u / 64 < 64 && u == Join(0, 0, u / 64, u % 64)
  {
    DivTwice(u);
    var q := u / 64;
    var r := q / 64;
    SumJoins(r / 64, r % 64, q % 64, u % 64);
    SmallQuotients(u);
    hide Join;
  }

  lemma SmallQuotients(u: nat)
    requires u < 0x40_0000
    ensures u / 0x4_0000 < 64
    ensures u < 0x4_0000 ==> u / 0x4_0000 == 0 && u / 4096 % 64 == u / 4096 < 64
    ensures u < 4096 ==> u / 4096 == 0 && u / 64 % 64 == u / 64 < 64
  {
  }

  lemma SumJoins(c0: nat, c1: nat, c2: nat, c3: nat)
    requires c0 < 64 && c1 < 64 && c2 < 64 && c3 < 64
    ensures Join(c0, c1, c2, c3) == ((c0 * 64 + c1) * 64 + c2) * 64 + c3
  {
  }

  lemma DivTwice(u: nat)
    ensures u / 64 / 64 == u / 4096 && u / 4096 / 64 == u / 0x4_0000
  {
  }

  lemma SplitJoins(c0: nat, c1: nat, c2: nat, c3: nat)
    requires c0 < 64 && c1 < 64 && c2 < 64 && c3 < 64
    ensures var u := Join(c0, c1, c2, c3);
            u == c0 * 0x4_0000 + c1 * 4096 + c2 * 64 + c3
            && u / 0x4_0000 == c0 && u / 4096 % 64 == c1 && u / 64 % 64 == c2 && u % 64 == c3
            && (c0 == 0 ==> u / 4096 == c1) && (c0 == 0 && c1 == 0 ==> u / 64 == c2)
  {
    var u := Join(c0, c1, c2, c3);
    assert u / 64 == c0 * 4096 + c1 * 64 + c2;
    assert u / 4096 == c0 * 64 + c1;
  }

  lemma SameJoin(c0: nat, c1: nat, c2: nat, c3: nat, d0: nat, d1: nat, d2: nat, d3: nat)
    requires c0 % 64 == d0 % 64 && c1 % 64 == d1 % 64 && c2 % 64 == d2 % 64 && c3 % 64 == d3 % 64
    ensures Join(c0, c1, c2, c3) == Join(d0, d1, d2, d3)
  {
  }

  lemma ThreeBounds(u: nat)
    requires 0x7FF < u <= 0xFFFF
    ensures u / 4096 < 16
    ensures u < 0x1000 ==> u / 64 % 64 >= 32
    ensures 0xD000 <= u < 0xD800 ==> u / 64 % 64 < 32
  {
  }

  lemma HeadBits(x: nat)
    requires x < 16
    ensures (0xE0 + x) % 16 == x && x % 64 == x
  {
  }

  lemma TailBits(x: nat)
    requires x < 64
    ensures (0x80 + x) % 64 == x && x % 64 == x
  {
  }

  // Three octets: the tail of the first carries four bits.
  lemma ThreeWritten(u: nat)
    requires 0x7FF < u <= 0xFFFF
    ensures u / 4096 < 16 && u == Join(0, (0xE0 + u / 4096) % 16, 0x80 + u / 64 % 64, 0x80 + u % 64)
    ensures u < 0x1000 ==> u / 64 % 64 >= 32
    ensures 0xD000 <= u < 0xD800 ==> u / 64 % 64 < 32
  {
    hide Join;
    JoinSplits(u);
    ThreeBounds(u);
    HeadBits(u / 4096);
    TailBits(u / 64 % 64);
    TailBits(u % 64);
    SameJoin(0, (0xE0 + u / 4096) % 16, 0x80 + u / 64 % 64, 0x80 + u % 64, 0, u / 4096, u / 64 % 64, u % 64);
  }

  lemma FourInRange(u: nat)
    requires 0xFFFF < u <= 0x10FFFF
    ensures u / 0x4_0000 < 5
    ensures u < 0x4_0000 ==> u / 4096 % 64 >= 16
    ensures 0x10_0000 <= u ==> u / 0x4_0000 == 4 && u / 4096 % 64 < 16
  {
  }

  lemma FourWritten(u: nat)
    requires 0xFFFF < u <= 0x10FFFF
    ensures u == Join((0xF0 + u / 0x4_0000) % 8, 0x80 + u / 4096 % 64, 0x80 + u / 64 % 64, 0x80 + u % 64)
  {
    hide Join;
    JoinSplits(u);
    SameJoin((0xF0 + u / 0x4_0000) % 8, 0x80 + u / 4096 % 64, 0x80 + u / 64 % 64, 0x80 + u % 64,
             u / 0x4_0000, u / 4096 % 64, u / 64 % 64, u % 64);
  }

  lemma WrittenIsValid(u: nat, rest: bytes)
    requires Scalar(u)
    ensures ValidateChar(WriteChar(u) + rest) == |WriteChar(u)|
    ensures ReadChar(WriteChar(u) + rest) == u
  {
    hide Join;
    var s := WriteChar(u) + rest;
    if 0x7F < u <= 0x7FF {
      JoinSplits(u);
      assert s[0] == 0xC0 + u / 64 && s[1] == 0x80 + u % 64;
      SameJoin(0, 0, s[0] % 32, s[1], 0, 0, u / 64, u % 64);
    } else if 0x7FF < u <= 0xFFFF {
      ThreeWritten(u);
      assert s[0] == 0xE0 + u / 4096 && s[1] == 0x80 + u / 64 % 64 && s[2] == 0x80 + u % 64;
    } else if 0xFFFF < u {
      FourWritten(u);
      FourInRange(u);
      assert s[0] == 0xF0 + u / 0x4_0000 && s[1] == 0x80 + u / 4096 % 64 && s[2] == 0x80 + u / 64 % 64 && s[3] == 0x80 + u % 64;
    }
  }

  lemma TailOctet(c: byte)
    requires IsTail(c)
    ensures c == 0x80 + c % 64
  {
  }

  lemma ThreeHead(c: byte)
    requires 0xE0 <= c <= 0xEF
    ensures c % 16 == c - 0xE0 && (c == 0xE0 <==> c % 16 == 0) && (c == 0xED <==> c % 16 == 13)
  {
  }

  // Three octets whose second is in range name a character of the basic plane.
  lemma ThreeIsScalar(c1: nat, c2: nat, c3: nat)
    requires c1 < 16 && c2 < 64 && c3 < 64 && (c1 == 0 ==> c2 >= 32) && (c1 == 13 ==> c2 < 32)
    ensures 0x7FF < Join(0, c1, c2, c3) <= 0xFFFF && Scalar(Join(0, c1, c2, c3))
  {
  }

  lemma FourHead(c: byte)
    requires 0xF0 <= c <= 0xF4
    ensures c == 0xF0 + c % 8 && c % 8 < 5 && (c == 0xF0 <==> c % 8 == 0) && (c == 0xF4 <==> c % 8 == 4)
  {
  }

  // Four octets whose second is in range name a character beyond the basic plane.
  lemma FourIsScalar(c0: nat, c1: nat, c2: nat, c3: nat)
    requires c0 < 5 && c1 < 64 && c2 < 64 && c3 < 64 && (c0 == 0 ==> c1 >= 16) && (c0 == 4 ==> c1 < 16)
    ensures 0xFFFF < Join(c0, c1, c2, c3) <= 0x10FFFF
  {
  }

  // Section 3 of RFC 3629: how many octets a character has, which, and what it counts.
  lemma Forms(s: bytes)
    requires |s| > 0
    ensures ValidateChar(s) == 1 <==> s[0] <= 0x7F
    ensures ValidateChar(s) == 1 ==> ReadChar(s) == s[0]
    ensures ValidateChar(s) == 2 ==>
              && 0xC2 <= s[0] <= 0xDF && 0x80 <= s[1] <= 0xBF
              && 0x80 <= ReadChar(s) == (s[0] as int - 0xC0) * 64 + (s[1] as int - 0x80) <= 0x7FF
    ensures ValidateChar(s) == 3 ==>
              && 0xE0 <= s[0] <= 0xEF && 0x80 <= s[1] <= 0xBF && 0x80 <= s[2] <= 0xBF
              && 0x800 <= ReadChar(s) == (s[0] as int - 0xE0) * 4096 + (s[1] as int - 0x80) * 64 + (s[2] as int - 0x80) <= 0xFFFF
              && !(0xD800 <= ReadChar(s) <= 0xDFFF)
    ensures ValidateChar(s) == 4 ==>
              && 0xF0 <= s[0] <= 0xF4 && 0x80 <= s[1] <= 0xBF && 0x80 <= s[2] <= 0xBF && 0x80 <= s[3] <= 0xBF
              && 0x1_0000 <= ReadChar(s) <= 0x10_FFFF
              && ReadChar(s) == (s[0] as int - 0xF0) * 0x4_0000 + (s[1] as int - 0x80) * 4096 + (s[2] as int - 0x80) * 64 + (s[3] as int - 0x80)
  {
    hide Join;
    if ValidateChar(s) == 2 {
      TwoCounts(s[0], s[1]);
    } else if ValidateChar(s) == 3 {
      ThreeCounts(s[0], s[1], s[2]);
    } else if ValidateChar(s) == 4 {
      FourCounts(s[0], s[1], s[2], s[3]);
    }
  }

  lemma ThreeCounts(c: byte, d: byte, e: byte)
    requires 0xE0 <= c <= 0xEF && IsTail(d) && IsTail(e) && (c == 0xE0 ==> d >= 0xA0) && (c == 0xED ==> d <= 0x9F)
    ensures var u := Join(0, c % 16, d, e);
            0x800 <= u == (c as int - 0xE0) * 4096 + (d as int - 0x80) * 64 + (e as int - 0x80) <= 0xFFFF && !(0xD800 <= u <= 0xDFFF)
  {
    hide Join;
    ThreeHead(c);
    TailOctet(d);
    TailOctet(e);
    SplitJoins(0, c % 16, d % 64, e % 64);
    SameJoin(0, c % 16, d, e, 0, c % 16, d % 64, e % 64);
    ThreeIsScalar(c % 16, d % 64, e % 64);
  }

  lemma FourCounts(c: byte, d: byte, e: byte, f: byte)
    requires 0xF0 <= c <= 0xF4 && IsTail(d) && IsTail(e) && IsTail(f) && (c == 0xF0 ==> d >= 0x90) && (c == 0xF4 ==> d <= 0x8F)
    ensures var u := Join(c % 8, d, e, f);
            0x1_0000 <= u == (c as int - 0xF0) * 0x4_0000 + (d as int - 0x80) * 4096 + (e as int - 0x80) * 64 + (f as int - 0x80) <= 0x10_FFFF
  {
    hide Join;
    FourHead(c);
    TailOctet(d);
    TailOctet(e);
    TailOctet(f);
    SplitJoins(c % 8, d % 64, e % 64, f % 64);
    SameJoin(c % 8, d, e, f, c % 8, d % 64, e % 64, f % 64);
    FourIsScalar(c % 8, d % 64, e % 64, f % 64);
  }

  lemma TwoCounts(c: byte, d: byte)
    requires 0xC2 <= c <= 0xDF && IsTail(d)
    ensures 0x80 <= Join(0, 0, c % 32, d) == (c as int - 0xC0) * 64 + (d as int - 0x80) <= 0x7FF
  {
  }

  lemma ValidTwo(s: bytes)
    requires |s| > 0 && ValidateChar(s) == 2
    ensures Scalar(ReadChar(s)) && WriteChar(ReadChar(s)) == s[..2]
  {
    hide Join;
    SplitJoins(0, 0, s[0] % 32, s[1] % 64);
    SameJoin(0, 0, s[0] % 32, s[1], 0, 0, s[0] % 32, s[1] % 64);
  }

  lemma ValidThree(s: bytes)
    requires |s| > 0 && ValidateChar(s) == 3
    ensures Scalar(ReadChar(s)) && WriteChar(ReadChar(s)) == s[..3]
  {
    hide Join;
    ThreeHead(s[0]);
    TailOctet(s[1]);
    TailOctet(s[2]);
    ThreeIsScalar(s[0] % 16, s[1] % 64, s[2] % 64);
    SplitJoins(0, s[0] % 16, s[1] % 64, s[2] % 64);
    SameJoin(0, s[0] % 16, s[1], s[2], 0, s[0] % 16, s[1] % 64, s[2] % 64);
  }

  lemma ValidFour(s: bytes)
    requires |s| > 0 && ValidateChar(s) == 4
    ensures Scalar(ReadChar(s)) && WriteChar(ReadChar(s)) == s[..4]
  {
    hide Join;
    FourHead(s[0]);
    TailOctet(s[1]);
    TailOctet(s[2]);
    TailOctet(s[3]);
    FourIsScalar(s[0] % 8, s[1] % 64, s[2] % 64, s[3] % 64);
    SplitJoins(s[0] % 8, s[1] % 64, s[2] % 64, s[3] % 64);
    SameJoin(s[0] % 8, s[1], s[2], s[3], s[0] % 8, s[1] % 64, s[2] % 64, s[3] % 64);
  }

  lemma ValidIsWritten(s: bytes)
    requires |s| > 0 && ValidateChar(s) > 0
    ensures Scalar(ReadChar(s)) && WriteChar(ReadChar(s)) == s[..ValidateChar(s)]
  {
    match ValidateChar(s)
    case 2 => ValidTwo(s);
    case 3 => ValidThree(s);
    case 4 => ValidFour(s);
    case _ =>
  }

  // utf8_validate, on a string in which NUL is a character like any other.
  predicate Valid(s: bytes)
    decreases |s|
  {
    |s| == 0 || (ValidateChar(s) > 0 && Valid(s[ValidateChar(s)..]))
  }

  ghost predicate Scalars(us: seq<nat>) {
    forall i :: 0 <= i < |us| ==> Scalar(us[i])
  }

  function Encode(us: seq<nat>): bytes
    requires Scalars(us)
  {
    if |us| == 0 then [] else WriteChar(us[0]) + Encode(us[1..])
  }

  function Decode(s: bytes): (us: seq<nat>)
    requires Valid(s)
    decreases |s|
  {
    if |s| == 0 then [] else [ReadChar(s)] + Decode(s[ValidateChar(s)..])
  }

  lemma {:induction false} EncodeThenDecode(us: seq<nat>)
    requires Scalars(us)
    ensures Valid(Encode(us)) && Decode(Encode(us)) == us
  {
    hide ValidateChar, WriteChar, ReadChar;
    if |us| > 0 {
      EncodeThenDecode(us[1..]);
      WrittenIsValid(us[0], Encode(us[1..]));
      assert Encode(us)[|WriteChar(us[0])|..] == Encode(us[1..]);
    }
  }

  lemma {:induction false} DecodeThenEncode(s: bytes)
    requires Valid(s)
    ensures Scalars(Decode(s)) && Encode(Decode(s)) == s
    decreases |s|
  {
    hide ValidateChar, WriteChar, ReadChar, Encode, Scalars;
    EncodeNothing();
    if |s| > 0 {
      var n := ValidateChar(s);
      ValidIsWritten(s);
      DecodeThenEncode(s[n..]);
      EncodeMore(ReadChar(s), Decode(s[n..]));
      assert s == s[..n] + s[n..];
    }
  }

  lemma EncodeNothing()
    ensures Scalars([]) && Encode([]) == []
  {
  }

  lemma EncodeMore(u: nat, us: seq<nat>)
    requires Scalar(u) && Scalars(us)
    ensures Scalars([u] + us) && Encode([u] + us) == WriteChar(u) + Encode(us)
  {
    hide WriteChar;
    assert ([u] + us)[1..] == us;
  }

  // The validator accepts exactly what the writer produces.
  lemma ValidIffWritten(s: bytes)
    ensures Valid(s) <==> exists us :: Scalars(us) && Encode(us) == s
  {
    if Valid(s) {
      DecodeThenEncode(s);
    }
    forall us | Scalars(us) && Encode(us) == s ensures Valid(s) {
      EncodeThenDecode(us);
    }
  }

  // utf8_validate
  method Validate(s: bytes) returns (ok: bool)
    requires 0 !in s
    ensures ok <==> Valid(s)
  {
    hide ValidateChar;
    var p := 0;
    while Peek(s, p) != 0
      invariant p <= |s|
      invariant Valid(s) == Valid(s[p..])
      decreases |s| - p
    {
      var len := ValidateChar(s[p..]);
      if len == 0 { return false; }
      assert s[p..][len..] == s[p + len..];
      p := p + len;
    }
    ok := true;
  }

  // ---------- UTF-16 ----------

  datatype Pair = NoPair | Pair(u: nat)

  // from_surrogate_pair
  function FromSurrogatePair(uc: nat, lc: nat): (r: Pair) {
    if 0xD800 <= uc <= 0xDBFF && 0xDC00 <= lc <= 0xDFFF then Pair(0x1_0000 + uc % 0x400 * 0x400 + lc % 0x400)
    else NoPair
  }

  // to_surrogate_pair
  function ToSurrogatePair(u: nat): (r: (nat, nat))
    requires 0x1_0000 <= u <= 0x10FFFF
  {
    var n := u - 0x1_0000;
    (n / 0x400 % 0x400 + 0xD800, n % 0x400 + 0xDC00)
  }

  lemma FromToSurrogatePair(u: nat)
    requires 0x1_0000 <= u <= 0x10FFFF
    ensures var (uc, lc) := ToSurrogatePair(u);
            FromSurrogatePair(uc, lc) == Pair(u)
  {
    var (uc, lc) := ToSurrogatePair(u);
    assert uc % 0x400 == (u - 0x1_0000) / 0x400;
    assert lc % 0x400 == (u - 0x1_0000) % 0x400;
  }

  lemma ToFromSurrogatePair(uc: nat, lc: nat)
    requires FromSurrogatePair(uc, lc).Pair?
    ensures var u := FromSurrogatePair(uc, lc).u;
            0x1_0000 <= u <= 0x10FFFF && ToSurrogatePair(u) == (uc, lc)
  {
    var h, l := uc - 0xD800, lc - 0xDC00;
    assert uc % 0x400 == h && lc % 0x400 == l;
    assert (h * 0x400 + l) / 0x400 == h && (h * 0x400 + l) % 0x400 == l;
  }
}
