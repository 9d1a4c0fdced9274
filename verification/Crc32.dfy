/**
 CRC-32C over CSP packets: the table-driven loop is the bit-by-bit register of
 Appendix B of RFC 4960, and what a packet check can and cannot miss.
 */
module Crc32 {
  import opened Crc32Table

  // crc_tab at the low octet of x.
  function Lookup(x: bv32): bv32 {
    var r, k := ((x >> 3) & 0x1F) as nat, (x & 7) as nat;
    RowSize(x);
    CrcRow(r)[k]
  }

  lemma RowSize(x: bv32)
    ensures ((x >> 3) & 0x1F) as nat < 32 && (x & 7) as nat < 8
    ensures |CrcRow(((x >> 3) & 0x1F) as nat)| == 8
  {
    TableIsShift8(((x >> 3) & 0x1F) as nat);
  }

  lemma FiveBits(hi: bv32)
    requires hi < 32
    ensures hi as nat < 32 && (hi as nat) as bv32 == hi
  {
  }

  lemma ThreeBits(lo: bv32)
    requires lo < 8
    ensures lo as nat < 8
    ensures (lo as nat == 0 ==> lo == 0) && (lo as nat == 1 ==> lo == 1) && (lo as nat == 2 ==> lo == 2) && (lo as nat == 3 ==> lo == 3)
    ensures (lo as nat == 4 ==> lo == 4) && (lo as nat == 5 ==> lo == 5) && (lo as nat == 6 ==> lo == 6) && (lo as nat == 7 ==> lo == 7)
  {
    FiveBits(lo);
  }

  lemma RowEntry(s: seq<bv32>, hi: bv32, lo: bv32)
    requires RowIs(s, hi) && lo < 8
    ensures lo as nat < 8 && s[lo as nat] == Shift8(Index(hi, lo))
  {
    hide Shift8, Index;
    ThreeBits(lo);
  }

  lemma SplitIndex(x: bv32)
    ensures x & 0xFF == Index((x >> 3) & 0x1F, x & 7)
  {
  }

  lemma LookupIsShift8(x: bv32)
    ensures Lookup(x) == Shift8(x & 0xFF)
  {
    SplitIndex(x);
    hide Shift8, CrcRow, RowIs, Index;
    var hi, lo := (x >> 3) & 0x1F, x & 7;
    FiveBits(hi);
    TableIsShift8(hi as nat);
    RowEntry(CrcRow(hi as nat), hi, lo);
  }

  // ---------- the register is linear and loses nothing ----------

  lemma XorParity(a: bv32, b: bv32)
    ensures (a ^ b) & 1 == (a & 1) ^ (b & 1) && (a & 1 == 0 || a & 1 == 1)
  {
  }

  lemma XorShift(a: bv32, b: bv32)
    ensures (a ^ b) >> 1 == (a >> 1) ^ (b >> 1)
  {
  }

  lemma XorPolys(a: bv32, b: bv32)
    ensures (a ^ POLY) ^ (b ^ POLY) == a ^ b && (a ^ POLY) ^ b == (a ^ b) ^ POLY && a ^ (b ^ POLY) == (a ^ b) ^ POLY
  {
  }

  lemma ShiftXor(a: bv32, b: bv32)
    ensures Shift(a ^ b) == Shift(a) ^ Shift(b)
  {
    XorParity(a, b);
    XorParity(b, a);
    XorShift(a, b);
    XorPolys(a >> 1, b >> 1);
  }

  lemma ShiftLinear(a: bv32, b: bv32)
    ensures Shift(Xor(a, b)) == Xor(Shift(a), Shift(b))
  {
    hide Shift;
    ShiftXor(a, b);
  }

  lemma Shift8Linear(a: bv32, b: bv32)
    ensures Shift8(Xor(a, b)) == Xor(Shift8(a), Shift8(b))
  {
    hide Shift, Xor;
    var a1, b1 := Shift(a), Shift(b);
    var a2, b2 := Shift(a1), Shift(b1);
    var a3, b3 := Shift(a2), Shift(b2);
    var a4, b4 := Shift(a3), Shift(b3);
    var a5, b5 := Shift(a4), Shift(b4);
    var a6, b6 := Shift(a5), Shift(b5);
    ShiftLinear(a, b);
    ShiftLinear(a1, b1);
    ShiftLinear(a2, b2);
    ShiftLinear(a3, b3);
    ShiftLinear(a4, b4);
    ShiftLinear(a5, b5);
    ShiftLinear(a6, b6);
    ShiftLinear(Shift(a6), Shift(b6));
  }

  // The polynomial has its top bit set, so the bit shifted out can be told from the result.
  lemma ShiftInjective(a: bv32, b: bv32)
    requires Shift(a) == Shift(b)
    ensures a == b
  {
  }

  lemma Shift8Injective(a: bv32, b: bv32)
    requires Shift8(a) == Shift8(b)
    ensures a == b
  {
    var a1, b1 := Shift(a), Shift(b);
    var a2, b2 := Shift(a1), Shift(b1);
    var a3, b3 := Shift(a2), Shift(b2);
    var a4, b4 := Shift(a3), Shift(b3);
    var a5, b5 := Shift(a4), Shift(b4);
    var a6, b6 := Shift(a5), Shift(b5);
    var a7, b7 := Shift(a6), Shift(b6);
    hide Shift;
    ShiftInjective(a7, b7);
    ShiftInjective(a6, b6);
    ShiftInjective(a5, b5);
    ShiftInjective(a4, b4);
    ShiftInjective(a3, b3);
    ShiftInjective(a2, b2);
    ShiftInjective(a1, b1);
    ShiftInjective(a, b);
  }

  function Shr(y: bv32): bv32 { y >> 1 }

  predicate Even(y: bv32) { y & 1 == 0 }

  lemma EvenShift(y: bv32)
    requires Even(y)
    ensures Shift(y) == Shr(y)
  {
  }

  lemma LowBits(y: bv32)
    requires y & 0xFF == 0
    ensures var y1 := Shr(y); var y2 := Shr(y1); var y3 := Shr(y2); var y4 := Shr(y3);
            var y5 := Shr(y4); var y6 := Shr(y5); var y7 := Shr(y6);
            && Even(y) && Even(y1) && Even(y2) && Even(y3) && Even(y4) && Even(y5) && Even(y6) && Even(y7)
            && Shr(y7) == y >> 8
  {
  }

  // Eight steps of a register whose low octet is clear only move it down.
  lemma Shift8OfHigh(y: bv32)
    requires y & 0xFF == 0
    ensures Shift8(y) == y >> 8
  {
    hide Shift, Shr, Even;
    LowBits(y);
    var y1 := Shr(y);
    var y2 := Shr(y1);
    var y3 := Shr(y2);
    var y4 := Shr(y3);
    var y5 := Shr(y4);
    var y6 := Shr(y5);
    EvenShift(y);
    EvenShift(y1);
    EvenShift(y2);
    EvenShift(y3);
    EvenShift(y4);
    EvenShift(y5);
    EvenShift(y6);
    EvenShift(Shr(y6));
  }

  // ---------- the register over octets and bits ----------

  type octets = seq<bv8>

  // One octet of the message through the register, eight bits at a time.
  function Step(c: bv32, b: bv8): bv32 {
    Shift8(Xor(c, b as bv32))
  }

  function Feed(c: bv32, data: octets): bv32
    decreases |data|
  {
    if |data| == 0 then c else Feed(Step(c, data[0]), data[1..])
  }

  // csp_crc32_memory's loop body.
  function TableStep(c: bv32, b: bv8): bv32 {
    Xor(Lookup(Xor(c, b as bv32)), c >> 8)
  }

  lemma SplitWord(c: bv32, b: bv32, y: bv32)
    requires b & 0xFF == b && y == Xor(c, b)
    ensures y == Xor(y & 0xFF, y & 0xFFFF_FF00) && (y & 0xFFFF_FF00) & 0xFF == 0 && (y & 0xFFFF_FF00) >> 8 == c >> 8
  {
  }

  lemma Widen(b: bv8)
    ensures (b as bv32) & 0xFF == b as bv32
  {
  }

  // The table does eight steps at once.
  lemma TableStepIsStep(c: bv32, b: bv8)
    ensures TableStep(c, b) == Step(c, b)
  {
    var y := Xor(c, b as bv32);
    Widen(b);
    SplitWord(c, b as bv32, y);
    LookupIsShift8(y);
    hide Xor, Shift8, Lookup;
    Shift8Linear(y & 0xFF, y & 0xFFFF_FF00);
    Shift8OfHigh(y & 0xFFFF_FF00);
  }

  // The reference: the message as single bits, least significant bit of each octet first, each
  // combined with the bit that leaves the register.
  function BitStep(c: bv32, bit: bool): bv32 {
    if (c & 1 == 1) != bit then (c >> 1) ^ POLY else c >> 1
  }

  function FeedBits(c: bv32, bits: seq<bool>): bv32
    decreases |bits|
  {
    if |bits| == 0 then c else FeedBits(BitStep(c, bits[0]), bits[1..])
  }

  predicate Odd(v: bv32) { v & 1 == 1 }

  function Bits(b: bv8): seq<bool> {
    var v := b as bv32;
    var v1 := Shr(v);
    var v2 := Shr(v1);
    var v3 := Shr(v2);
    var v4 := Shr(v3);
    var v5 := Shr(v4);
    var v6 := Shr(v5);
    [Odd(v), Odd(v1), Odd(v2), Odd(v3), Odd(v4), Odd(v5), Odd(v6), Odd(Shr(v6))]
  }

  function MessageBits(data: octets): seq<bool>
    decreases |data|
  {
    if |data| == 0 then [] else Bits(data[0]) + MessageBits(data[1..])
  }

  function Reference(data: octets): bv32 {
    FeedBits(0xFFFF_FFFF, MessageBits(data)) ^ 0xFFFF_FFFF
  }

  lemma PeelRaw(c: bv32, v: bv32)
    ensures Shift(c ^ v) == BitStep(c, Odd(v)) ^ Shr(v)
  {
    XorParity(c, v);
    XorParity(v, c);
    XorShift(c, v);
    XorPolys(c >> 1, v >> 1);
  }

  // Taking the low bit of the octet into account now, or carrying it along in the register.
  lemma Peel(c: bv32, v: bv32)
    ensures Shift(Xor(c, v)) == Xor(BitStep(c, Odd(v)), Shr(v))
  {
    hide Shift, BitStep, Odd, Shr;
    PeelRaw(c, v);
  }

  lemma NothingLeft(v: bv32, c: bv32)
    requires v & 0xFF == v
    ensures Xor(c, Shr(Shr(Shr(Shr(Shr(Shr(Shr(Shr(v))))))))) == c
  {
  }

  lemma OctetBits(c: bv32, b: bv8)
    ensures FeedBits(c, Bits(b)) == Step(c, b)
  {
    hide Xor, Shift, Shr, Odd, BitStep, FeedBits;
    var v := b as bv32;
    Widen(b);
    var v1 := Shr(v);
    var v2 := Shr(v1);
    var v3 := Shr(v2);
    var v4 := Shr(v3);
    var v5 := Shr(v4);
    var v6 := Shr(v5);
    var v7 := Shr(v6);
    var c1 := BitStep(c, Odd(v));
    var c2 := BitStep(c1, Odd(v1));
    var c3 := BitStep(c2, Odd(v2));
    var c4 := BitStep(c3, Odd(v3));
    var c5 := BitStep(c4, Odd(v4));
    var c6 := BitStep(c5, Odd(v5));
    var c7 := BitStep(c6, Odd(v6));
    var c8 := BitStep(c7, Odd(v7));
    Peel(c, v);
    Peel(c1, v1);
    Peel(c2, v2);
    Peel(c3, v3);
    Peel(c4, v4);
    Peel(c5, v5);
    Peel(c6, v6);
    Peel(c7, v7);
    EightBits(c, Odd(v), Odd(v1), Odd(v2), Odd(v3), Odd(v4), Odd(v5), Odd(v6), Odd(v7));
    NothingLeft(v, c8);
  }

  lemma FeedOne(c: bv32, bits: seq<bool>)
    requires |bits| > 0
    ensures FeedBits(c, bits) == FeedBits(BitStep(c, bits[0]), bits[1..])
  {
  }

  lemma EightBits(c: bv32, b0: bool, b1: bool, b2: bool, b3: bool, b4: bool, b5: bool, b6: bool, b7: bool)
    ensures FeedBits(c, [b0, b1, b2, b3, b4, b5, b6, b7]) == FourSteps(FourSteps(c, b0, b1, b2, b3), b4, b5, b6, b7)
  {
    hide BitStep, FeedBits, FourSteps;
    var a, b := [b0, b1, b2, b3], [b4, b5, b6, b7];
    FeedBitsConcat(c, a, b);
    assert [b0, b1, b2, b3, b4, b5, b6, b7] == a + b;
    FourBits(c, b0, b1, b2, b3);
    FourBits(FourSteps(c, b0, b1, b2, b3), b4, b5, b6, b7);
  }

  function FourSteps(c: bv32, b0: bool, b1: bool, b2: bool, b3: bool): bv32 {
    BitStep(BitStep(BitStep(BitStep(c, b0), b1), b2), b3)
  }

  lemma FourBits(c: bv32, b0: bool, b1: bool, b2: bool, b3: bool)
    ensures FeedBits(c, [b0, b1, b2, b3]) == FourSteps(c, b0, b1, b2, b3)
  {
    hide BitStep, FeedBits;
    var c1 := BitStep(c, b0);
    var c2 := BitStep(c1, b1);
    var c3 := BitStep(c2, b2);
    FeedOne(c, [b0, b1, b2, b3]);
    assert [b0, b1, b2, b3][1..] == [b1, b2, b3];
    FeedOne(c1, [b1, b2, b3]);
    assert [b1, b2, b3][1..] == [b2, b3];
    FeedOne(c2, [b2, b3]);
    assert [b2, b3][1..] == [b3];
    FeedOne(c3, [b3]);
    assert [b3][1..] == [];
    FeedNoBits(BitStep(c3, b3));
  }

  lemma {:induction false} FeedBitsConcat(c: bv32, a: seq<bool>, b: seq<bool>)
    ensures FeedBits(c, a + b) == FeedBits(FeedBits(c, a), b)
    decreases |a|
  {
    hide BitStep;
    if |a| == 0 {
      assert a + b == b;
    } else {
      assert (a + b)[1..] == a[1..] + b;
      FeedBitsConcat(BitStep(c, a[0]), a[1..], b);
    }
  }

  lemma {:induction false} FeedIsBitByBit(c: bv32, data: octets)
    ensures Feed(c, data) == FeedBits(c, MessageBits(data))
    decreases |data|
  {
    hide Bits, Step, FeedBits;
    if |data| > 0 {
      OctetBits(c, data[0]);
      FeedBitsConcat(c, Bits(data[0]), MessageBits(data[1..]));
      FeedIsBitByBit(Step(c, data[0]), data[1..]);
    } else {
      FeedNoBits(c);
    }
  }

  lemma FeedNoBits(c: bv32)
    ensures FeedBits(c, []) == c
  {
  }

  lemma {:induction false} FeedConcat(c: bv32, a: octets, b: octets)
    ensures Feed(c, a + b) == Feed(Feed(c, a), b)
    decreases |a|
  {
    hide Step;
    if |a| == 0 {
      assert a + b == b;
    } else {
      assert (a + b)[1..] == a[1..] + b;
      FeedConcat(Step(c, a[0]), a[1..], b);
    }
  }

  // csp_crc32_memory
  method Memory(data: octets) returns (crc: bv32)
    ensures crc == Reference(data)
  {
    hide Step, TableStep, FeedBits;
    crc := 0xFFFF_FFFF;
    var i := 0;
    while i < |data|
      invariant 0 <= i <= |data|
      invariant Feed(crc, data[i..]) == Feed(0xFFFF_FFFF, data)
    {
      TableStepIsStep(crc, data[i]);
      assert data[i..][1..] == data[i + 1..];
      crc := TableStep(crc, data[i]);
      i := i + 1;
    }
    FeedIsBitByBit(0xFFFF_FFFF, data);
    crc := crc ^ 0xFFFF_FFFF;
  }

  // ---------- what a changed message does to the checksum ----------

  lemma StepInjective(c: bv32, c': bv32, b: bv8)
    requires Step(c, b) == Step(c', b)
    ensures c == c'
  {
    hide Shift8;
    Shift8Injective(Xor(c, b as bv32), Xor(c', b as bv32));
    XorCancels(c, c', b as bv32);
  }

  lemma XorCancels(a: bv32, b: bv32, x: bv32)
    requires Xor(a, x) == Xor(b, x)
    ensures a == b
  {
  }

  // Registers that differ still differ after any common continuation.
  lemma {:induction false} FeedInjective(c: bv32, c': bv32, data: octets)
    requires Feed(c, data) == Feed(c', data)
    ensures c == c'
    decreases |data|
  {
    hide Step;
    if |data| > 0 {
      FeedInjective(Step(c, data[0]), Step(c', data[0]), data[1..]);
      StepInjective(c, c', data[0]);
    }
  }

  // Up to four octets as one word, the first lowest.
  function Word(x: octets): bv32
    decreases |x|
  {
    if |x| == 0 then 0 else Join(x[0], Word(x[1..]))
  }

  function Join(b: bv8, w: bv32): bv32 { (b as bv32) ^ (w << 8) }

  function Shift8s(k: nat, c: bv32): bv32 {
    if k == 0 then c else Shift8s(k - 1, Shift8(c))
  }

  lemma JoinBounds(b: bv8, w: bv32)
    ensures w == 0 ==> Join(b, w) < 0x100
    ensures w < 0x100 ==> Join(b, w) < 0x1_0000
    ensures w < 0x1_0000 ==> Join(b, w) < 0x100_0000
  {
  }

  lemma WordBound(x: octets)
    requires |x| <= 3
    ensures Word(x) < 0x100_0000
    ensures |x| <= 2 ==> Word(x) < 0x1_0000
    ensures |x| <= 1 ==> Word(x) < 0x100
    ensures |x| == 0 ==> Word(x) == 0
    decreases |x|
  {
    hide Join;
    if |x| > 0 {
      WordBound(x[1..]);
      JoinBounds(x[0], Word(x[1..]));
    }
  }

  lemma JoinInjective(b: bv8, w: bv32, b': bv8, w': bv32)
    requires w < 0x100_0000 && w' < 0x100_0000 && Join(b, w) == Join(b', w')
    ensures b == b' && w == w'
  {
  }

  lemma {:induction false} WordInjective(x: octets, y: octets)
    requires |x| == |y| <= 4 && Word(x) == Word(y)
    ensures x == y
    decreases |x|
  {
    hide Join;
    if |x| > 0 {
      WordBound(x[1..]);
      WordBound(y[1..]);
      JoinInjective(x[0], Word(x[1..]), y[0], Word(y[1..]));
      WordInjective(x[1..], y[1..]);
      assert x == [x[0]] + x[1..] && y == [y[0]] + y[1..];
    }
  }

  lemma JoinRaw(c: bv32, b: bv8, w: bv32)
    requires w < 0x100_0000
    ensures Xor(c, Join(b, w)) == Xor(Xor(c, b as bv32), w << 8) && (w << 8) & 0xFF == 0 && (w << 8) >> 8 == w
  {
  }

  lemma StepAbsorbs(c: bv32, b: bv8, w: bv32)
    requires w < 0x100_0000
    ensures Xor(Step(c, b), w) == Shift8(Xor(c, Join(b, w)))
  {
    hide Shift8, Xor, Join;
    JoinRaw(c, b, w);
    Shift8OfHigh(w << 8);
    Shift8Linear(Xor(c, b as bv32), w << 8);
  }

  lemma XorZero(c: bv32)
    ensures Xor(c, 0) == c
  {
  }

  // Up to four octets enter the register as one word.
  lemma {:induction false} FeedWord(c: bv32, x: octets)
    requires |x| <= 4
    ensures Feed(c, x) == Shift8s(|x|, Xor(c, Word(x)))
    decreases |x|
  {
    hide Step, Xor, Shift8, Join;
    if |x| == 0 {
      XorZero(c);
    } else {
      WordBound(x[1..]);
      FeedWord(Step(c, x[0]), x[1..]);
      StepAbsorbs(c, x[0], Word(x[1..]));
    }
  }

  lemma {:induction false} Shift8sInjective(k: nat, a: bv32, b: bv32)
    requires Shift8s(k, a) == Shift8s(k, b)
    ensures a == b
  {
    hide Shift8;
    if k > 0 {
      Shift8sInjective(k - 1, Shift8(a), Shift8(b));
      Shift8Injective(a, b);
    }
  }

  lemma XorCommutes(a: bv32, b: bv32)
    ensures Xor(a, b) == Xor(b, a)
  {
  }

  // Two messages that differ, but only within four consecutive octets, have different checksums.
  lemma BurstChangesChecksum(before: octets, x: octets, y: octets, behind: octets)
    requires |x| == |y| <= 4 && x != y
    ensures Reference(before + x + behind) != Reference(before + y + behind)
  {
    hide Step, Xor, Shift8s, Word, FeedBits;
    var c := Feed(0xFFFF_FFFF, before);
    var cx, cy := Feed(c, x), Feed(c, y);
    FeedConcat(0xFFFF_FFFF, before + x, behind);
    FeedConcat(0xFFFF_FFFF, before, x);
    FeedConcat(0xFFFF_FFFF, before + y, behind);
    FeedConcat(0xFFFF_FFFF, before, y);
    FeedIsBitByBit(0xFFFF_FFFF, before + x + behind);
    FeedIsBitByBit(0xFFFF_FFFF, before + y + behind);
    hide Feed;
    if Feed(cx, behind) == Feed(cy, behind) {
      FeedInjective(cx, cy, behind);
      FeedWord(c, x);
      FeedWord(c, y);
      Shift8sInjective(|x|, Xor(c, Word(x)), Xor(c, Word(y)));
      XorCommutes(c, Word(x));
      XorCommutes(c, Word(y));
      XorCancels(Word(x), Word(y), c);
      WordInjective(x, y);
      assert false;
    }
    Complemented(Feed(cx, behind), Feed(cy, behind));
  }

  lemma Complemented(a: bv32, b: bv32)
    requires a != b
    ensures a ^ 0xFFFF_FFFF != b ^ 0xFFFF_FFFF
  {
  }

  // ---------- packets ----------

  datatype Result = None | Invalid   // CSP_ERR_NONE, CSP_ERR_INVAL

  // A CSP packet: the four octets of the identifier lie in front of the data.
  class Packet {
    var id: octets
    var data: array<bv8>
    var length: nat

    ghost predicate Valid()
      reads this
    {
      |id| == 4 && length <= data.Length <= 0xFFFF
    }

    ghost function Payload(): octets
      requires Valid()
      reads this, data
    {
      data[..length]
    }

    // What the checksum covers.
    ghost function Covered(includeHeader: bool, n: nat): octets
      requires Valid() && n <= length
      reads this, data
    {
      (if includeHeader then id else []) + data[..n]
    }
  }

  // The checksum in network byte order.
  function Trailer(crc: bv32): (t: octets)
    ensures |t| == 4
  {
    [((crc >> 24) & 0xFF) as bv8, ((crc >> 16) & 0xFF) as bv8, ((crc >> 8) & 0xFF) as bv8, (crc & 0xFF) as bv8]
  }

  lemma TrailerInjective(a: bv32, b: bv32)
    requires Trailer(a) == Trailer(b)
    ensures a == b
  {
    var t, u := Trailer(a), Trailer(b);
    assert t[0] == u[0] && t[1] == u[1] && t[2] == u[2] && t[3] == u[3];
  }

  // ---------- the trailer as a number ----------

  function Octet(b: bv8): int { b as int }

  function Number(c: bv32): int { c as int }

  function Wide(b: bv8): bv32 { b as bv32 }

  // An octet in front of the bits that are set already.
  function Over8(a: bv32, c: bv32): bv32 { (a << 8) | c }

  function Over16(a: bv32, c: bv32): bv32 { (a << 16) | c }

  function Over24(a: bv32, c: bv32): bv32 { (a << 24) | c }

  lemma Counts8(a: bv32, c: bv32)
    requires a < 0x100 && c < 0x100
    ensures Number(Over8(a, c)) == Number(a) * 0x100 + Number(c) && Over8(a, c) < 0x1_0000
  {
  }

  lemma Counts16(a: bv32, c: bv32)
    requires a < 0x100 && c < 0x1_0000
    ensures Number(Over16(a, c)) == Number(a) * 0x1_0000 + Number(c) && Over16(a, c) < 0x100_0000
  {
  }

  lemma Counts24(a: bv32, c: bv32)
    requires a < 0x100 && c < 0x100_0000
    ensures Number(Over24(a, c)) == Number(a) * 0x100_0000 + Number(c)
  {
  }

  lemma WideCounts(b: bv8)
    ensures Wide(b) < 0x100 && Number(Wide(b)) == Octet(b)
  {
  }

  lemma SameOctet(a: bv8, b: bv8)
    requires Octet(a) == Octet(b)
    ensures a == b
  {
  }

  lemma OctetBound(b: bv8)
    ensures 0 <= Octet(b) < 256
  {
  }

  lemma Reassembled(c: bv32)
    ensures var t := Trailer(c);
            c == Over24(Wide(t[0]), Over16(Wide(t[1]), Over8(Wide(t[2]), Wide(t[3]))))
  {
  }

  // The four octets of the trailer, the most significant first, count the checksum.
  lemma TrailerCounts(c: bv32)
    ensures var t := Trailer(c);
            Octet(t[0]) * 0x100_0000 + Octet(t[1]) * 0x1_0000 + Octet(t[2]) * 0x100 + Octet(t[3]) == Number(c)
  {
    Reassembled(c);
    hide Trailer, Octet, Number, Wide, Over8, Over16, Over24;
    var t := Trailer(c);
    var a, b, d, e := Wide(t[0]), Wide(t[1]), Wide(t[2]), Wide(t[3]);
    WideCounts(t[0]);
    WideCounts(t[1]);
    WideCounts(t[2]);
    WideCounts(t[3]);
    Counts8(d, e);
    Counts16(b, Over8(d, e));
    Counts24(a, Over16(b, Over8(d, e)));
  }

  // And no other four do.
  lemma TrailerIff(t: octets, c: bv32)
    requires |t| == 4
    ensures t == Trailer(c) <==> Octet(t[0]) * 0x100_0000 + Octet(t[1]) * 0x1_0000 + Octet(t[2]) * 0x100 + Octet(t[3]) == Number(c)
  {
    TrailerCounts(c);
    hide Trailer, Octet, Number;
    if Octet(t[0]) * 0x100_0000 + Octet(t[1]) * 0x1_0000 + Octet(t[2]) * 0x100 + Octet(t[3]) == Number(c) {
      SameFour(t, Trailer(c));
    }
  }

  lemma SameFour(t: octets, u: octets)
    requires |t| == |u| == 4
    requires Octet(t[0]) * 0x100_0000 + Octet(t[1]) * 0x1_0000 + Octet(t[2]) * 0x100 + Octet(t[3])
          == Octet(u[0]) * 0x100_0000 + Octet(u[1]) * 0x1_0000 + Octet(u[2]) * 0x100 + Octet(u[3])
    ensures t == u
  {
    hide Octet;
    OctetBound(t[0]);
    OctetBound(t[1]);
    OctetBound(t[2]);
    OctetBound(t[3]);
    OctetBound(u[0]);
    OctetBound(u[1]);
    OctetBound(u[2]);
    OctetBound(u[3]);
    Digits(Octet(t[0]), Octet(t[1]), Octet(t[2]), Octet(t[3]), Octet(u[0]), Octet(u[1]), Octet(u[2]), Octet(u[3]));
    SameOctet(t[0], u[0]);
    SameOctet(t[1], u[1]);
    SameOctet(t[2], u[2]);
    SameOctet(t[3], u[3]);
  }

  lemma Digits(a0: int, a1: int, a2: int, a3: int, b0: int, b1: int, b2: int, b3: int)
    requires 0 <= a0 < 256 && 0 <= a1 < 256 && 0 <= a2 < 256 && 0 <= a3 < 256
    requires 0 <= b0 < 256 && 0 <= b1 < 256 && 0 <= b2 < 256 && 0 <= b3 < 256
    requires a0 * 0x100_0000 + a1 * 0x1_0000 + a2 * 0x100 + a3 == b0 * 0x100_0000 + b1 * 0x1_0000 + b2 * 0x100 + b3
    ensures a0 == b0 && a1 == b1 && a2 == b2 && a3 == b3
  {
  }

  // The check value of this checksum: that of the nine digits "123456789".
  lemma CheckValue()
    ensures var m: octets := [0x31, 0x32, 0x33, 0x34, 0x35, 0x36, 0x37, 0x38, 0x39];
            Reference(m) == 0xE306_9283 && Trailer(Reference(m)) == [0xE3, 0x06, 0x92, 0x83]
  {
    var m: octets := [0x31, 0x32, 0x33, 0x34, 0x35, 0x36, 0x37, 0x38, 0x39];
    FeedIsBitByBit(0xFFFF_FFFF, m);
    CheckSteps();
    hide Step, FeedBits, MessageBits;
    FeedStep(0xFFFF_FFFF, m, 0);
    FeedStep(0x6F0A_661C, m, 1);
    FeedStep(0x8CAA_3B9F, m, 2);
    FeedStep(0xEF84_D04D, m, 3);
    FeedStep(0x09C5_0B11, m, 4);
    FeedStep(0xE72E_DCCA, m, 5);
    FeedStep(0xBECA_8E79, m, 6);
    FeedStep(0xEDBD_6815, m, 7);
    FeedStep(0x9F78_7F65, m, 8);
    assert m[0..] == m && m[9..] == [];
    NothingFed(0x1CF9_6D7C);
    CheckTrailer();
  }

  lemma CheckTrailer()
    ensures (0x1CF9_6D7C as bv32) ^ 0xFFFF_FFFF == 0xE306_9283
    ensures Trailer(0xE306_9283) == [0xE3, 0x06, 0x92, 0x83]
  {
  }

  lemma NothingFed(c: bv32)
    ensures Feed(c, []) == c
  {
  }

  lemma FeedStep(c: bv32, m: octets, i: nat)
    requires i < |m|
    ensures Feed(c, m[i..]) == Feed(Step(c, m[i]), m[i + 1..])
  {
    hide Step;
    assert m[i..][1..] == m[i + 1..];
  }

  lemma CheckSteps()
    ensures Step(0xFFFF_FFFF, 0x31) == 0x6F0A_661C
    ensures Step(0x6F0A_661C, 0x32) == 0x8CAA_3B9F
    ensures Step(0x8CAA_3B9F, 0x33) == 0xEF84_D04D
    ensures Step(0xEF84_D04D, 0x34) == 0x09C5_0B11
    ensures Step(0x09C5_0B11, 0x35) == 0xE72E_DCCA
    ensures Step(0xE72E_DCCA, 0x36) == 0xBECA_8E79
    ensures Step(0xBECA_8E79, 0x37) == 0xEDBD_6815
    ensures Step(0xEDBD_6815, 0x38) == 0x9F78_7F65
    ensures Step(0x9F78_7F65, 0x39) == 0x1CF9_6D7C
  {
  }

  // csp_crc32_append; a null packet is None here.
  method Append(packet: Packet?, includeHeader: bool) returns (r: Result)
    requires packet != null ==> packet.Valid() && packet.length + 4 <= packet.data.Length
    modifies packet, if packet == null then {} else {packet.data}
    ensures packet == null ==> r == Invalid
    ensures packet != null ==>
              && r == None && packet.Valid() && packet.id == old(packet.id) && packet.data == old(packet.data)
              && packet.Payload() == old(packet.Payload()) + Trailer(Reference(old(packet.Covered(includeHeader, packet.length))))
              && packet.data[packet.length..] == old(packet.data[packet.length + 4..])
    ensures packet != null ==>
              var d, n := packet.data, old(packet.length);
              && packet.length == n + 4 && d[..n] == old(packet.data[..packet.length])
              && Octet(d[n]) * 0x100_0000 + Octet(d[n + 1]) * 0x1_0000 + Octet(d[n + 2]) * 0x100 + Octet(d[n + 3])
                 == Number(Reference((if includeHeader then old(packet.id) else []) + old(packet.data[..packet.length])))
  {
    if packet == null { return Invalid; }
    hide Trailer, Reference, Octet, Number;
    var crc := Memory((if includeHeader then packet.id else []) + packet.data[..packet.length]);
    var be := Trailer(crc);
    ghost var n, before := packet.length, packet.data[..];
    PutFour(packet.data, packet.length, be);
    packet.length := packet.length + 4;
    FourAfter(before, n, be, packet.data[..]);
    TrailerCounts(crc);
    return None;
  }

  // Four octets stored one after the other.
  method PutFour(data: array<bv8>, n: nat, be: octets)
    requires n + 4 <= data.Length && |be| == 4
    modifies data
    ensures data[..] == old(data[..])[..n] + be + old(data[..])[n + 4..]
  {
    forall k | 0 <= k < 4 { data[n + k] := be[k]; }
  }

  lemma FourAfter(before: octets, n: nat, be: octets, after: octets)
    requires n + 4 <= |before| && |be| == 4 && after == before[..n] + be + before[n + 4..]
    ensures after[..n + 4] == before[..n] + be && after[n + 4..] == before[n + 4..]
    ensures after[..n] == before[..n]
    ensures after[n] == be[0] && after[n + 1] == be[1] && after[n + 2] == be[2] && after[n + 3] == be[3]
  {
  }

  // A frame that csp_crc32_verify lets through, behind the header octets it covers.
  predicate Accepts(header: octets, frame: octets) {
    && |frame| >= 4
    && frame[|frame| - 4..] == Trailer(Reference(header + frame[..|frame| - 4]))
  }

  // csp_crc32_verify
  method Verify(packet: Packet?, includeHeader: bool) returns (r: Result)
    requires packet != null ==> packet.Valid()
    modifies packet
    ensures packet == null ==> r == Invalid
    ensures packet != null ==>
              && packet.Valid() && packet.id == old(packet.id) && packet.data == old(packet.data)
              && (r == None <==> Accepts(if includeHeader then old(packet.id) else [], old(packet.Payload())))
              && packet.length == (if r == None then old(packet.length) - 4 else old(packet.length))
    ensures packet != null ==>
              (r == None <==>
               && old(packet.length) >= 4
               && var d, n := packet.data, old(packet.length) - 4;
                  Octet(d[n]) * 0x100_0000 + Octet(d[n + 1]) * 0x1_0000 + Octet(d[n + 2]) * 0x100 + Octet(d[n + 3])
                  == Number(Reference((if includeHeader then old(packet.id) else []) + d[..n])))
  {
    hide Trailer, Reference, Octet, Number;
    if packet == null { return Invalid; }
    if packet.length < 4 { return Invalid; }
    var n := packet.length - 4;
    var crc := Memory((if includeHeader then packet.id else []) + packet.data[..n]);
    assert packet.data[..packet.length][..n] == packet.data[..n];
    assert packet.data[..packet.length][n..] == packet.data[n..packet.length];
    TrailerIff(packet.data[n..packet.length], crc);
    if packet.data[n..packet.length] != Trailer(crc) {
      return Invalid;
    } else {
      packet.length := n;
      return None;
    }
  }

  // Verifying what was appended succeeds and restores the packet.
  method AppendThenVerify(packet: Packet, includeHeader: bool) returns (r: Result)
    requires packet.Valid() && packet.length + 4 <= packet.data.Length
    modifies packet, packet.data
    ensures r == None && packet.Valid() && packet.Payload() == old(packet.Payload()) && packet.id == old(packet.id)
  {
    ghost var m, h := packet.Payload(), if includeHeader then packet.id else [];
    r := Append(packet, includeHeader);
    AppendedIsAccepted(h, m);
    ghost var frame := packet.Payload();
    r := Verify(packet, includeHeader);
    assert packet.Payload() == frame[..|m|] == m;
  }

  lemma AppendedIsAccepted(header: octets, m: octets)
    ensures Accepts(header, m + Trailer(Reference(header + m)))
  {
    hide Trailer, Reference;
    var frame := m + Trailer(Reference(header + m));
    assert frame[..|frame| - 4] == m && frame[|frame| - 4..] == Trailer(Reference(header + m));
  }

  // A frame that was correct is refused after any change within four consecutive octets of what
  // the checksum covers, header included, or within the trailer.
  lemma DamageIsDetected(before: octets, x: octets, y: octets, behind: octets, split: nat)
    requires |x| == |y| <= 4 && x != y && split <= |before + x + behind|
    ensures var good, bad := before + x + behind, before + y + behind;
            !Accepts(bad[..split], bad[split..] + Trailer(Reference(good[..split] + good[split..])))
  {
    var good, bad := before + x + behind, before + y + behind;
    assert good[..split] + good[split..] == good && bad[..split] + bad[split..] == bad;
    BurstChangesChecksum(before, x, y, behind);
    hide Reference, Trailer;
    if Trailer(Reference(good)) == Trailer(Reference(bad)) {
      TrailerInjective(Reference(good), Reference(bad));
      assert false;
    }
    var t := Trailer(Reference(good));
    var frame := bad[split..] + t;
    assert frame[..|frame| - 4] == bad[split..] && frame[|frame| - 4..] == t;
  }

  lemma TrailerDamageIsDetected(header: octets, m: octets, t: octets)
    requires |t| == 4 && t != Trailer(Reference(header + m))
    ensures !Accepts(header, m + t)
  {
    hide Trailer, Reference;
    assert (m + t)[..|m|] == m && (m + t)[|m|..] == t;
  }
}
