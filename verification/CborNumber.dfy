/**
 The CBOR number codec: the initial byte of a data item with its argument
 (sections 2 and 2.1 of RFC 7049).
 */
module CborNumber {
  import opened Bytes

  datatype Error =
    | NoError
    | UnknownLength
    | AdvancePastEOF
    | UnexpectedEOF
    | UnexpectedBreak
    | UnknownType
    | IllegalType
    | IllegalNumber
    | IllegalSimpleType
    | TooManyItems
    | TooFewItems
    | DataTooLarge
    | NestingTooDeep
    | OutOfMemory

  const UNSIGNED: nat := 0
  const NEGATIVE: nat := 1
  const BYTE_STRING: nat := 2
  const TEXT_STRING: nat := 3
  const ARRAY: nat := 4
  const MAP: nat := 5
  const TAG: nat := 6
  const SIMPLE: nat := 7

  const VALUE_8BIT := 24
  const VALUE_64BIT := 27
  const INDEFINITE := 31
  const BREAK_BYTE := 0xFF

  // Number of argument octets that follow the initial byte.
  function ArgBytes(info: nat): (k: nat)
    requires info <= VALUE_64BIT
  {
    if info < 24 then 0 else if info == 24 then 1 else if info == 25 then 2 else if info == 26 then 4 else 8
  }

  // The shortest additional information that can carry n.
  function ShortestInfo(n: nat): (info: nat)
    ensures info <= VALUE_64BIT
  {
    if n < 24 then n else if n <= 0xFF then 24 else if n <= 0xFFFF then 25 else if n <= 0xFFFF_FFFF then 26 else 27
  }

  // The reference encoding of major type `major` with argument n.
  function Head(major: nat, n: nat): (s: bytes)
    requires major < 8
    ensures 1 <= |s| <= 9
    ensures s[0] / 32 == major && s[0] % 32 == ShortestInfo(n) && s[0] != BREAK_BYTE
  {
    [major * 32 + ShortestInfo(n)] + ToBE(n, ArgBytes(ShortestInfo(n)))
  }

  datatype Number = Number(err: Error, value: nat, next: nat)

  // extract_number: the argument of the initial byte at p, bounded by `end`.
  function ExtractNumber(data: bytes, p: nat, end: nat): (r: Number)
    requires p < end <= |data|
    ensures p < r.next <= end
    ensures r.err.NoError? ==> r.value <= UINT64_MAX
    ensures r.err.NoError? <==> data[p] % 32 <= VALUE_64BIT && p + 1 + ArgBytes(data[p] % 32) <= end
    ensures r.err.NoError? ==> r.next == p + 1 + ArgBytes(data[p] % 32)
  {
    var info := data[p] % 32;
    if info < VALUE_8BIT then Number(NoError, info, p + 1)
    else if info > VALUE_64BIT then Number(IllegalNumber, 0, p + 1)
    else if ArgBytes(info) > end - (p + 1) then Number(UnexpectedEOF, 0, p + 1)
    else
      Pow256Values();
      Number(NoError, FromBE(data[p + 1..p + 1 + ArgBytes(info)]), p + 1 + ArgBytes(info))
  }

  // The number that k octets at p hold, the most significant first.
  function Octets(data: bytes, p: nat, k: nat): nat
    requires k == 2 || k == 4 || k == 8
    requires p + k <= |data|
  {
    match k
    case 2 => data[p] as int * 0x100 + data[p + 1]
    case 4 => data[p] as int * 0x100_0000 + data[p + 1] as int * 0x1_0000 + data[p + 2] as int * 0x100 + data[p + 3]
    case _ => data[p] as int * 0x100_0000_0000_0000 + data[p + 1] as int * 0x1_0000_0000_0000 + data[p + 2] as int * 0x100_0000_0000
              + data[p + 3] as int * 0x1_0000_0000 + data[p + 4] as int * 0x100_0000 + data[p + 5] as int * 0x1_0000 + data[p + 6] as int * 0x100 + data[p + 7]
  }

  lemma SliceOctets(data: bytes, p: nat, k: nat)
    requires k == 2 || k == 4 || k == 8
    requires p + k <= |data|
    ensures FromBE(data[p..p + k]) == Octets(data, p, k)
  {
    PlaceValues(data[p..p + k]);
  }

  // What stands behind an initial byte, in octets: up to 23 the number itself, then exactly one,
  // two, four or eight octets of it behind 24, 25, 26 and 27, and 28 to 31 are no numbers.
  lemma OctetsBehind(data: bytes, p: nat, end: nat)
    requires p < end <= |data|
    ensures var info, r := data[p] % 32, ExtractNumber(data, p, end);
            && (info < 24 ==> r == Number(NoError, info, p + 1))
            && (info == 24 ==> r == if p + 2 <= end then Number(NoError, data[p + 1], p + 2) else Number(UnexpectedEOF, 0, p + 1))
            && (info == 25 ==> r == if p + 3 <= end then Number(NoError, Octets(data, p + 1, 2), p + 3) else Number(UnexpectedEOF, 0, p + 1))
            && (info == 26 ==> r == if p + 5 <= end then Number(NoError, Octets(data, p + 1, 4), p + 5) else Number(UnexpectedEOF, 0, p + 1))
            && (info == 27 ==> r == if p + 9 <= end then Number(NoError, Octets(data, p + 1, 8), p + 9) else Number(UnexpectedEOF, 0, p + 1))
            && (info > 27 ==> r == Number(IllegalNumber, 0, p + 1))
  {
    hide FromBE, Octets;
    var info := data[p] % 32;
    if info == 24 && p + 2 <= end { OneOctet(data[p + 1..p + 2]); }
    if info == 25 && p + 3 <= end { SliceOctets(data, p + 1, 2); }
    if info == 26 && p + 5 <= end { SliceOctets(data, p + 1, 4); }
    if info == 27 && p + 9 <= end { SliceOctets(data, p + 1, 8); }
  }

  // The octets a head is written as: the five forms of section 2.1 of RFC 7049.
  lemma OctetsOfHead(major: nat, n: nat)
    requires major < 8 && n <= 0xFFFF_FFFF_FFFF_FFFF
    ensures var h := Head(major, n);
            if n < 24 then h == [0x20 * major + n]
            else if n <= 0xFF then h == [0x20 * major + 24, n]
            else if n <= 0xFFFF then |h| == 3 && h[0] == 0x20 * major + 25 && Octets(h, 1, 2) == n
            else if n <= 0xFFFF_FFFF then |h| == 5 && h[0] == 0x20 * major + 26 && Octets(h, 1, 4) == n
            else |h| == 9 && h[0] == 0x20 * major + 27 && Octets(h, 1, 8) == n
  {
    hide ToBE, FromBE, Octets;
    var h, k := Head(major, n), ArgBytes(ShortestInfo(n));
    if k > 0 {
      Pow256Values();
      FromToBE(n, k);
      assert h[1..1 + k] == ToBE(n, k);
      if k == 1 { OneOctet(h[1..2]); } else { SliceOctets(h, 1, k); }
    }
  }

  // extract_number undoes the reference head, wherever it stands in the stream.
  lemma ExtractUndoesHead(data: bytes, p: nat, end: nat, major: nat, n: nat)
    requires major < 8 && n <= UINT64_MAX
    requires p + |Head(major, n)| <= end <= |data|
    requires data[p..p + |Head(major, n)|] == Head(major, n)
    ensures ExtractNumber(data, p, end) == Number(NoError, n, p + |Head(major, n)|)
    ensures data[p] / 32 == major
  {
    var h := Head(major, n);
    var k := ArgBytes(ShortestInfo(n));
    assert data[p] == h[0] by { assert data[p..p + |h|][0] == data[p]; }
    assert data[p + 1..p + 1 + k] == h[1..] by {
      assert data[p..p + |h|][1..] == data[p + 1..p + 1 + k];
    }
    assert h[1..] == ToBE(n, k);
    if k > 0 {
      Pow256Values();
      FromToBE(n, k);
    }
  }

  // No shorter form exists: any head that carries n has at least as many octets.
  lemma HeadIsShortest(data: bytes, p: nat, end: nat, major: nat, n: nat)
    requires major < 8 && p < end <= |data|
    requires ExtractNumber(data, p, end).err.NoError? && ExtractNumber(data, p, end).value == n
    ensures |Head(major, n)| <= ExtractNumber(data, p, end).next - p
  {
    Pow256Values();
  }
}
