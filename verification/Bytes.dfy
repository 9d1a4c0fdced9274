/** Octets and big-endian numbers, shared by the CBOR and CSP models. */
module Bytes {
  type byte = x: int | 0 <= x < 256
  type bytes = seq<byte>

  const UINT32_MAX := 0xFFFF_FFFF
  const UINT64_MAX := 0xFFFF_FFFF_FFFF_FFFF
  const INT64_MAX := 0x7FFF_FFFF_FFFF_FFFF
  const INT32_MAX := 0x7FFF_FFFF

  // size_t is modelled at 64 bits.
  const SIZE_MAX := UINT64_MAX

  function Pow256(k: nat): (r: nat)
    ensures r > 0
  {
    if k == 0 then 1 else 256 * Pow256(k - 1)
  }

  // The number whose big-endian representation is s.
  function FromBE(s: bytes): (n: nat)
    ensures n < Pow256(|s|)
  {
    if |s| == 0 then 0 else FromBE(s[..|s| - 1]) * 256 + s[|s| - 1]
  }

  // The k low-order octets of n, most significant first.
  function ToBE(n: nat, k: nat): (s: bytes)
    ensures |s| == k
  {
    if k == 0 then [] else ToBE(n / 256, k - 1) + [n % 256]
  }

  lemma {:induction false} FromToBE(n: nat, k: nat)
    requires n < Pow256(k)
    ensures FromBE(ToBE(n, k)) == n
  {
    if k > 0 {
      FromToBE(n / 256, k - 1);
      assert ToBE(n, k)[..k - 1] == ToBE(n / 256, k - 1);
    }
  }

  lemma {:induction false} ToFromBE(s: bytes)
    ensures ToBE(FromBE(s), |s|) == s
  {
    if |s| > 0 {
      ToFromBE(s[..|s| - 1]);
    }
  }

  lemma Pow256Values()
    ensures Pow256(1) == 0x100 && Pow256(2) == 0x1_0000
    ensures Pow256(4) == 0x1_0000_0000 && Pow256(8) == 0x1_0000_0000_0000_0000
  {
    assert Pow256(3) == 0x100_0000;
    assert Pow256(5) == 0x100_0000_0000;
    assert Pow256(6) == 0x1_0000_0000_0000;
    assert Pow256(7) == 0x100_0000_0000_0000;
  }

  // s with w written over it from position at on.
  function Overwrite(s: bytes, at: nat, w: bytes): (r: bytes)
    requires at + |w| <= |s|
    ensures |r| == |s|
  {
    s[..at] + w + s[at + |w|..]
  }

  // What the octets of a number count, by their place.
  lemma PlaceValues(s: bytes)
    ensures |s| == 2 ==> FromBE(s) == s[0] as int * 0x100 + s[1]
    ensures |s| == 4 ==> FromBE(s) == s[0] as int * 0x100_0000 + s[1] as int * 0x1_0000 + s[2] as int * 0x100 + s[3]
    ensures |s| == 8 ==>
              FromBE(s) == s[0] as int * 0x100_0000_0000_0000 + s[1] as int * 0x1_0000_0000_0000 + s[2] as int * 0x100_0000_0000 + s[3] as int * 0x1_0000_0000
                           + s[4] as int * 0x100_0000 + s[5] as int * 0x1_0000 + s[6] as int * 0x100 + s[7]
  {
    if |s| == 2 {
      OneMore(s);
      OneMore(s[..1]);
    } else if |s| == 4 {
      FourMore(s);
    } else if |s| == 8 {
      FourMore(s);
      FourMore(s[..4]);
    }
  }

  lemma OneMore(s: bytes)
    requires |s| > 0
    ensures FromBE(s) == FromBE(s[..|s| - 1]) * 256 + s[|s| - 1]
    ensures |s| == 1 ==> FromBE(s) == s[0]
  {
  }

  lemma OneOctet(s: bytes)
    requires |s| == 1
    ensures FromBE(s) == s[0]
  {
    OneMore(s);
  }

  lemma TwoMore(s: bytes)
    requires |s| >= 2
    ensures var n := |s| - 2; FromBE(s) == FromBE(s[..n]) * 0x1_0000 + s[n] as int * 0x100 + s[n + 1]
  {
    hide FromBE;
    var n := |s| - 2;
    OneMore(s);
    OneMore(s[..n + 1]);
    assert s[..n + 1][..n] == s[..n];
  }

  lemma FourMore(s: bytes)
    requires |s| >= 4
    ensures var n := |s| - 4;
            FromBE(s) == FromBE(s[..n]) * 0x1_0000_0000 + s[n] as int * 0x100_0000 + s[n + 1] as int * 0x1_0000 + s[n + 2] as int * 0x100 + s[n + 3]
    ensures FromBE([]) == 0 && (|s| == 4 ==> s[..0] == [])
  {
    hide FromBE;
    var n := |s| - 4;
    TwoMore(s);
    TwoMore(s[..n + 2]);
    assert s[..n + 2][..n] == s[..n];
    NoOctets();
  }

  lemma NoOctets()
    ensures FromBE([]) == 0
  {
  }

  // The octets of a text in ASCII.
  function Ascii(t: string): (s: bytes)
    ensures |s| == |t| && forall i :: 0 <= i < |t| ==> s[i] == t[i] as int % 256
  {
    seq(|t|, i requires 0 <= i < |t| => t[i] as int % 256)
  }

  lemma OneLetter(c: char)
    requires c as int < 256
    ensures Ascii([c]) == [c as int]
  {
    assert Ascii([c])[0] == c as int;
  }

  lemma TwoLetters(c: char, d: char)
    requires c as int < 256 && d as int < 256
    ensures Ascii([c, d]) == [c as int, d as int]
  {
    assert Ascii([c, d])[0] == c as int && Ascii([c, d])[1] == d as int;
  }
}
