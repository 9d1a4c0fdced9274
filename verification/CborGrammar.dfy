/**
 Reference semantics of the CBOR format, independent of the streaming parser:
 item trees, their reference encoding, and the well-formedness grammar of
 section 2 of RFC 7049 as a recursive-descent reader.
 */
module CborGrammar {
  import opened Bytes
  import opened CborNumber

  // Map entries alternate keys and values. Floats are opaque bit patterns of 2, 4 or 8 octets.
  datatype Item =
    | Integer(negative: bool, arg: nat)
    | Str(text: bool, s: bytes)
    | Array(indefinite: bool, items: seq<Item>)
    | Map(indefinite: bool, entries: seq<Item>)
    | Tagged(tag: nat, content: Item)
    | Simple(v: nat)
    | Float(info: nat, bits: nat)

  function Enc(x: Item): (s: bytes)
    ensures |s| > 0 && s[0] != BREAK_BYTE
    decreases x, 0
  {
    match x
    case Integer(neg, n) => Head(if neg then NEGATIVE else UNSIGNED, n)
    case Str(text, s) => Head(if text then TEXT_STRING else BYTE_STRING, |s|) + s
    case Array(indef, xs) => ContainerBytes(ARRAY, |xs|, indef, xs)
    case Map(indef, xs) => ContainerBytes(MAP, |xs| / 2, indef, xs)
    case Tagged(t, y) => Head(TAG, t) + Enc(y)
    case Simple(v) => Head(SIMPLE, v)
    case Float(info, bits) =>
      var i := if 25 <= info <= 27 then info else 25;
      [SIMPLE * 32 + i] + ToBE(bits, ArgBytes(i))
  }

  function ContainerBytes(major: nat, count: nat, indef: bool, xs: seq<Item>): (s: bytes)
    requires major == ARRAY || major == MAP
    ensures |s| > 0 && s[0] != BREAK_BYTE
    decreases xs, 2
  {
    if indef then [major * 32 + INDEFINITE] + EncAll(xs) + [BREAK_BYTE] else Head(major, count) + EncAll(xs)
  }

  function EncAll(xs: seq<Item>): (s: bytes)
    ensures |xs| > 0 ==> |s| > 0 && s[0] != BREAK_BYTE
    decreases xs, 1
  {
    if |xs| == 0 then [] else Enc(xs[0]) + EncAll(xs[1..])
  }

  // The initial bytes of section 2.1 of RFC 7049, and what follows them.
  lemma InitialBytes(x: Item)
    ensures match x
            case Integer(neg, n) => Enc(x) == Head(if neg then 1 else 0, n)
            case Str(text, s) => Enc(x) == Head(if text then 3 else 2, |s|) + s
            case Array(indef, xs) => Enc(x) == if indef then [0x9F] + EncAll(xs) + [0xFF] else Head(4, |xs|) + EncAll(xs)
            case Map(indef, xs) => Enc(x) == if indef then [0xBF] + EncAll(xs) + [0xFF] else Head(5, |xs| / 2) + EncAll(xs)
            case Tagged(t, y) => Enc(x) == Head(6, t) + Enc(y)
            case Simple(v) => Enc(x) == Head(7, v)
            case Float(info, bits) =>
              && (info == 25 ==> Enc(x) == [0xF9] + ToBE(bits, 2))
              && (info == 26 ==> Enc(x) == [0xFA] + ToBE(bits, 4))
              && (info == 27 ==> Enc(x) == [0xFB] + ToBE(bits, 8))
  {
    hide Head, ToBE, EncAll;
  }

  // The items CBOR can represent (64-bit arguments, simple values 0..23 and 32..255).
  predicate Encodable(x: Item)
    decreases x, 0
  {
    match x
    case Integer(_, n) => n <= UINT64_MAX
    case Str(_, s) => |s| <= UINT64_MAX
    case Array(_, xs) => |xs| <= UINT64_MAX && AllEncodable(xs)
    case Map(_, xs) => |xs| % 2 == 0 && |xs| / 2 <= UINT64_MAX && AllEncodable(xs)
    case Tagged(t, y) => t <= UINT64_MAX && Encodable(y)
    case Simple(v) => v < 24 || 32 <= v < 256
    case Float(info, bits) => 25 <= info <= 27 && bits < Pow256(ArgBytes(info))
  }

  predicate AllEncodable(xs: seq<Item>)
    decreases xs, 1
  {
    |xs| == 0 || (Encodable(xs[0]) && AllEncodable(xs[1..]))
  }

  datatype Parsed<T> = Malformed | Parsed(value: T, next: nat)

  // One well-formed data item at p.
  function ParseItem(data: bytes, p: nat): (r: Parsed<Item>)
    requires p <= |data|
    ensures r.Parsed? ==> p < r.next <= |data|
    decreases |data| - p, 0
  {
    if p == |data| then Malformed
    else
      var major, info := data[p] / 32, data[p] % 32;
      if info == INDEFINITE then ParseIndefinite(data, p)
      else
        var n := ExtractNumber(data, p, |data|);
        if !n.err.NoError? then Malformed
        else if major <= NEGATIVE then Parsed(Integer(major == NEGATIVE, n.value), n.next)
        else if major <= TEXT_STRING then
          if n.value <= |data| - n.next then
            Parsed(Str(major == TEXT_STRING, data[n.next..n.next + n.value]), n.next + n.value)
          else Malformed
        else if major == ARRAY then
          var r := ParseCount(data, n.next, n.value);
          if r.Parsed? then Parsed(Array(false, r.value), r.next) else Malformed
        else if major == MAP then
          var r := ParseCount(data, n.next, 2 * n.value);
          if r.Parsed? then Parsed(Map(false, r.value), r.next) else Malformed
        else if major == TAG then
          var r := ParseItem(data, n.next);
          if r.Parsed? then Parsed(Tagged(n.value, r.value), r.next) else Malformed
        else if info < 24 then Parsed(Simple(info), n.next)
        else if info > 24 then Parsed(Float(info, n.value), n.next)
        else if n.value >= 32 then Parsed(Simple(n.value), n.next)
        else Malformed
  }

  function ParseIndefinite(data: bytes, p: nat): (r: Parsed<Item>)
    requires p < |data|
    ensures r.Parsed? ==> p < r.next <= |data|
    decreases |data| - p - 1, 2
  {
    var major := data[p] / 32;
    if major == BYTE_STRING || major == TEXT_STRING then
      var r := ParseChunks(data, p + 1, major);
      if r.Parsed? then Parsed(Str(major == TEXT_STRING, r.value), r.next) else Malformed
    else if major == ARRAY || major == MAP then
      var r := ParseUntilBreak(data, p + 1);
      if r.Malformed? then Malformed
      else if major == ARRAY then Parsed(Array(true, r.value), r.next)
      else if |r.value| % 2 == 0 then Parsed(Map(true, r.value), r.next)
      else Malformed
    else Malformed
  }

  // The concatenation of the chunks from p up to the break (section 2.2.2 of RFC 7049).
  function ParseChunks(data: bytes, p: nat, major: nat): (r: Parsed<bytes>)
    requires p <= |data|
    ensures r.Parsed? ==> p < r.next <= |data|
    decreases |data| - p, 0
  {
    if p == |data| then Malformed
    else if data[p] == BREAK_BYTE then Parsed([], p + 1)
    else
      var n := ExtractNumber(data, p, |data|);
      if data[p] / 32 != major || !n.err.NoError? || n.value > |data| - n.next then Malformed
      else
        var r := ParseChunks(data, n.next + n.value, major);
        if r.Parsed? then Parsed(data[n.next..n.next + n.value] + r.value, r.next) else Malformed
  }

  // Exactly n items from p.
  function ParseCount(data: bytes, p: nat, n: nat): (r: Parsed<seq<Item>>)
    requires p <= |data|
    ensures r.Parsed? ==> p <= r.next <= |data| && |r.value| == n && (n > 0 ==> p < r.next)
    decreases |data| - p, 1
  {
    if n == 0 then Parsed([], p)
    else
      var x := ParseItem(data, p);
      if x.Malformed? then Malformed
      else
        var r := ParseCount(data, x.next, n - 1);
        if r.Parsed? then Parsed([x.value] + r.value, r.next) else Malformed
  }

  // Items from p up to the break, which is consumed.
  function ParseUntilBreak(data: bytes, p: nat): (r: Parsed<seq<Item>>)
    requires p <= |data|
    ensures r.Parsed? ==> p < r.next <= |data|
    decreases |data| - p, 1
  {
    if p == |data| then Malformed
    else if data[p] == BREAK_BYTE then Parsed([], p + 1)
    else
      var x := ParseItem(data, p);
      if x.Malformed? then Malformed
      else
        var r := ParseUntilBreak(data, x.next);
        if r.Parsed? then Parsed([x.value] + r.value, r.next) else Malformed
  }

  // `s` stands at position p of the stream.
  predicate At(data: bytes, p: nat, s: bytes) {
    p + |s| <= |data| && data[p..p + |s|] == s
  }

  lemma AtSplit(data: bytes, p: nat, s: bytes, t: bytes)
    requires At(data, p, s + t)
    ensures At(data, p, s) && At(data, p + |s|, t)
  {
    assert data[p..p + |s|] == data[p..p + |s + t|][..|s|];
    assert data[p + |s|..p + |s + t|] == data[p..p + |s + t|][|s|..];
  }

  lemma AtFirst(data: bytes, p: nat, s: bytes)
    requires |s| > 0 && At(data, p, s)
    ensures p < |data| && data[p] == s[0]
  {
    assert data[p..p + |s|][0] == data[p];
  }

  lemma ParseUndoesInteger(data: bytes, p: nat, neg: bool, n: nat)
    requires n <= UINT64_MAX && At(data, p, Enc(Integer(neg, n)))
    ensures ParseItem(data, p) == Parsed(Integer(neg, n), p + |Enc(Integer(neg, n))|)
  {
    ExtractUndoesHead(data, p, |data|, if neg then NEGATIVE else UNSIGNED, n);
  }

  lemma ParseUndoesSimple(data: bytes, p: nat, v: nat)
    requires Encodable(Simple(v)) && At(data, p, Enc(Simple(v)))
    ensures ParseItem(data, p) == Parsed(Simple(v), p + |Enc(Simple(v))|)
  {
    ExtractUndoesHead(data, p, |data|, SIMPLE, v);
  }

  lemma ParseUndoesString(data: bytes, p: nat, text: bool, s: bytes)
    requires |s| <= UINT64_MAX && At(data, p, Enc(Str(text, s)))
    ensures ParseItem(data, p) == Parsed(Str(text, s), p + |Enc(Str(text, s))|)
  {
    var major := if text then TEXT_STRING else BYTE_STRING;
    AtSplit(data, p, Head(major, |s|), s);
    ExtractUndoesHead(data, p, |data|, major, |s|);
  }

  lemma ParseUndoesFloat(data: bytes, p: nat, info: nat, bits: nat)
    requires Encodable(Float(info, bits)) && At(data, p, Enc(Float(info, bits)))
    ensures ParseItem(data, p) == Parsed(Float(info, bits), p + |Enc(Float(info, bits))|)
  {
    var k := ArgBytes(info);
    AtSplit(data, p, [SIMPLE * 32 + info], ToBE(bits, k));
    AtFirst(data, p, [SIMPLE * 32 + info]);
    FromToBE(bits, k);
  }

  // The rules for tags and for containers, on their own.
  lemma TaggedItem(data: bytes, p: nat)
    requires p < |data| && data[p] / 32 == TAG && ExtractNumber(data, p, |data|).err.NoError?
    ensures var n := ExtractNumber(data, p, |data|);
            var r := ParseItem(data, n.next);
            ParseItem(data, p) == if r.Parsed? then Parsed(Tagged(n.value, r.value), r.next) else Malformed
  {
    hide ParseCount, ParseUntilBreak, ParseChunks;
  }

  lemma ParseContainer(data: bytes, p: nat)
    requires p < |data| && (data[p] / 32 == ARRAY || data[p] / 32 == MAP)
    ensures data[p] % 32 == INDEFINITE ==>
              var r := ParseUntilBreak(data, p + 1);
              ParseItem(data, p) ==
              if !r.Parsed? || (data[p] / 32 == MAP && |r.value| % 2 != 0) then Malformed
              else Parsed(if data[p] / 32 == ARRAY then Array(true, r.value) else Map(true, r.value), r.next)
    ensures data[p] % 32 != INDEFINITE && ExtractNumber(data, p, |data|).err.NoError? ==>
              var n := ExtractNumber(data, p, |data|);
              var r := ParseCount(data, n.next, if data[p] / 32 == MAP then 2 * n.value else n.value);
              ParseItem(data, p) ==
              if !r.Parsed? then Malformed
              else Parsed(if data[p] / 32 == ARRAY then Array(false, r.value) else Map(false, r.value), r.next)
  {
    hide ParseCount, ParseUntilBreak, ParseChunks;
  }

  lemma ParseUndoesTag(data: bytes, p: nat, t: nat, y: Item)
    requires t <= UINT64_MAX && At(data, p, Head(TAG, t) + Enc(y))
    ensures At(data, p + |Head(TAG, t)|, Enc(y))
    ensures ParseItem(data, p + |Head(TAG, t)|) == Parsed(y, p + |Head(TAG, t)| + |Enc(y)|) ==>
              ParseItem(data, p) == Parsed(Tagged(t, y), p + |Head(TAG, t)| + |Enc(y)|)
  {
    hide ParseItem, Enc, Head, ExtractNumber;
    AtSplit(data, p, Head(TAG, t), Enc(y));
    ExtractUndoesHead(data, p, |data|, TAG, t);
    TaggedItem(data, p);
  }

  lemma ParseUndoesDefinite(data: bytes, p: nat, major: nat, count: nat, xs: seq<Item>)
    requires major == ARRAY || major == MAP
    requires count <= UINT64_MAX && |xs| == (if major == MAP then 2 * count else count)
    requires At(data, p, Head(major, count) + EncAll(xs))
    ensures At(data, p + |Head(major, count)|, EncAll(xs))
    ensures ParseCount(data, p + |Head(major, count)|, |xs|) == Parsed(xs, p + |Head(major, count)| + |EncAll(xs)|) ==>
              ParseItem(data, p) == Parsed(if major == MAP then Map(false, xs) else Array(false, xs),
                                           p + |Head(major, count)| + |EncAll(xs)|)
  {
    hide ParseItem, EncAll, Head, ExtractNumber;
    AtSplit(data, p, Head(major, count), EncAll(xs));
    ExtractUndoesHead(data, p, |data|, major, count);
    ParseContainer(data, p);
  }

  lemma ParseUndoesIndefinite(data: bytes, p: nat, major: nat, xs: seq<Item>)
    requires major == ARRAY || (major == MAP && |xs| % 2 == 0)
    requires At(data, p, [major * 32 + INDEFINITE] + EncAll(xs) + [BREAK_BYTE])
    ensures At(data, p + 1, EncAll(xs)) && At(data, p + 1 + |EncAll(xs)|, [BREAK_BYTE])
    ensures ParseUntilBreak(data, p + 1) == Parsed(xs, p + 1 + |EncAll(xs)| + 1) ==>
              ParseItem(data, p) == Parsed(if major == MAP then Map(true, xs) else Array(true, xs), p + 1 + |EncAll(xs)| + 1)
  {
    hide ParseItem, EncAll;
    AtSplit(data, p, [major * 32 + INDEFINITE] + EncAll(xs), [BREAK_BYTE]);
    AtSplit(data, p, [major * 32 + INDEFINITE], EncAll(xs));
    AtFirst(data, p, [major * 32 + INDEFINITE]);
    ParseContainer(data, p);
  }

  // The grammar reads back the reference encoding of every representable item, anywhere in a stream.
  lemma {:induction false} ParseUndoesEnc(data: bytes, p: nat, x: Item)
    requires Encodable(x) && At(data, p, Enc(x))
    ensures ParseItem(data, p) == Parsed(x, p + |Enc(x)|)
    decreases x, 0
  {
    hide ParseItem;
    match x
    case Integer(neg, n) => ParseUndoesInteger(data, p, neg, n);
    case Str(text, s) => ParseUndoesString(data, p, text, s);
    case Simple(v) => ParseUndoesSimple(data, p, v);
    case Float(info, bits) => ParseUndoesFloat(data, p, info, bits);
    case Tagged(t, y) =>
      ParseUndoesTag(data, p, t, y);
      ParseUndoesEnc(data, p + |Head(TAG, t)|, y);
    case Array(indef, xs) => ParseUndoesContainer(data, p, ARRAY, |xs|, indef, xs);
    case Map(indef, xs) => ParseUndoesContainer(data, p, MAP, |xs| / 2, indef, xs);
  }

  lemma {:induction false} ParseUndoesContainer(data: bytes, p: nat, major: nat, count: nat, indef: bool, xs: seq<Item>)
    requires major == ARRAY || major == MAP
    requires count <= UINT64_MAX && |xs| == (if major == MAP then 2 * count else count) && AllEncodable(xs)
    requires At(data, p, ContainerBytes(major, count, indef, xs))
    ensures ParseItem(data, p) == Parsed(if major == MAP then Map(indef, xs) else Array(indef, xs),
                                         p + |ContainerBytes(major, count, indef, xs)|)
    decreases xs, 2
  {
    hide ParseItem, ParseCount, ParseUntilBreak;
    if indef {
      ParseUndoesIndefinite(data, p, major, xs);
      ParseUndoesEncAll(data, p + 1, xs, true);
    } else {
      ParseUndoesDefinite(data, p, major, count, xs);
      ParseUndoesEncAll(data, p + |Head(major, count)|, xs, false);
    }
  }

  lemma {:induction false} ParseUndoesEncAll(data: bytes, p: nat, xs: seq<Item>, indef: bool)
    requires AllEncodable(xs) && At(data, p, EncAll(xs))
    requires indef ==> At(data, p + |EncAll(xs)|, [BREAK_BYTE])
    ensures !indef ==> ParseCount(data, p, |xs|) == Parsed(xs, p + |EncAll(xs)|)
    ensures indef ==> ParseUntilBreak(data, p) == Parsed(xs, p + |EncAll(xs)| + 1)
    decreases xs, 1
  {
    hide ParseItem, Enc;
    if |xs| == 0 {
      if indef { AtFirst(data, p, [BREAK_BYTE]); }
    } else {
      AtSplit(data, p, Enc(xs[0]), EncAll(xs[1..]));
      AtFirst(data, p, Enc(xs[0]));
      ParseUndoesEnc(data, p, xs[0]);
      ParseUndoesEncAll(data, p + |Enc(xs[0])|, xs[1..], indef);
      assert [xs[0]] + xs[1..] == xs;
    }
  }
}
