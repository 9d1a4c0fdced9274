/**
 The recursive-descent parser of ccan/json.  A cursor is a position in the text; positions
 run up to the NUL behind it.  With `keep` false nothing is built, as when json_validate
 passes no place for the result.
 */
module JsonParser {
  import opened Bytes
  import opened Utf8
  import opened JsonString
  import opened Json
  import opened JsonBuffer
  import opened JsonNodes
  import opened JsonTree
  import JsonRoundTrip

  // A parser at p that says r of the text from there on.
  ghost predicate Says<T>(r: Lex<T>, s: bytes, p: nat, ok: bool, next: nat) {
    && (ok <==> r.Good?)
    && (ok ==> p < next <= |s| && s[next..] == r.rest)
  }

  lemma From(s: bytes, p: nat, k: nat)
    requires p + k <= |s|
    ensures s[p..][k..] == s[p + k..]
    ensures k > 0 ==> s[p..][k - 1] == s[p + k - 1]
  {
  }

  // skip_space
  method SkipSpaceAt(s: bytes, p: nat) returns (next: nat)
    requires p <= |s|
    ensures p <= next <= |s| && s[next..] == SkipSpace(s[p..])
  {
    next := p;
    while IsSpace(Peek(s, next))
      invariant p <= next <= |s| && SkipSpace(s[next..]) == SkipSpace(s[p..])
      decreases |s| - next
    {
      From(s, next, 1);
      next := next + 1;
    }
  }

  // expect_literal
  method ExpectLiteral(s: bytes, p: nat, literal: bytes) returns (ok: bool, next: nat)
    requires p <= |s| && 0 !in literal
    ensures ok <==> literal <= s[p..]
    ensures ok ==> next == p + |literal|
  {
    var i := 0;
    next := p;
    while i < |literal|
      invariant i <= |literal| && next == p + i <= |s| && literal[..i] == s[p..next]
    {
      if Peek(s, next) != literal[i] {
        assert next < |s| ==> s[p..][i] != literal[i];
        return false, p;
      }
      next, i := next + 1, i + 1;
    }
    assert literal[..|literal|] == literal;
    ok := true;
  }

  // parse_hex16; the number is kept in 16 bits.
  method ParseHex16At(s: bytes, p: nat) returns (ok: bool, next: nat, out: nat)
    requires p <= |s|
    ensures Says(ParseHex16(s[p..]), s, p, ok, next)
    ensures ok ==> out == ParseHex16(s[p..]).value
  {
    hide HexValue;
    out, next := 0, p;
    var i := 0;
    while i < 4
      invariant i <= 4 && p + i == next <= |s|
      invariant ParseHex(s[next..], 4 - i, out) == ParseHex16(s[p..])
      invariant out < (if i == 0 then 1 else if i == 1 then 16 else if i == 2 then 256 else if i == 3 then 4096 else 0x1_0000)
    {
      match HexValue(Peek(s[next..], 0))
      case NoDigit =>
        return false, p, 0;
      case Digit(v) =>
        NoDigitIsNul(s[next..]);
        From(s, next, 1);
        out := (out * 16 % 0x1_0000 + v) % 0x1_0000;
        next, i := next + 1, i + 1;
    }
    ok := true;
  }

  lemma NoDigitIsNul(s: bytes)
    ensures HexValue(Peek(s, 0)).Digit? ==> |s| > 0
  {
  }

  // utf8_write_char, at target[b]
  method WriteCharAt(target: array<byte>, b: nat, u: nat) returns (b': nat)
    requires Scalar(u) && b + 4 <= target.Length
    modifies target
    ensures b' == b + |WriteChar(u)| && target[..b'] == old(target[..b]) + WriteChar(u)
  {
    hide Scalar;
    if u <= 0x7F {
      target[b] := u;
      b' := b + 1;
    } else if u <= 0x7FF {
      target[b] := 0xC0 + u / 64;
      target[b + 1] := 0x80 + u % 64;
      b' := b + 2;
    } else if u <= 0xFFFF {
      target[b] := 0xE0 + u / 4096;
      target[b + 1] := 0x80 + u / 64 % 64;
      target[b + 2] := 0x80 + u % 64;
      b' := b + 3;
    } else {
      ScalarBound(u);
      target[b] := 0xF0 + u / 0x4_0000;
      target[b + 1] := 0x80 + u / 4096 % 64;
      target[b + 2] := 0x80 + u / 64 % 64;
      target[b + 3] := 0x80 + u % 64;
      b' := b + 4;
    }
  }

  lemma ScalarBound(u: nat)
    requires Scalar(u)
    ensures u / 0x4_0000 < 5
  {
  }

  // The escape \u, from behind the u.
  method ParseUnicodeAt(s: bytes, p: nat, target: array<byte>, b: nat) returns (ok: bool, next: nat, b': nat)
    requires p <= |s| && b + 4 <= target.Length
    modifies target
    ensures var r := ParseUnicode(s[p..]);
            && Says(r, s, p, ok, next)
            && (ok ==> b' == b + |r.value| && target[..b'] == old(target[..b]) + r.value)
  {
    hide ParseHex16, WriteChar, FromSurrogatePair;
    Hex16Bounds(s[p..]);
    b' := b;
    var uc;
    ok, next, uc := ParseHex16At(s, p);
    if !ok { return; }
    var unicode := uc;
    if 0xD800 <= uc <= 0xDFFF {
      ok := false;
      if Peek(s, next) != BACKSLASH { return; }
      if Peek(s, next + 1) != 117 { return; }
      From(s, next, 2);
      var lc;
      ok, next, lc := ParseHex16At(s, next + 2);
      if !ok { return; }
      match FromSurrogatePair(uc, lc)
      case NoPair => return false, p, b;
      case Pair(u) =>
        PairIsScalar(uc, lc);
        unicode := u;
    } else if uc == 0 {
      return false, p, b;
    }
    b' := WriteCharAt(target, b, unicode);
  }

  lemma PairIsScalar(uc: nat, lc: nat)
    requires FromSurrogatePair(uc, lc).Pair?
    ensures Scalar(FromSurrogatePair(uc, lc).u)
  {
  }

  // One turn of the loop of parse_string.
  method ParseCharAt(s: bytes, p: nat, target: array<byte>, b: nat) returns (ok: bool, next: nat, b': nat)
    requires p <= |s| && b + 4 <= target.Length && Peek(s, p) != QUOTE
    modifies target
    ensures var r := ParseChar(s[p..]);
            && Says(r, s, p, ok, next)
            && (ok ==> b' == b + |r.value| && target[..b'] == old(target[..b]) + r.value)
  {
    hide ParseUnicode, ValidateChar;
    ok, next, b' := false, p, b;
    var c := Peek(s, p);
    if c == BACKSLASH {
      From(s, p, 1);
      c := Peek(s, p + 1);
      if c == 117 {
        From(s, p, 2);
        ok, next, b' := ParseUnicodeAt(s, p + 2, target, b);
        return;
      }
      var e := if c == 34 || c == 92 || c == 47 then c
               else if c == 98 then 8
               else if c == 102 then 12
               else if c == 110 then 10
               else if c == 114 then 13
               else if c == 116 then 9
               else 0;
      if e == 0 { return; }
      From(s, p, 2);
      b' := Store(target, b, [e]);
      ok, next := true, p + 2;
    } else if c > 0x1F {
      var len := ValidateChar(s[p..]);
      if len == 0 { return; }
      From(s, p, len);
      assert s[p..][..len] == s[p..p + len];
      b' := Store(target, b, s[p..p + len]);
      ok, next := true, p + len;
    }
  }

  // What a string is whose first part has been read.
  function Extend(seen: bytes, r: Lex<bytes>): Lex<bytes> {
    match r case Bad => Bad case Good(v, rest) => Good(seen + v, rest)
  }

  lemma BodyStep(s: bytes, seen: bytes)
    requires Peek(s, 0) != QUOTE
    ensures Extend(seen, ParseBody(s)) ==
            match ParseChar(s) case Bad => Bad case Good(c, t) => Extend(seen + c, ParseBody(t))
  {
    hide ParseChar;
    match ParseChar(s)
    case Bad =>
    case Good(c, t) =>
      match ParseBody(t)
      case Bad =>
      case Good(more, rest) => assert seen + (c + more) == seen + c + more;
  }

  // parse_string: four octets ahead are enough for a character.
  method ParseStringAt(s: bytes, p: nat, keep: bool) returns (ok: bool, next: nat, out: bytes)
    requires p <= |s|
    ensures Says(ParseString(s[p..]), s, p, ok, next)
    ensures ok && keep ==> out == ParseString(s[p..]).value
  {
    hide ParseBody, ParseChar;
    ok, next, out := false, p, [];
    if Peek(s, p) != QUOTE { return; }
    From(s, p, 1);
    next := p + 1;
    ghost var start := next;
    ghost var seen: bytes := [];
    var sb := new SB();
    var throwaway := new byte[4];
    sb.Need(4);
    var target, b := if keep then sb.start else throwaway, if keep then sb.cur else 0;
    NothingSeen(ParseBody(s[next..]));
    while Peek(s, next) != QUOTE
      invariant start <= next <= |s| && sb.Valid() && fresh(sb) && fresh(sb.start) && fresh(target)
      invariant b + 4 <= target.Length
      invariant if keep then target == sb.start && b == sb.cur && b + 4 <= sb.End() && sb.Contents() == seen
                else target == throwaway && b == 0
      invariant Extend(seen, ParseBody(s[next..])) == ParseBody(s[start..])
      decreases |s| - next
    {
      ghost var r := ParseChar(s[next..]);
      BodyStep(s[next..], seen);
      ok, next, b := ParseCharAt(s, next, target, b);
      if !ok { return; }
      seen := seen + r.value;
      if keep {
        sb.cur := b;
        assert sb.Contents() == target[..b];
        sb.Need(4);
        target, b := sb.start, sb.cur;
      } else {
        b := 0;
      }
    }
    From(s, next, 1);
    BodyEnds(s[next..]);
    ParsedIsText(s[start..]);
    next := next + 1;
    ok := true;
    if keep {
      var finished := sb.Finish();
      out := finished[..sb.cur];
    }
  }

  lemma NothingSeen(r: Lex<bytes>)
    ensures Extend([], r) == r
  {
    if r.Good? { assert [] + r.value == r.value; }
  }

  lemma BodyEnds(s: bytes)
    requires Peek(s, 0) == QUOTE
    ensures ParseBody(s) == Good([], s[1..])
  {
  }

  // "do s++ while (is_digit(*s))", after the test for a first digit
  method DigitsAt(s: bytes, p: nat) returns (ok: bool, next: nat)
    requires p <= |s|
    ensures ok <==> Digits(s[p..]).Tail?
    ensures ok ==> p < next <= |s| && s[next..] == Digits(s[p..]).rest
  {
    next := p;
    if !IsDigit(Peek(s, p)) { return false, p; }
    From(s, p, 1);
    next := p + 1;
    while IsDigit(Peek(s, next))
      invariant p < next <= |s| && SkipDigits(s[next..]) == SkipDigits(s[p..])
      decreases |s| - next
    {
      From(s, next, 1);
      next := next + 1;
    }
    ok := true;
  }

  method SignAt(s: bytes, p: nat) returns (next: nat)
    requires p <= |s|
    ensures p <= next <= |s| && s[next..] == Sign(s[p..])
  {
    next := p;
    if Peek(s, p) == 45 {
      From(s, p, 1);
      next := p + 1;
    }
  }

  method WholeAt(s: bytes, p: nat) returns (ok: bool, next: nat)
    requires p <= |s|
    ensures ok <==> Whole(s[p..]).Tail?
    ensures ok ==> p < next <= |s| && s[next..] == Whole(s[p..]).rest
  {
    hide Digits;
    if Peek(s, p) == 48 {
      From(s, p, 1);
      return true, p + 1;
    }
    ok, next := DigitsAt(s, p);
  }

  method FractionAt(s: bytes, p: nat) returns (ok: bool, next: nat)
    requires p <= |s|
    ensures ok <==> Fraction(s[p..]).Tail?
    ensures ok ==> p <= next <= |s| && s[next..] == Fraction(s[p..]).rest
  {
    hide Digits;
    ok, next := true, p;
    if Peek(s, p) == 46 {
      From(s, p, 1);
      ok, next := DigitsAt(s, p + 1);
    }
  }

  method ExponentAt(s: bytes, p: nat) returns (ok: bool, next: nat)
    requires p <= |s|
    ensures ok <==> Exponent(s[p..]).Tail?
    ensures ok ==> p <= next <= |s| && s[next..] == Exponent(s[p..]).rest
  {
    hide Digits;
    ok, next := true, p;
    if Peek(s, p) == 69 || Peek(s, p) == 101 {
      From(s, p, 1);
      next := p + 1;
      if Peek(s, next) == 43 || Peek(s, next) == 45 {
        From(s, p, 2);
        next := next + 1;
      }
      ok, next := DigitsAt(s, next);
    }
  }

  // parse_number
  method ParseNumberAt(s: bytes, p: nat) returns (ok: bool, next: nat, token: bytes)
    requires p <= |s|
    ensures Says(ParseNumber(s[p..]), s, p, ok, next)
    ensures ok ==> token == ParseNumber(s[p..]).value
  {
    hide Sign, Whole, Fraction, Exponent;
    token := [];
    next := SignAt(s, p);
    ok, next := WholeAt(s, next);
    if !ok { return; }
    ok, next := FractionAt(s, next);
    if !ok { return; }
    ok, next := ExponentAt(s, next);
    if !ok { return; }
    token := s[p..next];
    assert s[p..][..next - p] == token;
  }

  // The tree a parser has built, if it was asked to.
  datatype Built = Nothing | Built(shape: Shape)

  // A new tree for v, which hangs nowhere yet.
  ghost predicate NewTree(out: JsonNode?, built: Built, pool: set<JsonNode>, v: Json)
    reads pool
  {
    && built.Built? && out == built.shape.node && Nodes(built.shape) <= pool && Separate(built.shape)
    && built.shape.node.parent == null && built.shape.node.next == null && built.shape.node.key == NULL && Is(built.shape, v)
  }

  lemma Leaf(node: JsonNode, v: Json)
    requires Is(Shape(node, []), v) && node.parent == null && node.next == null && node.key == NULL
    ensures NewTree(node, Built(Shape(node, [])), {node}, v)
  {
    NothingBelow();
  }

  // json_mknull, json_mkbool, mkstring and json_mknumber
  method MakeLeaf(v: Json) returns (out: JsonNode, ghost built: Built, ghost pool: set<JsonNode>)
    requires !v.Array? && !v.Object?
    ensures fresh(pool) && NewTree(out, built, pool, v)
  {
    match v {
      case Null => out := new JsonNode(JSON_NULL);
      case Bool(b) =>
        out := new JsonNode(JSON_BOOL);
        out.boolean := b;
      case Str(str) =>
        out := new JsonNode(JSON_STRING);
        out.str := CString(str);
      case Number(token) =>
        out := new JsonNode(JSON_NUMBER);
        out.number := token;
    }
    Leaf(out, v);
    built, pool := Built(Shape(out, [])), {out};
  }

  // parse_value
  method ParseValueAt(s: bytes, p: nat, keep: bool)
    returns (ok: bool, next: nat, out: JsonNode?, ghost built: Built, ghost pool: set<JsonNode>)
    requires p <= |s|
    ensures Says(ParseValue(s[p..]), s, p, ok, next) && fresh(pool)
    ensures ok && keep ==> NewTree(out, built, pool, ParseValue(s[p..]).value)
    decreases |s| - p, 1
  {
    hide ParseString, ParseArray, ParseObject, ParseNumber, NewTree;
    out, built, pool := null, Nothing, {};
    var c := Peek(s, p);
    var v := Null;
    if c == 110 {
      ok, next := ExpectLiteral(s, p, NULL_TEXT);
      if ok { From(s, p, |NULL_TEXT|); }
    } else if c == 102 {
      ok, next := ExpectLiteral(s, p, FALSE_TEXT);
      if ok { From(s, p, |FALSE_TEXT|); }
      v := Bool(false);
    } else if c == 116 {
      ok, next := ExpectLiteral(s, p, TRUE_TEXT);
      if ok { From(s, p, |TRUE_TEXT|); }
      v := Bool(true);
    } else if c == QUOTE {
      var str;
      ok, next, str := ParseStringAt(s, p, keep);
      v := Str(str);
    } else if c == OPEN_ARRAY {
      ok, next, out, built, pool := ParseArrayAt(s, p, keep);
      return;
    } else if c == OPEN_OBJECT {
      ok, next, out, built, pool := ParseObjectAt(s, p, keep);
      return;
    } else {
      var token;
      ok, next, token := ParseNumberAt(s, p);
      v := Number(token);
    }
    if ok && keep {
      out, built, pool := MakeLeaf(v);
    }
  }

  // The array, or the loop's first elements and what they lack.
  function FinishArray(es: seq<Json>, r: Lex<seq<Json>>): Lex<Json> {
    match r case Bad => Bad case Good(more, rest) => Good(Array(es + more), rest)
  }

  lemma ElementStep(s: bytes, es: seq<Json>)
    ensures FinishArray(es, ParseElements(s)) ==
            match ParseValue(s) case Bad => Bad case Good(e, after) =>
              var t := SkipSpace(after);
              if Peek(t, 0) == CLOSE_ARRAY then Good(Array(es + [e]), t[1..])
              else if Peek(t, 0) != COMMA then Bad
              else FinishArray(es + [e], ParseElements(SkipSpace(t[1..])))
  {
    hide ParseValue, SkipSpace;
    match ParseValue(s)
    case Bad =>
    case Good(e, after) =>
      var t := SkipSpace(after);
      if Peek(t, 0) == COMMA && ParseElements(SkipSpace(t[1..])).Good? {
        var more := ParseElements(SkipSpace(t[1..])).value;
        assert es + ([e] + more) == es + [e] + more;
      }
  }

  lemma ArrayStarts(s: bytes)
    requires |s| > 0
    ensures var t := SkipSpace(s[1..]);
            Peek(t, 0) != CLOSE_ARRAY ==> ParseArray(s) == FinishArray([], ParseElements(t))
  {
    hide SkipSpace, ParseElements;
    match ParseElements(SkipSpace(s[1..]))
    case Bad =>
    case Good(es, rest) => assert [] + es == es;
  }

  // The array under construction.
  ghost predicate Growing(ret: JsonNode, tag: nat, ss: seq<Shape>, pool: set<JsonNode>)
    reads ret, pool
  {
    && ret.tag == tag && ret.parent == null && ret.next == null && ret.key == NULL && ret !in pool
    && Top(ss) + BelowAll(ss) <= pool && SeparateAll(ss)
  }

  lemma Inside(ret: JsonNode, tag: nat, ss: seq<Shape>, pool: set<JsonNode>)
    requires Growing(ret, tag, ss, pool)
    ensures Top(ss) + BelowAll(ss) <= pool
  {
  }

  lemma IsBuilt(out: JsonNode?, tree: Built, pool: set<JsonNode>, v: Json)
    requires NewTree(out, tree, pool, v)
    ensures out != null && tree.Built?
  {
  }

  lemma Grown(ret: JsonNode, ss: seq<Shape>, pool: set<JsonNode>, v: Json)
    requires v.Array? || v.Object?
    requires Growing(ret, if v.Array? then JSON_ARRAY else JSON_OBJECT, ss, pool) && Is(Shape(ret, ss), v)
    ensures NewTree(ret, Built(Shape(ret, ss)), pool + {ret}, v)
  {
    hide Is;
  }

  lemma EmptyContainer(ret: JsonNode, v: Json)
    requires v == Array([]) || v == Object([])
    requires ret.tag == (if v.Array? then JSON_ARRAY else JSON_OBJECT) && ret.parent == null && ret.next == null && ret.key == NULL
    requires ret.head == null && ret.tail == null
    ensures Growing(ret, ret.tag, [], {}) && Is(Shape(ret, []), v) && Children(ret, Tops([]))
  {
    NothingBelow();
    assert Tops([]) == [];
  }

  // parse_array
  method ParseArrayAt(s: bytes, p: nat, keep: bool)
    returns (ok: bool, next: nat, out: JsonNode?, ghost built: Built, ghost pool: set<JsonNode>)
    requires p < |s| && s[p] == OPEN_ARRAY
    ensures Says(ParseArray(s[p..]), s, p, ok, next) && fresh(pool)
    ensures ok && keep ==> NewTree(out, built, pool, ParseArray(s[p..]).value)
    decreases |s| - p, 0
  {
    ok, out, built, pool := false, null, Nothing, {};
    hide ParseElements, NewTree, Is, Growing, Are, Children, SkipSpace, ParseValue, Separate;
    var ret := new JsonNode(JSON_ARRAY);
    EmptyContainer(ret, Array([]));
    From(s, p, 1);
    ArrayStarts(s[p..]);
    next := SkipSpaceAt(s, p + 1);
    ghost var at := next;
    if Peek(s, next) == CLOSE_ARRAY {
      From(s, next, 1);
      if keep {
        EmptyContainer(ret, Array([]));
        Grown(ret, [], {}, Array([]));
        out, built, pool := ret, Built(Shape(ret, [])), {} + {ret};
      }
      return true, next + 1, out, built, pool;
    }
    ghost var ss, nodes;
    ok, next, ss, nodes := ParseArrayBody(s, next, keep, ret);
    if ok && keep {
      FinishedArray(ret, ss, nodes, ParseElements(s[at..]).value);
      out, built, pool := ret, Built(Shape(ret, ss)), nodes + {ret};
    }
  }

  // Its loop, from the first octet of an element, hanging what it reads on ret.
  method ParseArrayBody(s: bytes, p: nat, keep: bool, ret: JsonNode)
    returns (ok: bool, next: nat, ghost ss: seq<Shape>, ghost pool: set<JsonNode>)
    requires p <= |s| && Growing(ret, JSON_ARRAY, [], {}) && Children(ret, Tops([]))
    modifies ret`head, ret`tail
    ensures Says(ParseElements(s[p..]), s, p, ok, next) && fresh(pool)
    ensures ok && keep ==>
              Growing(ret, JSON_ARRAY, ss, pool) && Children(ret, Tops(ss)) && Are(ss, ParseElements(s[p..]).value)
    decreases |s| - p, 4
  {
    hide ParseElements, Growing, Are, Children;
    next, ss, pool := p, [], {};
    ghost var read: seq<Json> := [];
    NoArrayYet(ParseElements(s[p..]));
    assert Are(ss, read) by { NoneAre(); }
    while true
      invariant p <= next <= |s| && fresh(pool) && ret !in pool
      invariant FinishArray(read, ParseElements(s[next..])) == FinishArray([], ParseElements(s[p..]))
      invariant keep ==> Growing(ret, JSON_ARRAY, ss, pool) && Children(ret, Tops(ss)) && Are(ss, read)
      decreases |s| - next
    {
      hide FinishArray;
      var closed;
      ok, closed, next, read, ss, pool := AddElement(s, next, keep, ret, read, ss, pool);
      if !ok || closed {
        ArrayEnds(ParseElements(s[p..]), read, if ok then s[next..] else [], ok);
        return;
      }
    }
  }

  lemma NoArrayYet(r: Lex<seq<Json>>)
    ensures r.Good? ==> [] + r.value == r.value
  {
  }

  lemma ArrayEnds(r: Lex<seq<Json>>, read: seq<Json>, rest: bytes, ok: bool)
    requires FinishArray([], r) == if ok then Good(Array(read), rest) else Bad
    ensures r == if ok then Good(read, rest) else Bad
  {
    if r.Good? { assert [] + r.value == r.value; }
  }

  lemma NoneAre()
    ensures Are([], []) && AreMembers([], [])
  {
  }

  lemma FinishedArray(ret: JsonNode, ss: seq<Shape>, pool: set<JsonNode>, es: seq<Json>)
    requires Growing(ret, JSON_ARRAY, ss, pool) && Children(ret, Tops(ss)) && Are(ss, es)
    ensures NewTree(ret, Built(Shape(ret, ss)), pool + {ret}, Array(es))
  {
    hide Are, Children;
    assert Is(Shape(ret, ss), Array(es));
    Grown(ret, ss, pool, Array(es));
  }

  // json_append_element
  method GrowArray(ret: JsonNode, element: JsonNode?, ghost ss: seq<Shape>, ghost es: seq<Json>, ghost tree: Built, ghost e: Json,
                   ghost pool: set<JsonNode>, ghost more: set<JsonNode>)
    requires Growing(ret, JSON_ARRAY, ss, pool) && Children(ret, Tops(ss)) && Are(ss, es)
    requires NewTree(element, tree, more, e) && pool !! more && ret !in more
    modifies ret`head, ret`tail, pool, more
    ensures Growing(ret, JSON_ARRAY, ss + [tree.shape], pool + more)
    ensures Children(ret, Tops(ss + [tree.shape])) && Are(ss + [tree.shape], es + [e])
  {
    hide Is, Are, Children;
    AppendElement(ret, element, ss, es, tree.shape, e, pool, more);
  }

  // One turn of the loop, and the element hung on ret.
  method AddElement(s: bytes, p: nat, keep: bool, ret: JsonNode, ghost read: seq<Json>, ghost ss: seq<Shape>, ghost pool: set<JsonNode>)
    returns (ok: bool, closed: bool, next: nat, ghost read': seq<Json>, ghost ss': seq<Shape>, ghost pool': set<JsonNode>)
    requires p <= |s| && ret !in pool
    requires keep ==> Growing(ret, JSON_ARRAY, ss, pool) && Children(ret, Tops(ss)) && Are(ss, read)
    modifies ret`head, ret`tail, pool
    ensures !ok ==> FinishArray(read, ParseElements(s[p..])) == Bad
    ensures pool <= pool' && fresh(pool' - pool) && ret !in pool'
    ensures ok ==> p < next <= |s|
    ensures ok ==>
              FinishArray(read, ParseElements(s[p..])) ==
              if closed then Good(Array(read'), s[next..]) else FinishArray(read', ParseElements(s[next..]))
    ensures ok && keep ==> Growing(ret, JSON_ARRAY, ss', pool') && Children(ret, Tops(ss')) && Are(ss', read')
    decreases |s| - p, 3
  {
    hide ParseElements, ParseValue, FinishArray, NewTree, Growing, Are, Children;
    read', ss', pool' := read, ss, pool;
    var element;
    ghost var tree, more;
    if keep { Inside(ret, JSON_ARRAY, ss, pool); }
    ok, closed, next, element, tree, more := ParseElementTurn(s, p, keep, read);
    if !ok { return; }
    ghost var e := ParseValue(s[p..]).value;
    read', pool' := read + [e], pool + more;
    if keep {
      IsBuilt(element, tree, more, e);
      GrowArray(ret, element, ss, read, tree, e, pool, more);
      ss' := ss + [tree.shape];
    }
  }

  // One turn of the loop: an element and what stands behind it.
  method ParseElementTurn(s: bytes, p: nat, keep: bool, ghost read: seq<Json>)
    returns (ok: bool, closed: bool, next: nat, element: JsonNode?, ghost tree: Built, ghost pool: set<JsonNode>)
    requires p <= |s|
    ensures !ok ==> FinishArray(read, ParseElements(s[p..])) == Bad
    ensures fresh(pool)
    ensures ok ==> p < next <= |s| && ParseValue(s[p..]).Good? && (keep ==> NewTree(element, tree, pool, ParseValue(s[p..]).value))
    ensures ok ==>
              FinishArray(read, ParseElements(s[p..])) ==
              if closed then Good(Array(read + [ParseValue(s[p..]).value]), s[next..])
              else FinishArray(read + [ParseValue(s[p..]).value], ParseElements(s[next..]))
    decreases |s| - p, 2
  {
    hide ParseElements, ParseValue, SkipSpace, FinishArray, NewTree;
    closed := false;
    ElementStep(s[p..], read);
    ok, next, element, tree, pool := ParseValueAt(s, p, keep);
    if !ok { return; }
    next := SkipSpaceAt(s, next);
    if Peek(s, next) == CLOSE_ARRAY {
      From(s, next, 1);
      return true, true, next + 1, element, tree, pool;
    }
    if Peek(s, next) != COMMA { return false, false, p, element, tree, pool; }
    From(s, next, 1);
    next := SkipSpaceAt(s, next + 1);
  }

  function FinishObject(ms: seq<Member>, r: Lex<seq<Member>>): Lex<Json> {
    match r case Bad => Bad case Good(more, rest) => Good(Object(ms + more), rest)
  }

  lemma MemberStep(s: bytes, ms: seq<Member>)
    ensures FinishObject(ms, ParseMembers(s)) ==
            match ParseMember(s) case Bad => Bad case Good(m, after) =>
              var t := SkipSpace(after);
              if Peek(t, 0) == CLOSE_OBJECT then Good(Object(ms + [m]), t[1..])
              else if Peek(t, 0) != COMMA then Bad
              else FinishObject(ms + [m], ParseMembers(SkipSpace(t[1..])))
  {
    hide ParseMember, SkipSpace;
    match ParseMember(s)
    case Bad =>
    case Good(m, after) =>
      var t := SkipSpace(after);
      if Peek(t, 0) == COMMA && ParseMembers(SkipSpace(t[1..])).Good? {
        var more := ParseMembers(SkipSpace(t[1..])).value;
        assert ms + ([m] + more) == ms + [m] + more;
      }
  }

  lemma ObjectStarts(s: bytes)
    requires |s| > 0
    ensures var t := SkipSpace(s[1..]);
            Peek(t, 0) != CLOSE_OBJECT ==> ParseObject(s) == FinishObject([], ParseMembers(t))
  {
    hide SkipSpace, ParseMembers;
    match ParseMembers(SkipSpace(s[1..]))
    case Bad =>
    case Good(ms, rest) => assert [] + ms == ms;
  }

  // A key, a colon and a value, in the loop of parse_object.
  method ParseMemberAt(s: bytes, p: nat, keep: bool)
    returns (ok: bool, next: nat, key: bytes, value: JsonNode?, ghost tree: Built, ghost pool: set<JsonNode>)
    requires p <= |s|
    ensures Says(ParseMember(s[p..]), s, p, ok, next) && fresh(pool)
    ensures ok && keep ==> key == ParseMember(s[p..]).value.key && NewTree(value, tree, pool, ParseMember(s[p..]).value.value)
    decreases |s| - p, 2
  {
    hide ParseString, ParseValue, SkipSpace, NewTree;
    value, tree, pool := null, Nothing, {};
    ok, next, key := ParseStringAt(s, p, keep);
    if !ok { return; }
    next := SkipSpaceAt(s, next);
    if Peek(s, next) != COLON { return false, p, key, value, tree, pool; }
    From(s, next, 1);
    next := SkipSpaceAt(s, next + 1);
    ok, next, value, tree, pool := ParseValueAt(s, next, keep);
  }

  // parse_object
  method ParseObjectAt(s: bytes, p: nat, keep: bool)
    returns (ok: bool, next: nat, out: JsonNode?, ghost built: Built, ghost pool: set<JsonNode>)
    requires p < |s| && s[p] == OPEN_OBJECT
    ensures Says(ParseObject(s[p..]), s, p, ok, next) && fresh(pool)
    ensures ok && keep ==> NewTree(out, built, pool, ParseObject(s[p..]).value)
    decreases |s| - p, 0
  {
    ok, out, built, pool := false, null, Nothing, {};
    hide ParseMembers, NewTree, Is, Growing, AreMembers, Children, SkipSpace, ParseValue, Separate;
    var ret := new JsonNode(JSON_OBJECT);
    EmptyContainer(ret, Object([]));
    From(s, p, 1);
    ObjectStarts(s[p..]);
    next := SkipSpaceAt(s, p + 1);
    ghost var at := next;
    if Peek(s, next) == CLOSE_OBJECT {
      From(s, next, 1);
      if keep {
        EmptyContainer(ret, Object([]));
        Grown(ret, [], {}, Object([]));
        out, built, pool := ret, Built(Shape(ret, [])), {} + {ret};
      }
      return true, next + 1, out, built, pool;
    }
    ghost var ss, nodes;
    ok, next, ss, nodes := ParseObjectBody(s, next, keep, ret);
    if ok && keep {
      FinishedObject(ret, ss, nodes, ParseMembers(s[at..]).value);
      out, built, pool := ret, Built(Shape(ret, ss)), nodes + {ret};
    }
  }

  // Its loop, from the first octet of a member, hanging what it reads on ret.
  method ParseObjectBody(s: bytes, p: nat, keep: bool, ret: JsonNode)
    returns (ok: bool, next: nat, ghost ss: seq<Shape>, ghost pool: set<JsonNode>)
    requires p <= |s| && Growing(ret, JSON_OBJECT, [], {}) && Children(ret, Tops([]))
    modifies ret`head, ret`tail
    ensures Says(ParseMembers(s[p..]), s, p, ok, next) && fresh(pool)
    ensures ok && keep ==>
              Growing(ret, JSON_OBJECT, ss, pool) && Children(ret, Tops(ss)) && AreMembers(ss, ParseMembers(s[p..]).value)
    decreases |s| - p, 5
  {
    hide ParseMembers, Growing, AreMembers, Children;
    next, ss, pool := p, [], {};
    ghost var read: seq<Member> := [];
    NoObjectYet(ParseMembers(s[p..]));
    assert AreMembers(ss, read) by { NoneAre(); }
    while true
      invariant p <= next <= |s| && fresh(pool) && ret !in pool
      invariant FinishObject(read, ParseMembers(s[next..])) == FinishObject([], ParseMembers(s[p..]))
      invariant keep ==> Growing(ret, JSON_OBJECT, ss, pool) && Children(ret, Tops(ss)) && AreMembers(ss, read)
      decreases |s| - next
    {
      hide FinishObject;
      var closed;
      ok, closed, next, read, ss, pool := AddMember(s, next, keep, ret, read, ss, pool);
      if !ok || closed {
        ObjectEnds(ParseMembers(s[p..]), read, if ok then s[next..] else [], ok);
        return;
      }
    }
  }

  lemma NoObjectYet(r: Lex<seq<Member>>)
    ensures r.Good? ==> [] + r.value == r.value
  {
  }

  lemma ObjectEnds(r: Lex<seq<Member>>, read: seq<Member>, rest: bytes, ok: bool)
    requires FinishObject([], r) == if ok then Good(Object(read), rest) else Bad
    ensures r == if ok then Good(read, rest) else Bad
  {
    if r.Good? { assert [] + r.value == r.value; }
  }

  lemma FinishedObject(ret: JsonNode, ss: seq<Shape>, pool: set<JsonNode>, ms: seq<Member>)
    requires Growing(ret, JSON_OBJECT, ss, pool) && Children(ret, Tops(ss)) && AreMembers(ss, ms)
    ensures NewTree(ret, Built(Shape(ret, ss)), pool + {ret}, Object(ms))
  {
    hide AreMembers, Children;
    assert Is(Shape(ret, ss), Object(ms));
    Grown(ret, ss, pool, Object(ms));
  }

  // append_member
  method GrowObject(ret: JsonNode, value: JsonNode?, key: bytes, ghost ss: seq<Shape>, ghost ms: seq<Member>, ghost tree: Built,
                    ghost m: Member, ghost pool: set<JsonNode>, ghost more: set<JsonNode>)
    requires Growing(ret, JSON_OBJECT, ss, pool) && Children(ret, Tops(ss)) && AreMembers(ss, ms)
    requires NewTree(value, tree, more, m.value) && key == m.key && pool !! more && ret !in more
    modifies ret`head, ret`tail, pool, more
    ensures Growing(ret, JSON_OBJECT, ss + [tree.shape], pool + more)
    ensures Children(ret, Tops(ss + [tree.shape])) && AreMembers(ss + [tree.shape], ms + [m])
  {
    hide Is, AreMembers, Children;
    AppendMember(ret, value, key, ss, ms, tree.shape, m.value, pool, more);
  }

  // One turn of the loop, and the member hung on ret.
  method AddMember(s: bytes, p: nat, keep: bool, ret: JsonNode, ghost read: seq<Member>, ghost ss: seq<Shape>, ghost pool: set<JsonNode>)
    returns (ok: bool, closed: bool, next: nat, ghost read': seq<Member>, ghost ss': seq<Shape>, ghost pool': set<JsonNode>)
    requires p <= |s| && ret !in pool
    requires keep ==> Growing(ret, JSON_OBJECT, ss, pool) && Children(ret, Tops(ss)) && AreMembers(ss, read)
    modifies ret`head, ret`tail, pool
    ensures !ok ==> FinishObject(read, ParseMembers(s[p..])) == Bad
    ensures pool <= pool' && fresh(pool' - pool) && ret !in pool'
    ensures ok ==> p < next <= |s|
    ensures ok ==>
              FinishObject(read, ParseMembers(s[p..])) ==
              if closed then Good(Object(read'), s[next..]) else FinishObject(read', ParseMembers(s[next..]))
    ensures ok && keep ==> Growing(ret, JSON_OBJECT, ss', pool') && Children(ret, Tops(ss')) && AreMembers(ss', read')
    decreases |s| - p, 4
  {
    hide ParseMembers, ParseMember, FinishObject, NewTree, Growing, AreMembers, Children;
    read', ss', pool' := read, ss, pool;
    var key, value;
    ghost var tree, more;
    if keep { Inside(ret, JSON_OBJECT, ss, pool); }
    ok, closed, next, key, value, tree, more := ParseMemberTurn(s, p, keep, read);
    if !ok { return; }
    ghost var m := ParseMember(s[p..]).value;
    read', pool' := read + [m], pool + more;
    if keep {
      IsBuilt(value, tree, more, m.value);
      GrowObject(ret, value, key, ss, read, tree, m, pool, more);
      ss' := ss + [tree.shape];
    }
  }

  // One turn of the loop: a member and what stands behind it.
  method ParseMemberTurn(s: bytes, p: nat, keep: bool, ghost read: seq<Member>)
    returns (ok: bool, closed: bool, next: nat, key: bytes, value: JsonNode?, ghost tree: Built, ghost pool: set<JsonNode>)
    requires p <= |s|
    ensures !ok ==> FinishObject(read, ParseMembers(s[p..])) == Bad
    ensures fresh(pool)
    ensures ok ==>
              && p < next <= |s| && ParseMember(s[p..]).Good?
              && (keep ==> key == ParseMember(s[p..]).value.key && NewTree(value, tree, pool, ParseMember(s[p..]).value.value))
    ensures ok ==>
              FinishObject(read, ParseMembers(s[p..])) ==
              if closed then Good(Object(read + [ParseMember(s[p..]).value]), s[next..])
              else FinishObject(read + [ParseMember(s[p..]).value], ParseMembers(s[next..]))
    decreases |s| - p, 3
  {
    hide ParseMembers, ParseMember, SkipSpace, FinishObject, NewTree;
    closed := false;
    MemberStep(s[p..], read);
    ok, next, key, value, tree, pool := ParseMemberAt(s, p, keep);
    if !ok { return; }
    next := SkipSpaceAt(s, next);
    if Peek(s, next) == CLOSE_OBJECT {
      From(s, next, 1);
      return true, true, next + 1, key, value, tree, pool;
    }
    if Peek(s, next) != COMMA { return false, false, p, key, value, tree, pool; }
    From(s, next, 1);
    next := SkipSpaceAt(s, next + 1);
  }

  // json_decode
  method DecodeText(s: bytes) returns (out: JsonNode?, ghost built: Built, ghost pool: set<JsonNode>)
    ensures fresh(pool)
    ensures match DecodeJson(s) case NotJson => out == null case Decoded(v) => NewTree(out, built, pool, v)
  {
    hide ParseValue, SkipSpace, NewTree;
    assert s[0..] == s;
    var p := SkipSpaceAt(s, 0);
    var ok;
    ok, p, out, built, pool := ParseValueAt(s, p, true);
    if !ok { return null, Nothing, {}; }
    p := SkipSpaceAt(s, p);
    if Peek(s, p) != 0 { return null, Nothing, {}; }
  }

  // json_validate
  method ValidateText(s: bytes) returns (ok: bool)
    ensures ok <==> DecodeJson(s).Decoded?
  {
    hide ParseValue, SkipSpace;
    assert s[0..] == s;
    var p := SkipSpaceAt(s, 0);
    var out;
    ghost var built, pool;
    ok, p, out, built, pool := ParseValueAt(s, p, false);
    if !ok { return; }
    p := SkipSpaceAt(s, p);
    ok := Peek(s, p) == 0;
  }

  // From a tree to its text and from the text to a new tree, for the same value.
  method StringifyAndDecode(node: JsonNode, space: bytes, ghost sh: Shape, ghost v: Json, ghost pool: set<JsonNode>)
    returns (out: JsonNode?, ghost built: Built, ghost more: set<JsonNode>)
    requires node == sh.node && Is(sh, v) && Below(sh) <= pool && Texts(v) && JsonRoundTrip.Spaces(space)
    ensures fresh(more) && if Clean(v) then NewTree(out, built, more, Normal(v)) else out == null
  {
    hide Is, Texts, NewTree, DecodeJson, Emit;
    var text, len := Stringify(node, space, sh, v, pool);
    JsonRoundTrip.DecodeUndoesStringify(v, space);
    out, built, more := DecodeText(text[..len]);
  }
}
