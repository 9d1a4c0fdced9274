/**
 What json_decode builds, json_check accepts and json_stringify can print.
 */
module JsonAccept {
  import opened Bytes
  import opened Utf8
  import opened JsonString
  import opened Json
  import opened JsonNodes
  import opened JsonTree
  import opened JsonCheck
  import opened JsonParser
  import JsonRoundTrip

  // ---------- the text of a parsed value ----------

  // rest is what remains of s behind octets that are not NUL.
  predicate Skips(s: bytes, rest: bytes) {
    |rest| <= |s| && s[|s| - |rest|..] == rest && 0 !in s[..|s| - |rest|]
  }

  lemma SkipsOn(s: bytes, t: bytes, u: bytes)
    requires Skips(s, t) && Skips(t, u)
    ensures Skips(s, u)
  {
    assert s[..|s| - |u|] == s[..|s| - |t|] + t[..|t| - |u|];
    assert s[|s| - |u|..] == t[|t| - |u|..];
  }

  lemma SkipsOne(s: bytes)
    ensures Skips(s, s) && (Peek(s, 0) != 0 ==> |s| > 0 && Skips(s, s[1..]))
  {
    if Peek(s, 0) != 0 { assert s[..1] == [s[0]]; }
  }

  lemma {:induction false} SkipDigitsSkips(s: bytes)
    ensures Skips(s, SkipDigits(s))
    decreases |s|
  {
    SkipsOne(s);
    if IsDigit(Peek(s, 0)) {
      SkipDigitsSkips(s[1..]);
      SkipsOn(s, s[1..], SkipDigits(s));
    }
  }

  lemma SignSkips(s: bytes)
    ensures Skips(s, Sign(s))
  {
    hide Skips;
    SkipsOne(s);
  }

  lemma WholeSkips(s: bytes)
    ensures Whole(s).Tail? ==> Skips(s, Whole(s).rest)
  {
    hide Skips, SkipDigits;
    SkipsOne(s);
    SkipDigitsSkips(s);
  }

  lemma FractionSkips(s: bytes)
    ensures Fraction(s).Tail? ==> Skips(s, Fraction(s).rest)
  {
    hide Skips, SkipDigits;
    SkipsOne(s);
    if Peek(s, 0) == 46 {
      SkipDigitsSkips(s[1..]);
      SkipsOn(s, s[1..], SkipDigits(s[1..]));
    }
  }

  lemma ExponentSkips(s: bytes)
    ensures Exponent(s).Tail? ==> Skips(s, Exponent(s).rest)
  {
    hide Skips, SkipDigits;
    SkipsOne(s);
    if Peek(s, 0) == 69 || Peek(s, 0) == 101 {
      var t := s[1..];
      SkipsOne(t);
      var u := if Peek(t, 0) == 43 || Peek(t, 0) == 45 then t[1..] else t;
      assert u == if Peek(t, 0) == 43 || Peek(t, 0) == 45 then s[2..] else t;
      SkipsOn(s, t, u);
      SkipDigitsSkips(u);
      SkipsOn(s, u, SkipDigits(u));
    }
  }

  // s without the last k octets.
  function Cut(s: bytes, k: nat): bytes
    requires k <= |s|
  {
    s[..|s| - k]
  }

  // What a part of a number does not read it does not need.
  lemma {:induction false} SkipDigitsCut(s: bytes, k: nat)
    requires k <= |SkipDigits(s)|
    ensures SkipDigits(Cut(s, k)) == Cut(SkipDigits(s), k)
    decreases |s|
  {
    if IsDigit(Peek(s, 0)) {
      SkipDigitsCut(s[1..], k);
      assert Cut(s, k)[1..] == Cut(s[1..], k);
    }
  }

  lemma DigitsCut(s: bytes, k: nat)
    requires Digits(s).Tail? && k <= |Digits(s).rest|
    ensures Digits(Cut(s, k)) == Tail(Cut(Digits(s).rest, k))
  {
    SkipDigitsCut(s, k);
    hide SkipDigits;
  }

  lemma NumberCut(s: bytes, k: nat)
    requires AfterNumber(s).Tail? && k <= |AfterNumber(s).rest|
    ensures AfterNumber(Cut(s, k)) == Tail(Cut(AfterNumber(s).rest, k))
  {
    hide Sign, Whole, Fraction, Exponent, Cut;
    var t := Sign(s);
    var u := Whole(t).rest;
    var v := Fraction(u).rest;
    SignCut(s, k);
    WholeCut(t, k);
    FractionCut(u, k);
    ExponentCut(v, k);
  }

  lemma SignCut(s: bytes, k: nat)
    requires k < |Sign(s)|
    ensures Sign(Cut(s, k)) == Cut(Sign(s), k)
  {
    if Peek(s, 0) == 45 { assert Cut(s, k)[1..] == Cut(s[1..], k); }
  }

  lemma WholeCut(s: bytes, k: nat)
    requires Whole(s).Tail? && k <= |Whole(s).rest|
    ensures Whole(Cut(s, k)) == Tail(Cut(Whole(s).rest, k))
  {
    if Peek(s, 0) == 48 { assert Cut(s, k)[1..] == Cut(s[1..], k); } else { DigitsCut(s, k); }
  }

  lemma FractionCut(s: bytes, k: nat)
    requires Fraction(s).Tail? && k <= |Fraction(s).rest|
    ensures Fraction(Cut(s, k)) == Tail(Cut(Fraction(s).rest, k))
  {
    hide Digits;
    if Peek(s, 0) == 46 {
      DigitsCut(s[1..], k);
      assert Cut(s, k)[1..] == Cut(s[1..], k);
    }
  }

  lemma ExponentCut(s: bytes, k: nat)
    requires Exponent(s).Tail? && k <= |Exponent(s).rest|
    ensures Exponent(Cut(s, k)) == Tail(Cut(Exponent(s).rest, k))
  {
    hide Digits;
    if Peek(s, 0) == 69 || Peek(s, 0) == 101 {
      assert Cut(s, k)[1..] == Cut(s[1..], k);
      if Peek(s[1..], 0) == 43 || Peek(s[1..], 0) == 45 {
        DigitsCut(s[2..], k);
        assert Cut(s, k)[2..] == Cut(s[2..], k);
      } else {
        DigitsCut(s[1..], k);
      }
    }
  }

  // The text of a number is a number.
  lemma TokenIsNumber(s: bytes)
    requires ParseNumber(s).Good?
    ensures IsNumber(ParseNumber(s).value)
  {
    var rest := ParseNumber(s).rest;
    NumberCut(s, |rest|);
    assert Cut(rest, |rest|) == [];
    var token := Cut(s, |rest|);
    assert token[..|token| - 0] == token;
  }

  lemma ParsedNumber(s: bytes)
    requires ParseNumber(s).Good?
    ensures 0 !in ParseNumber(s).value && IsNumber(ParseNumber(s).value)
  {
    TokenIsNumber(s);
    hide IsNumber;
    assert Skips(s, ParseNumber(s).rest) by {
      hide Skips, Sign, Whole, Fraction, Exponent;
      SignSkips(s);
      WholeSkips(Sign(s));
      var u := Whole(Sign(s)).rest;
      SkipsOn(s, Sign(s), u);
      FractionSkips(u);
      var v := Fraction(u).rest;
      SkipsOn(s, u, v);
      ExponentSkips(v);
      SkipsOn(s, v, Exponent(v).rest);
    }
  }

  lemma ParsedString(s: bytes)
    requires ParseString(s).Good?
    ensures Text(ParseString(s).value)
  {
    ParsedIsText(s[1..]);
  }

  // Every string of a parsed value is UTF-8 without NULs, at any depth, which is what emit_string
  // asserts of it, and every number is a number.
  lemma {:induction false} ParsedTexts(s: bytes)
    requires ParseValue(s).Good?
    ensures Texts(ParseValue(s).value) && NumbersAreNumbers(ParseValue(s).value)
    decreases |s|, 1
  {
    hide ParseString, ParseNumber, ParseElements, ParseMembers, Text, IsNumber;
    var c := Peek(s, 0);
    if c == QUOTE {
      ParsedString(s);
    } else if c == OPEN_ARRAY {
      var t := SkipSpace(s[1..]);
      if Peek(t, 0) != CLOSE_ARRAY { ParsedElements(t); }
    } else if c == OPEN_OBJECT {
      var t := SkipSpace(s[1..]);
      if Peek(t, 0) != CLOSE_OBJECT { ParsedMembers(t); }
    } else if c != 110 && c != 102 && c != 116 {
      ParsedNumber(s);
    }
  }

  lemma {:induction false} ParsedElements(s: bytes)
    requires ParseElements(s).Good?
    ensures forall e :: e in ParseElements(s).value ==> Texts(e) && NumbersAreNumbers(e)
    decreases |s|, 2
  {
    hide ParseValue, SkipSpace, Texts, NumbersAreNumbers;
    ParsedTexts(s);
    var t := SkipSpace(ParseValue(s).rest);
    if Peek(t, 0) != CLOSE_ARRAY { ParsedElements(SkipSpace(t[1..])); }
  }

  lemma {:induction false} ParsedMembers(s: bytes)
    requires ParseMembers(s).Good?
    ensures forall m :: m in ParseMembers(s).value ==> Text(m.key) && Texts(m.value) && NumbersAreNumbers(m.value)
    decreases |s|, 3
  {
    hide ParseValue, SkipSpace, Texts, NumbersAreNumbers, ParseString, Text;
    ParsedString(s);
    var v := SkipSpace(SkipSpace(ParseString(s).rest)[1..]);
    ParsedTexts(v);
    var t := SkipSpace(ParseMember(s).rest);
    if Peek(t, 0) != CLOSE_OBJECT { ParsedMembers(SkipSpace(t[1..])); }
  }

  lemma DecodedTexts(s: bytes)
    requires DecodeJson(s).Decoded?
    ensures Texts(DecodeJson(s).value) && NumbersAreNumbers(DecodeJson(s).value)
  {
    hide ParseValue, SkipSpace, Texts, NumbersAreNumbers;
    ParsedTexts(SkipSpace(s));
  }

  // ---------- the tree of a parsed value ----------

  // A tree whose links agree with its shape is sound once its strings are text.
  lemma {:induction false} TreeIsSound(sh: Shape, v: Json, all: set<JsonNode>)
    requires Is(sh, v) && Texts(v) && KeyIsText(sh.node) && Below(sh) <= all
    ensures Sound(sh.node, all)
    decreases sh
  {
    hide SoundTo, Sound, Below, Children, Are, AreMembers, Text, IsNode;
    SoundIff(sh.node, all);
    BelowHas(sh);
    NodeOf(sh, v);
    if v.Array? || v.Object? {
      var s := Tops(sh.children);
      forall n | n in s ensures n in all {
        var i :| 0 <= i < |s| && s[i] == n;
        assert sh.children[i].node in Below(sh);
      }
      ChildrenAreTheChain(sh.node, s, all);
      forall n | n in s ensures KeyFits(sh.node, n) && Sound(n, all) {
        var i :| 0 <= i < |s| && s[i] == n;
        if v.Array? {
          AreAt(sh.children, v.elements, i);
          TreeIsSound(sh.children[i], v.elements[i], all);
        } else {
          AreMembersAt(sh.children, v.members, i);
          assert v.members[i] in v.members;
          KeyOfText(n, v.members[i].key);
          TreeIsSound(sh.children[i], v.members[i].value, all);
        }
      }
    }
  }

  lemma NodeOf(sh: Shape, v: Json)
    requires Is(sh, v) && Texts(v)
    ensures IsNode(sh.node) && (IsBranch(sh.node) <==> v.Array? || v.Object?)
  {
  }

  lemma KeyOfText(n: JsonNode, key: bytes)
    requires n.key == CString(key) && Text(key)
    ensures KeyIsText(n)
  {
  }

  lemma BelowHas(sh: Shape)
    ensures forall i :: 0 <= i < |sh.children| ==> sh.children[i].node in Below(sh)
    ensures BelowAll(sh.children) <= Below(sh)
  {
    forall i | 0 <= i < |sh.children| ensures sh.children[i].node in Below(sh) {
      assert sh.children[i].node in Top(sh.children);
    }
  }

  // No link leads out of such a tree.
  lemma TreeIsClosed(sh: Shape, v: Json)
    requires Is(sh, v) && sh.node.next == null
    ensures Closed(Nodes(sh))
  {
    hide Is, Below;
    BranchIsClosed(sh, v);
  }

  lemma {:induction false} BranchIsClosed(sh: Shape, v: Json)
    requires Is(sh, v)
    ensures Closed(Below(sh)) && (IsBranch(sh.node) && sh.node.head != null ==> sh.node.head in Below(sh))
    decreases sh
  {
    hide Children, Are, AreMembers, Closed, Below;
    if v.Array? || v.Object? {
      forall i | 0 <= i < |sh.children|
        ensures Closed(Below(sh.children[i]))
        ensures IsBranch(sh.children[i].node) && sh.children[i].node.head != null ==> sh.children[i].node.head in Below(sh.children[i])
      {
        if v.Array? {
          AreAt(sh.children, v.elements, i);
          BranchIsClosed(sh.children[i], v.elements[i]);
        } else {
          AreMembersAt(sh.children, v.members, i);
          BranchIsClosed(sh.children[i], v.members[i].value);
        }
      }
      ChildrenAreClosed(sh);
    } else {
      NothingBelow();
      LeafIsClosed(sh);
    }
  }

  lemma LeafIsClosed(sh: Shape)
    requires sh.children == []
    ensures Closed(Below(sh))
  {
    NothingBelow();
  }

  lemma ChildrenAreClosed(sh: Shape)
    requires Children(sh.node, Tops(sh.children))
    requires forall i :: 0 <= i < |sh.children| ==>
               var c := sh.children[i];
               Closed(Below(c)) && (IsBranch(c.node) && c.node.head != null ==> c.node.head in Below(c))
    ensures Closed(Below(sh)) && (sh.node.head != null ==> sh.node.head in Below(sh))
  {
    var s := Tops(sh.children);
    BelowHas(sh);
    LinksStay(sh.node, s);
    hide Children, Tops, Below;
    forall n | n in Below(sh)
      ensures (n.next != null ==> n.next in Below(sh)) && (IsBranch(n) && n.head != null ==> n.head in Below(sh))
    {
      var i := BelowOne(sh, n);
      BelowPart(sh.children, i);
      if n == sh.children[i].node { assert n == s[i]; }
    }
  }

  // A node below the top hangs there directly, or is below one of the children.
  lemma BelowOne(sh: Shape, n: JsonNode) returns (i: nat)
    requires n in Below(sh)
    ensures i < |sh.children| && (n == sh.children[i].node || n in Below(sh.children[i]))
  {
    if n in Top(sh.children) {
      i :| 0 <= i < |sh.children| && sh.children[i].node == n;
    } else {
      i := BelowIn(sh.children, n);
    }
  }

  lemma {:induction false} BelowIn(ss: seq<Shape>, n: JsonNode) returns (i: nat)
    requires n in BelowAll(ss)
    ensures i < |ss| && n in Below(ss[i])
  {
    hide Below;
    if n in Below(ss[0]) {
      i := 0;
    } else {
      i := BelowIn(ss[1..], n);
      i := i + 1;
    }
  }

  lemma {:induction false} BelowPart(ss: seq<Shape>, i: nat)
    requires i < |ss|
    ensures Below(ss[i]) <= BelowAll(ss)
  {
    hide Below;
    if i > 0 { BelowPart(ss[1..], i - 1); }
  }

  // json_check accepts what json_decode builds.
  method DecodeThenCheck(s: bytes) returns (ok: bool)
    ensures ok <==> DecodeJson(s).Decoded?
  {
    hide DecodeJson, Is, Texts, Below, Closed, Sound, Loops;
    ghost var built, pool;
    var out;
    out, built, pool := DecodeText(s);
    ghost var all: set<JsonNode> := {};
    if out != null {
      ghost var v := DecodeJson(s).value;
      all := Nodes(built.shape);
      DecodedTexts(s);
      TreeIsClosed(built.shape, v);
      TreeIsSound(built.shape, v, all);
      TopDoesNotLoop(out, all);
    } else {
      NothingIsClosed();
    }
    ok := Check(out, all);
  }

  lemma NothingIsClosed()
    ensures Closed({})
  {
  }

  // From any text to its tree, to the text printed from it, and to a tree again: it is a tree for
  // the same value, unless a string holds U+001F.
  method DecodeStringifyDecode(s: bytes, space: bytes)
    returns (first: JsonNode?, second: JsonNode?, ghost built: Built, ghost pool: set<JsonNode>, ghost again: Built, ghost more: set<JsonNode>)
    requires JsonRoundTrip.Spaces(space)
    ensures match DecodeJson(s)
            case NotJson => first == null && second == null
            case Decoded(v) => NewTree(first, built, pool, v) && if Clean(v) then NewTree(second, again, more, v) else second == null
  {
    hide DecodeJson, Is, Texts, NumbersAreNumbers, Separate, Below, Clean, Normal;
    first, built, pool := DecodeText(s);
    if first == null { return null, null, Nothing, {}, Nothing, {}; }
    ghost var v := DecodeJson(s).value;
    DecodedTexts(s);
    NormalIsIdentity(v);
    second, again, more := StringifyAndDecode(first, space, built.shape, v, pool);
  }
}
