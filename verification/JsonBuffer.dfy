/**
 The growing output buffer of ccan/json and the printer that fills it.
 */
module JsonBuffer {
  import opened Bytes
  import opened Utf8
  import opened JsonString
  import opened Json
  import opened JsonNodes
  import opened JsonTree

  // A buffer always has room for a NUL behind the octets it may hold.
  class SB {
    var start: array<byte>
    var cur: nat

    predicate Valid()
      reads this
    {
      start.Length > 16 && cur <= End()
    }

    function End(): nat
      requires start.Length > 0
      reads this
    {
      start.Length - 1
    }

    function Contents(): bytes
      requires Valid()
      reads this, start
    {
      start[..cur]
    }

    // sb_init
    constructor ()
      ensures Valid() && Contents() == [] && fresh(start) && End() == 16
    {
      start := new byte[17];
      cur := 0;
    }

    // sb_grow
    method Grow(need: nat)
      requires Valid() && End() - cur < need
      modifies this
      ensures Valid() && fresh(start) && Contents() == old(Contents()) && cur == old(cur)
      ensures End() - cur >= need
    {
      var length, alloc := cur, End();
      alloc := alloc * 2;
      while alloc < length + need
        invariant alloc >= 2 * old(End())
        decreases length + need - alloc
      {
        alloc := alloc * 2;
      }
      var bigger := new byte[alloc + 1];
      forall i | 0 <= i < length { bigger[i] := start[i]; }
      start := bigger;
      cur := length;
      assert start[..cur] == old(start[..cur]);
    }

    // sb_need
    method Need(need: nat)
      requires Valid()
      modifies this
      ensures Valid() && Contents() == old(Contents()) && cur == old(cur)
      ensures start == old(start) || fresh(start)
      ensures End() - cur >= need
    {
      if End() - cur < need { Grow(need); }
    }

    // sb_put
    method Put(s: bytes)
      requires Valid()
      modifies this, start
      ensures Valid() && Contents() == old(Contents()) + s
      ensures start == old(start) || fresh(start)
    {
      Need(|s|);
      cur := Store(start, cur, s);
    }

    // sb_putc
    method Putc(c: byte)
      requires Valid()
      modifies this, start
      ensures Valid() && Contents() == old(Contents()) + [c]
      ensures start == old(start) || fresh(start)
    {
      if cur >= End() { Grow(1); }
      start[cur] := c;
      cur := cur + 1;
    }

    // sb_finish: a NUL behind the contents, inside the allocation.
    method Finish() returns (s: array<byte>)
      requires Valid() && 0 !in Contents()
      modifies start
      ensures s == start && cur < s.Length && s[cur] == 0 && s[..cur] == old(Contents())
      ensures forall i :: 0 <= i < cur ==> s[i] != 0
    {
      start[cur] := 0;
      s := start;
      assert s[..cur] == old(Contents());
      assert forall i :: 0 <= i < cur ==> s[i] == old(Contents())[i];
    }
  }

  method Store(a: array<byte>, b: nat, s: bytes) returns (next: nat)
    requires b + |s| <= a.Length
    modifies a
    ensures next == b + |s| && a[..next] == old(a[..b]) + s
  {
    forall i | 0 <= i < |s| { a[b + i] := s[i]; }
    next := b + |s|;
    assert a[..b] == old(a[..b]) && a[b..next] == s;
  }

  // write_hex16
  method WriteHex16(a: array<byte>, b: nat, val: nat) returns (next: nat)
    requires b + 4 <= a.Length && val <= 0xFFFF
    modifies a
    ensures next == b + 4 && a[..next] == old(a[..b]) + Hex16(val)
  {
    hide HexDigit;
    a[b] := HexDigit(val / 4096 % 16);
    a[b + 1] := HexDigit(val / 256 % 16);
    a[b + 2] := HexDigit(val / 16 % 16);
    a[b + 3] := HexDigit(val % 16);
    next := b + 4;
  }

  // One turn of the loop of emit_string: the character at s[p], written at a[b].
  method EscapeAt(a: array<byte>, b: nat, s: bytes, p: nat) returns (b': nat, p': nat)
    requires p < |s| && ValidateChar(s[p..]) > 0 && b + 14 <= a.Length
    modifies a
    ensures p' == p + ValidateChar(s[p..]) && Scalar(ReadChar(s[p..]))
    ensures b' == b + |EscapeChar(ReadChar(s[p..]))| && a[..b'] == old(a[..b]) + EscapeChar(ReadChar(s[p..]))
  {
    var c := s[p];
    ValidIsWritten(s[p..]);
    AsciiIsItself(s[p..]);
    hide ValidateChar, ReadChar, Hex16, HexDigit, WriteChar;
    p' := p + 1;
    if c == 34 || c == 92 {
      b' := Store(a, b, [BACKSLASH, c]);
    } else if c == 8 {
      b' := Store(a, b, [BACKSLASH, 98]);
    } else if c == 12 {
      b' := Store(a, b, [BACKSLASH, 102]);
    } else if c == 10 {
      b' := Store(a, b, [BACKSLASH, 110]);
    } else if c == 13 {
      b' := Store(a, b, [BACKSLASH, 114]);
    } else if c == 9 {
      b' := Store(a, b, [BACKSLASH, 116]);
    } else {
      var len := ValidateChar(s[p..]);
      if c < 0x1F {
        b' := Store(a, b, [BACKSLASH, 117]);
        b' := WriteHex16(a, b', ReadChar(s[p..]));
      } else {
        assert s[p..][..len] == s[p..p + len];
        b' := Store(a, b, s[p..p + len]);
        p' := p + len;
      }
    }
  }

  lemma AsciiIsItself(s: bytes)
    requires |s| > 0 && ValidateChar(s) > 0
    ensures s[0] < 0x80 ==> ValidateChar(s) == 1 && ReadChar(s) == s[0]
    ensures s[0] >= 0x80 ==> ReadChar(s) >= 0x80
  {
    ValidIsWritten(s);
    FirstOctet(ReadChar(s), s[ValidateChar(s)..]);
    assert s == s[..ValidateChar(s)] + s[ValidateChar(s)..];
  }

  lemma EmitBodyStep(str: bytes, p: nat)
    requires p < |str| && Utf8.Valid(str[p..])
    ensures ValidateChar(str[p..]) > 0 && Scalar(ReadChar(str[p..]))
    ensures var n := ValidateChar(str[p..]);
            && p + n <= |str| && Utf8.Valid(str[p + n..])
            && EmitBody(str[p..]) == EscapeChar(ReadChar(str[p..])) + EmitBody(str[p + n..])
  {
    hide EscapeChar, ReadChar, ValidateChar;
    ValidIsWritten(str[p..]);
    assert str[p..][ValidateChar(str[p..])..] == str[p + ValidateChar(str[p..])..];
  }

  // emit_string: fourteen octets ahead are enough for a character and the quotation marks.
  method EmitStringTo(out: SB, str: bytes)
    requires out.Valid() && Utf8.Valid(str) && 0 !in str
    modifies out, out.start
    ensures out.Valid() && out.Contents() == old(out.Contents()) + EmitString(str)
    ensures out.start == old(out.start) || fresh(out.start)
  {
    hide EmitBody, ReadChar, ValidateChar, EscapeChar, Utf8.Valid;
    ghost var before := out.Contents();
    out.Need(14);
    var b := Store(out.start, out.cur, [QUOTE]);
    var s := 0;
    assert str[0..] == str;
    while Peek(str, s) != 0
      invariant out.Valid() && s <= |str| && out.cur <= b <= out.End() - 13
      invariant out.start == old(out.start) || fresh(out.start)
      invariant Utf8.Valid(str[s..])
      invariant out.start[..b] + EmitBody(str[s..]) == before + [QUOTE] + EmitBody(str)
      decreases |str| - s
    {
      EmitBodyStep(str, s);
      ghost var done, c := out.start[..b], EscapeChar(ReadChar(str[s..]));
      b, s := EscapeAt(out.start, b, str, s);
      assert done + c + EmitBody(str[s..]) == done + (c + EmitBody(str[s..]));
      out.cur := b;
      assert out.Contents() == out.start[..b];
      out.Need(14);
      b := out.cur;
    }
    NothingToEmit(str[s..]);
    b := Store(out.start, b, [QUOTE]);
    out.cur := b;
    assert before + ([QUOTE] + EmitBody(str) + [QUOTE]) == before + [QUOTE] + EmitBody(str) + [QUOTE];
  }

  lemma NothingToEmit(s: bytes)
    requires Utf8.Valid(s) && s == []
    ensures EmitBody(s) == []
  {
  }

  // emit_number, on the text sprintf has produced
  method EmitNumber(out: SB, token: bytes)
    requires out.Valid()
    modifies out, out.start
    ensures out.Valid() && out.Contents() == old(out.Contents()) + if IsNumber(token) then token else NULL_TEXT
    ensures out.start == old(out.start) || fresh(out.start)
  {
    if IsNumber(token) { out.Put(token); } else { out.Put(NULL_TEXT); }
  }

  method PutIndent(out: SB, space: bytes, level: nat)
    requires out.Valid()
    modifies out, out.start
    ensures out.Valid() && out.Contents() == old(out.Contents()) + Indent(space, level)
    ensures out.start == old(out.start) || fresh(out.start)
  {
    var i := 0;
    ghost var before := out.Contents();
    while i < level
      invariant i <= level && out.Valid()
      invariant out.start == old(out.start) || fresh(out.start)
      invariant out.Contents() + Indent(space, level - i) == before + Indent(space, level)
    {
      ghost var done := out.Contents();
      out.Put(space);
      i := i + 1;
      assert done + (space + Indent(space, level - i)) == done + space + Indent(space, level - i);
    }
  }

  // emit_value_indented, of a node that stands for v
  method EmitValue(out: SB, node: JsonNode, space: bytes, level: nat, ghost sh: Shape, ghost v: Json,
                   ghost pool: set<JsonNode>)
    requires out.Valid() && node == sh.node && Is(sh, v) && Below(sh) <= pool && Texts(v)
    modifies out, out.start
    ensures out.Valid() && out.Contents() == old(out.Contents()) + Emit(v, space, level)
    ensures out.start == old(out.start) || fresh(out.start)
    decreases v, 0
  {
    hide EmitString, IsNumber, EmitElements, EmitMembers, Are, AreMembers, Children;
    if node.tag == JSON_NULL {
      out.Put(NULL_TEXT);
    } else if node.tag == JSON_BOOL {
      out.Put(if node.boolean then TRUE_TEXT else FALSE_TEXT);
    } else if node.tag == JSON_STRING {
      EmitStringTo(out, node.str.s);
    } else if node.tag == JSON_NUMBER {
      EmitNumber(out, node.number);
    } else if node.tag == JSON_ARRAY {
      EmitArray(out, node, space, level, sh.children, v.elements, pool);
    } else {
      EmitObject(out, node, space, level, sh.children, v.members, pool);
    }
  }

  lemma NextChild(p: JsonNode, s: seq<JsonNode>, i: nat)
    requires Children(p, s) && i < |s|
    ensures s[i].next == if i + 1 < |s| then s[i + 1] else null
  {
  }

  lemma FirstChild(p: JsonNode, s: seq<JsonNode>)
    requires Children(p, s)
    ensures p.head == if |s| > 0 then s[0] else null
  {
  }

  // emit_array_indented
  method EmitArray(out: SB, array_: JsonNode, space: bytes, level: nat, ghost ss: seq<Shape>, ghost es: seq<Json>,
                   ghost pool: set<JsonNode>)
    requires out.Valid() && Children(array_, Tops(ss)) && Are(ss, es) && Top(ss) + BelowAll(ss) <= pool
    requires forall e :: e in es ==> Texts(e)
    modifies out, out.start
    ensures out.Valid() && out.Contents() == old(out.Contents()) + Emit(Array(es), space, level)
    ensures out.start == old(out.start) || fresh(out.start)
    decreases es, 3
  {
    hide Emit, Indent, EmitElements, Texts, Children, Is;
    ghost var before := out.Contents();
    EmitArrayIs(es, space, level);
    FirstChild(array_, Tops(ss));
    var element := array_.head;
    if element == null {
      out.Put([OPEN_ARRAY, CLOSE_ARRAY]);
      return;
    }
    hide Are, ElementsFrom;
    out.Put([OPEN_ARRAY, NEWLINE]);
    EmitElementsOf(out, array_, element, space, level, ss, es, pool);
    ElementsEnd(es, space, level);
    ghost var done := out.Contents();
    PutIndent(out, space, level);
    out.Putc(CLOSE_ARRAY);
    Framed(before, [OPEN_ARRAY, NEWLINE], ElementsFrom(es, 0, space, level), done, Indent(space, level), CLOSE_ARRAY);
  }

  lemma Framed(before: bytes, open: bytes, items: bytes, done: bytes, indent: bytes, close: byte)
    requires done + (indent + [close]) == before + open + items
    ensures done + indent + [close] == before + (open + items)
  {
    assert done + (indent + [close]) == done + indent + [close];
    assert before + (open + items) == before + open + items;
  }

  // Its loop along the next links.
  method EmitElementsOf(out: SB, array_: JsonNode, head: JsonNode, space: bytes, level: nat, ghost ss: seq<Shape>, ghost es: seq<Json>,
                        ghost pool: set<JsonNode>)
    requires out.Valid() && Children(array_, Tops(ss)) && Are(ss, es) && Top(ss) + BelowAll(ss) <= pool
    requires (forall e :: e in es ==> Texts(e)) && |ss| == |es| > 0 && head == ss[0].node
    modifies out, out.start
    ensures out.Valid()
    ensures out.Contents() + ElementsFrom(es, |es|, space, level) == old(out.Contents()) + ElementsFrom(es, 0, space, level)
    ensures out.start == old(out.start) || fresh(out.start)
    decreases es, 2
  {
    hide Emit, Indent, EmitElements, Texts, Children, Is, Are, ElementsFrom;
    var element: JsonNode? := head;
    ghost var whole := out.Contents() + ElementsFrom(es, 0, space, level);
    ghost var i := 0;
    while element != null
      invariant i <= |es| == |ss| && out.Valid()
      invariant element == if i < |ss| then ss[i].node else null
      invariant out.start == old(out.start) || fresh(out.start)
      invariant out.Contents() + ElementsFrom(es, i, space, level) == whole
      decreases |es| - i
    {
      NextChild(array_, Tops(ss), i);
      AreAt(ss, es, i);
      element := EmitElement(out, element, space, level, ss[i], es, i, pool);
      i := i + 1;
    }
  }

  // One turn of its loop.
  method EmitElement(out: SB, element: JsonNode, space: bytes, level: nat, ghost sh: Shape, ghost es: seq<Json>, ghost i: nat,
                     ghost pool: set<JsonNode>)
    returns (next: JsonNode?)
    requires out.Valid() && i < |es| && (forall e :: e in es ==> Texts(e))
    requires element == sh.node && Is(sh, es[i]) && Below(sh) <= pool && (element.next != null <==> i + 1 < |es|)
    modifies out, out.start
    ensures out.Valid() && next == element.next
    ensures out.Contents() + ElementsFrom(es, i + 1, space, level) == old(out.Contents()) + ElementsFrom(es, i, space, level)
    ensures out.start == old(out.start) || fresh(out.start)
    decreases es, 1
  {
    hide Emit, Indent, Texts, ElementsFrom, Is;
    ElementsStep(es, i, space, level, out.Contents());
    PutIndent(out, space, level + 1);
    EmitValue(out, element, space, level + 1, sh, es[i], pool);
    next := element.next;
    out.Put(if next != null then [COMMA, NEWLINE] else [NEWLINE]);
  }

  // The lines of the elements from the i-th on, and the closing bracket.
  ghost function ElementsFrom(es: seq<Json>, i: nat, space: bytes, level: nat): bytes
    requires i <= |es| && forall e :: e in es ==> Texts(e)
  {
    if i < |es| then Indent(space, level + 1) + EmitElements(es[i..], space, level)
    else Indent(space, level) + [CLOSE_ARRAY]
  }

  lemma EmitArrayIs(es: seq<Json>, space: bytes, level: nat)
    requires forall e :: e in es ==> Texts(e)
    ensures Emit(Array(es), space, level) ==
            if |es| == 0 then [OPEN_ARRAY, CLOSE_ARRAY] else [OPEN_ARRAY, NEWLINE] + ElementsFrom(es, 0, space, level)
  {
    hide EmitElements;
    assert es[0..] == es;
  }

  lemma ElementsStep(es: seq<Json>, i: nat, space: bytes, level: nat, done: bytes)
    requires i < |es| && forall e :: e in es ==> Texts(e)
    ensures done + ElementsFrom(es, i, space, level) ==
            done + Indent(space, level + 1) + Emit(es[i], space, level + 1)
            + (if i + 1 < |es| then [COMMA, NEWLINE] else [NEWLINE]) + ElementsFrom(es, i + 1, space, level)
  {
    hide Emit, Indent, Texts, EmitElements;
    assert es[i..][1..] == es[i + 1..];
    ElementsUnfold(es[i..], space, level);
    if i + 1 < |es| {
      Assoc(done, Indent(space, level + 1), Emit(es[i], space, level + 1), [COMMA, NEWLINE], ElementsFrom(es, i + 1, space, level));
    } else {
      Assoc(done, Indent(space, level + 1), Emit(es[i], space, level + 1), [NEWLINE], ElementsFrom(es, i + 1, space, level));
    }
  }

  lemma ElementsUnfold(es: seq<Json>, space: bytes, level: nat)
    requires |es| > 0 && forall e :: e in es ==> Texts(e)
    ensures EmitElements(es, space, level) == Emit(es[0], space, level + 1)
            + if |es| == 1 then [NEWLINE] + (Indent(space, level) + [CLOSE_ARRAY])
              else [COMMA, NEWLINE] + (Indent(space, level + 1) + EmitElements(es[1..], space, level))
  {
    hide Emit, Indent, Texts;
  }

  lemma Assoc(a: bytes, b: bytes, c: bytes, d: bytes, e: bytes)
    ensures a + (b + (c + (d + e))) == a + b + c + d + e
  {
  }

  lemma ElementsEnd(es: seq<Json>, space: bytes, level: nat)
    requires forall e :: e in es ==> Texts(e)
    ensures ElementsFrom(es, |es|, space, level) == Indent(space, level) + [CLOSE_ARRAY]
  {
  }

  // emit_object_indented
  method EmitObject(out: SB, object_: JsonNode, space: bytes, level: nat, ghost ss: seq<Shape>, ghost ms: seq<Member>,
                    ghost pool: set<JsonNode>)
    requires out.Valid() && Children(object_, Tops(ss)) && AreMembers(ss, ms) && Top(ss) + BelowAll(ss) <= pool
    requires forall m :: m in ms ==> Text(m.key) && Texts(m.value)
    modifies out, out.start
    ensures out.Valid() && out.Contents() == old(out.Contents()) + Emit(Object(ms), space, level)
    ensures out.start == old(out.start) || fresh(out.start)
    decreases ms, 3
  {
    hide Emit, Indent, EmitMembers, EmitString, Texts, Children, Is;
    ghost var before := out.Contents();
    EmitObjectIs(ms, space, level);
    FirstChild(object_, Tops(ss));
    var member := object_.head;
    if member == null {
      out.Put([OPEN_OBJECT, CLOSE_OBJECT]);
      return;
    }
    hide AreMembers, MembersFrom;
    out.Put([OPEN_OBJECT, NEWLINE]);
    EmitMembersOf(out, object_, member, space, level, ss, ms, pool);
    MembersEnd(ms, space, level);
    ghost var done := out.Contents();
    PutIndent(out, space, level);
    out.Putc(CLOSE_OBJECT);
    Framed(before, [OPEN_OBJECT, NEWLINE], MembersFrom(ms, 0, space, level), done, Indent(space, level), CLOSE_OBJECT);
  }

  // Its loop along the next links.
  method EmitMembersOf(out: SB, object_: JsonNode, head: JsonNode, space: bytes, level: nat, ghost ss: seq<Shape>, ghost ms: seq<Member>,
                       ghost pool: set<JsonNode>)
    requires out.Valid() && Children(object_, Tops(ss)) && AreMembers(ss, ms) && Top(ss) + BelowAll(ss) <= pool
    requires (forall m :: m in ms ==> Text(m.key) && Texts(m.value)) && |ss| == |ms| > 0 && head == ss[0].node
    modifies out, out.start
    ensures out.Valid()
    ensures out.Contents() + MembersFrom(ms, |ms|, space, level) == old(out.Contents()) + MembersFrom(ms, 0, space, level)
    ensures out.start == old(out.start) || fresh(out.start)
    decreases ms, 2
  {
    hide Emit, Indent, EmitMembers, EmitString, Texts, Children, Is, AreMembers, MembersFrom;
    var member: JsonNode? := head;
    ghost var whole := out.Contents() + MembersFrom(ms, 0, space, level);
    ghost var i := 0;
    while member != null
      invariant i <= |ms| == |ss| && out.Valid()
      invariant member == if i < |ss| then ss[i].node else null
      invariant out.start == old(out.start) || fresh(out.start)
      invariant out.Contents() + MembersFrom(ms, i, space, level) == whole
      decreases |ms| - i
    {
      NextChild(object_, Tops(ss), i);
      AreMembersAt(ss, ms, i);
      member := EmitMember(out, member, space, level, ss[i], ms, i, pool);
      i := i + 1;
    }
  }

  // One turn of its loop.
  method EmitMember(out: SB, member: JsonNode, space: bytes, level: nat, ghost sh: Shape, ghost ms: seq<Member>, ghost i: nat,
                    ghost pool: set<JsonNode>)
    returns (next: JsonNode?)
    requires out.Valid() && i < |ms| && forall m :: m in ms ==> Text(m.key) && Texts(m.value)
    requires member == sh.node && Is(sh, ms[i].value) && Below(sh) <= pool && member.key == CString(ms[i].key)
    requires member.next != null <==> i + 1 < |ms|
    modifies out, out.start
    ensures out.Valid() && next == member.next
    ensures out.Contents() + MembersFrom(ms, i + 1, space, level) == old(out.Contents()) + MembersFrom(ms, i, space, level)
    ensures out.start == old(out.start) || fresh(out.start)
    decreases ms, 1
  {
    hide Emit, EmitString, Indent, Texts, MembersFrom, Is;
    MembersStep(ms, i, space, level, out.Contents());
    PutIndent(out, space, level + 1);
    EmitStringTo(out, member.key.s);
    out.Put([COLON, 32]);
    EmitValue(out, member, space, level + 1, sh, ms[i].value, pool);
    next := member.next;
    out.Put(if next != null then [COMMA, NEWLINE] else [NEWLINE]);
  }

  ghost function MembersFrom(ms: seq<Member>, i: nat, space: bytes, level: nat): bytes
    requires i <= |ms| && forall m :: m in ms ==> Text(m.key) && Texts(m.value)
  {
    if i < |ms| then Indent(space, level + 1) + EmitMembers(ms[i..], space, level)
    else Indent(space, level) + [CLOSE_OBJECT]
  }

  lemma EmitObjectIs(ms: seq<Member>, space: bytes, level: nat)
    requires forall m :: m in ms ==> Text(m.key) && Texts(m.value)
    ensures Emit(Object(ms), space, level) ==
            if |ms| == 0 then [OPEN_OBJECT, CLOSE_OBJECT] else [OPEN_OBJECT, NEWLINE] + MembersFrom(ms, 0, space, level)
  {
    hide EmitMembers;
    assert ms[0..] == ms;
  }

  lemma MembersStep(ms: seq<Member>, i: nat, space: bytes, level: nat, done: bytes)
    requires i < |ms| && forall m :: m in ms ==> Text(m.key) && Texts(m.value)
    ensures ms[i] in ms && Text(ms[i].key)
    ensures done + MembersFrom(ms, i, space, level) ==
            done + Indent(space, level + 1) + EmitString(ms[i].key) + [COLON, 32] + Emit(ms[i].value, space, level + 1)
            + (if i + 1 < |ms| then [COMMA, NEWLINE] else [NEWLINE]) + MembersFrom(ms, i + 1, space, level)
  {
    hide Emit, Indent, EmitString, Texts, EmitMembers;
    assert ms[i] in ms && Text(ms[i].key);
    assert ms[i..][1..] == ms[i + 1..];
    MembersUnfold(ms[i..], space, level);
    var line := Indent(space, level + 1);
    var key := EmitString(ms[i].key) + [COLON, 32];
    var value := Emit(ms[i].value, space, level + 1);
    if i + 1 < |ms| {
      Assoc(done, line, key + value, [COMMA, NEWLINE], MembersFrom(ms, i + 1, space, level));
    } else {
      Assoc(done, line, key + value, [NEWLINE], MembersFrom(ms, i + 1, space, level));
    }
    assert done + line + (key + value) == done + line + EmitString(ms[i].key) + [COLON, 32] + value;
  }

  lemma MembersUnfold(ms: seq<Member>, space: bytes, level: nat)
    requires |ms| > 0 && forall m :: m in ms ==> Text(m.key) && Texts(m.value)
    ensures ms[0] in ms && Text(ms[0].key)
    ensures EmitMembers(ms, space, level) == EmitString(ms[0].key) + [COLON, 32] + Emit(ms[0].value, space, level + 1)
            + if |ms| == 1 then [NEWLINE] + (Indent(space, level) + [CLOSE_OBJECT])
              else [COMMA, NEWLINE] + (Indent(space, level + 1) + EmitMembers(ms[1..], space, level))
  {
    hide Emit, Indent, EmitString, Texts;
    assert ms[0] in ms && Text(ms[0].key);
  }

  lemma MembersEnd(ms: seq<Member>, space: bytes, level: nat)
    requires forall m :: m in ms ==> Text(m.key) && Texts(m.value)
    ensures MembersFrom(ms, |ms|, space, level) == Indent(space, level) + [CLOSE_OBJECT]
  {
  }

  // ---------- no NUL is printed ----------

  lemma EscapedHasNoNul(u: nat)
    requires Scalar(u) && u > 0
    ensures 0 !in EscapeChar(u)
  {
    OctetsOf(u, 0);
    hide WriteChar;
  }

  lemma {:induction false} BodyHasNoNul(s: bytes)
    requires Text(s)
    ensures 0 !in EmitBody(s)
    decreases |s|
  {
    hide EscapeChar, ReadChar, ValidateChar;
    if |s| > 0 {
      var n := ValidateChar(s);
      ValidIsWritten(s);
      CharOctets(s, 0);
      InTail(s, n, 0);
      EscapedHasNoNul(ReadChar(s));
      BodyHasNoNul(s[n..]);
    }
  }

  lemma {:induction false} IndentHasNoNul(space: bytes, level: nat)
    requires 0 !in space
    ensures 0 !in Indent(space, level)
  {
    if level > 0 { IndentHasNoNul(space, level - 1); }
  }

  lemma SeparatorHasNoNul(last: bool, close: byte, space: bytes, level: nat)
    requires 0 !in space && close != 0
    ensures 0 !in Separator(last, close, space, level)
  {
    IndentHasNoNul(space, level);
    IndentHasNoNul(space, level + 1);
    hide Indent;
  }

  lemma {:induction false} EmittedHasNoNul(v: Json, space: bytes, level: nat)
    requires Texts(v) && 0 !in space
    ensures 0 !in Emit(v, space, level)
    decreases v, 0
  {
    hide EmitElements, EmitMembers, Indent, IsNumber;
    IndentHasNoNul(space, level + 1);
    match v
    case Str(s) => BodyHasNoNul(s);
    case Array(es) => if |es| > 0 { ElementsHaveNoNul(es, space, level); }
    case Object(ms) => if |ms| > 0 { MembersHaveNoNul(ms, space, level); }
    case _ =>
  }

  lemma {:induction false} ElementsHaveNoNul(es: seq<Json>, space: bytes, level: nat)
    requires |es| > 0 && (forall e :: e in es ==> Texts(e)) && 0 !in space
    ensures 0 !in EmitElements(es, space, level)
    decreases es, 1
  {
    hide Emit, Separator;
    EmittedHasNoNul(es[0], space, level + 1);
    SeparatorHasNoNul(|es| == 1, CLOSE_ARRAY, space, level);
    if |es| > 1 { ElementsHaveNoNul(es[1..], space, level); }
  }

  lemma {:induction false} MembersHaveNoNul(ms: seq<Member>, space: bytes, level: nat)
    requires |ms| > 0 && (forall m :: m in ms ==> Text(m.key) && Texts(m.value)) && 0 !in space
    ensures 0 !in EmitMembers(ms, space, level)
    decreases ms, 1
  {
    hide Emit, Separator, EmitBody;
    assert ms[0] in ms && Text(ms[0].key);
    BodyHasNoNul(ms[0].key);
    EmittedHasNoNul(ms[0].value, space, level + 1);
    SeparatorHasNoNul(|ms| == 1, CLOSE_OBJECT, space, level);
    if |ms| > 1 { MembersHaveNoNul(ms[1..], space, level); }
  }

  // json_stringify, with an indentation; without one it returns no text.
  method Stringify(node: JsonNode, space: bytes, ghost sh: Shape, ghost v: Json, ghost pool: set<JsonNode>)
    returns (s: array<byte>, len: nat)
    requires node == sh.node && Is(sh, v) && Below(sh) <= pool && Texts(v) && 0 !in space
    ensures fresh(s) && len < s.Length && s[..len] == Emit(v, space, 0) && s[len] == 0
    ensures forall i :: 0 <= i < len ==> s[i] != 0
  {
    hide Emit, Texts, Is;
    var sb := new SB();
    EmitValue(sb, node, space, 0, sh, v, pool);
    EmittedHasNoNul(v, space, 0);
    len := sb.cur;
    assert sb.Contents() == Emit(v, space, 0);
    s := sb.Finish();
  }
}
