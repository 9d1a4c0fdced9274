/**
 Linked trees of nodes and the values they stand for.
 */
module JsonTree {
  import opened Bytes
  import opened Json
  import opened JsonNodes

  // The nodes of a tree.
  datatype Shape = Shape(node: JsonNode, children: seq<Shape>)

  ghost function Tops(ss: seq<Shape>): (s: seq<JsonNode>)
    ensures |s| == |ss| && forall i :: 0 <= i < |ss| ==> s[i] == ss[i].node
  {
    seq(|ss|, i requires 0 <= i < |ss| => ss[i].node)
  }

  ghost function Top(ss: seq<Shape>): set<JsonNode> {
    set i | 0 <= i < |ss| :: ss[i].node
  }

  // Everything strictly below the top nodes.
  ghost function Below(sh: Shape): set<JsonNode>
    decreases sh, 0
  {
    Top(sh.children) + BelowAll(sh.children)
  }

  ghost function BelowAll(ss: seq<Shape>): set<JsonNode>
    decreases ss, 1
  {
    if |ss| == 0 then {} else Below(ss[0]) + BelowAll(ss[1..])
  }

  ghost function Nodes(sh: Shape): set<JsonNode> {
    {sh.node} + Below(sh)
  }

  // The value a tree stands for; where its top node hangs does not matter.
  ghost predicate Is(sh: Shape, v: Json)
    reads sh.node`tag, sh.node`boolean, sh.node`str, sh.node`number, sh.node`head, sh.node`tail, Below(sh)
    decreases sh, 0
  {
    match v
    case Null => sh.node.tag == JSON_NULL && sh.children == []
    case Bool(b) => sh.node.tag == JSON_BOOL && sh.node.boolean == b && sh.children == []
    case Str(s) => sh.node.tag == JSON_STRING && sh.node.str == CString(s) && sh.children == []
    case Number(token) => sh.node.tag == JSON_NUMBER && sh.node.number == token && sh.children == []
    case Array(es) => sh.node.tag == JSON_ARRAY && Children(sh.node, Tops(sh.children)) && Are(sh.children, es)
    case Object(ms) => sh.node.tag == JSON_OBJECT && Children(sh.node, Tops(sh.children)) && AreMembers(sh.children, ms)
  }

  ghost predicate Are(ss: seq<Shape>, es: seq<Json>)
    reads Top(ss)`tag, Top(ss)`boolean, Top(ss)`str, Top(ss)`number, Top(ss)`head, Top(ss)`tail, Top(ss)`key, BelowAll(ss)
    decreases ss, 1
  {
    && |ss| == |es|
    && (|ss| > 0 ==> ss[0].node.key == NULL && Is(ss[0], es[0]) && Are(ss[1..], es[1..]))
  }

  ghost predicate AreMembers(ss: seq<Shape>, ms: seq<Member>)
    reads Top(ss)`tag, Top(ss)`boolean, Top(ss)`str, Top(ss)`number, Top(ss)`head, Top(ss)`tail, Top(ss)`key, BelowAll(ss)
    decreases ss, 1
  {
    && |ss| == |ms|
    && (|ss| > 0 ==> ss[0].node.key == CString(ms[0].key) && Is(ss[0], ms[0].value) && AreMembers(ss[1..], ms[1..]))
  }

  lemma {:induction false} BelowConcat(a: seq<Shape>, b: seq<Shape>)
    ensures BelowAll(a + b) == BelowAll(a) + BelowAll(b) && Top(a + b) == Top(a) + Top(b)
  {
    forall n ensures n in Top(a + b) <==> n in Top(a) + Top(b) {
      if n in Top(a) {
        var i :| 0 <= i < |a| && a[i].node == n;
        assert (a + b)[i].node == n;
      }
      if n in Top(b) {
        var i :| 0 <= i < |b| && b[i].node == n;
        assert (a + b)[|a| + i].node == n;
      }
    }
    if |a| == 0 {
      assert a + b == b;
    } else {
      BelowConcat(a[1..], b);
      assert (a + b)[0] == a[0] && (a + b)[1..] == a[1..] + b;
    }
  }

  lemma {:induction false} AreAppend(ss: seq<Shape>, es: seq<Json>, sh: Shape, e: Json)
    requires Are(ss, es) && Is(sh, e) && sh.node.key == NULL
    ensures Are(ss + [sh], es + [e])
  {
    hide Is;
    if |ss| == 0 {
      assert ss + [sh] == [sh] && es + [e] == [e];
    } else {
      AreAppend(ss[1..], es[1..], sh, e);
      assert (ss + [sh])[1..] == ss[1..] + [sh] && (es + [e])[1..] == es[1..] + [e];
    }
  }

  lemma {:induction false} MembersAppend(ss: seq<Shape>, ms: seq<Member>, sh: Shape, m: Member)
    requires AreMembers(ss, ms) && Is(sh, m.value) && sh.node.key == CString(m.key)
    ensures AreMembers(ss + [sh], ms + [m])
  {
    hide Is;
    if |ss| == 0 {
      assert ss + [sh] == [sh] && ms + [m] == [m];
    } else {
      MembersAppend(ss[1..], ms[1..], sh, m);
      assert (ss + [sh])[1..] == ss[1..] + [sh] && (ms + [m])[1..] == ms[1..] + [m];
    }
  }

  lemma {:induction false} AreAt(ss: seq<Shape>, es: seq<Json>, i: nat)
    requires Are(ss, es) && i < |ss|
    ensures |es| == |ss| && Is(ss[i], es[i]) && ss[i].node.key == NULL
    ensures Below(ss[i]) <= BelowAll(ss)
  {
    hide Is;
    if i > 0 { AreAt(ss[1..], es[1..], i - 1); }
  }

  lemma {:induction false} AreMembersAt(ss: seq<Shape>, ms: seq<Member>, i: nat)
    requires AreMembers(ss, ms) && i < |ss|
    ensures |ms| == |ss| && Is(ss[i], ms[i].value) && ss[i].node.key == CString(ms[i].key)
    ensures Below(ss[i]) <= BelowAll(ss)
  {
    hide Is;
    if i > 0 { AreMembersAt(ss[1..], ms[1..], i - 1); }
  }

  // No node stands in two places of a tree.
  ghost predicate Separate(sh: Shape)
    decreases sh, 0
  {
    sh.node !in Below(sh) && SeparateAll(sh.children)
  }

  ghost predicate SeparateAll(ss: seq<Shape>)
    decreases ss, 1
  {
    |ss| > 0 ==> Separate(ss[0]) && Nodes(ss[0]) !! Top(ss[1..]) + BelowAll(ss[1..]) && SeparateAll(ss[1..])
  }

  lemma FirstAndRest(ss: seq<Shape>)
    requires |ss| > 0
    ensures Top(ss) == {ss[0].node} + Top(ss[1..]) && BelowAll(ss) == Below(ss[0]) + BelowAll(ss[1..])
  {
    BelowConcat([ss[0]], ss[1..]);
    assert ss == [ss[0]] + ss[1..];
    OneMore([], ss[0]);
  }

  lemma OneMore(ss: seq<Shape>, sh: Shape)
    ensures Tops(ss + [sh]) == Tops(ss) + [sh.node]
    ensures BelowAll([sh]) == Below(sh) && Top([sh]) == {sh.node}
  {
  }

  lemma {:induction false} SeparateTops(ss: seq<Shape>)
    requires SeparateAll(ss)
    ensures Top(ss) !! BelowAll(ss)
  {
    if |ss| > 0 {
      SeparateTops(ss[1..]);
      FirstAndRest(ss);
    }
  }

  lemma {:induction false} SeparateAppend(ss: seq<Shape>, sh: Shape)
    requires SeparateAll(ss) && Separate(sh) && Nodes(sh) !! Top(ss) + BelowAll(ss)
    ensures SeparateAll(ss + [sh])
  {
    hide Separate, Below, Top;
    if |ss| == 0 {
      assert ss + [sh] == [sh];
      assert [sh][1..] == [];
      NothingBelow();
    } else {
      FirstAndRest(ss);
      SeparateAppend(ss[1..], sh);
      BelowConcat(ss[1..], [sh]);
      OneMore(ss[1..], sh);
      assert (ss + [sh])[0] == ss[0] && (ss + [sh])[1..] == ss[1..] + [sh];
    }
  }

  lemma NothingBelow()
    ensures Top([]) == {} && BelowAll([]) == {}
  {
  }

  // Hanging one more value behind the children of an array: mknode's caller and
  // json_append_element.
  method AppendElement(array_: JsonNode, element: JsonNode, ghost ss: seq<Shape>, ghost es: seq<Json>, ghost sh: Shape, ghost e: Json,
                       ghost pool: set<JsonNode>, ghost more: set<JsonNode>)
    requires array_.tag == JSON_ARRAY && Children(array_, Tops(ss)) && Are(ss, es) && SeparateAll(ss)
    requires element == sh.node && Is(sh, e) && Separate(sh) && element.parent == null && element.key == NULL
    requires Top(ss) + BelowAll(ss) <= pool && Nodes(sh) <= more && pool !! more && array_ !in pool && array_ !in more
    modifies array_`head, array_`tail, pool, more
    ensures Children(array_, Tops(ss + [sh])) && Are(ss + [sh], es + [e]) && SeparateAll(ss + [sh])
    ensures Top(ss + [sh]) + BelowAll(ss + [sh]) <= pool + more
  {
    hide Is, Are, Separate, SeparateAll, Children;
    SeparateTops(ss);
    SeparateNode(sh);
    TopsInTop(ss);
    Add(array_, element, NULL, false, Tops(ss));
    assert Is(sh, e);
    assert Are(ss, es);
    AreAppend(ss, es, sh, e);
    SeparateAppend(ss, sh);
    BelowConcat(ss, [sh]);
    OneMore(ss, sh);
  }

  // The same for an object: append_member.
  method AppendMember(object_: JsonNode, value: JsonNode, key: bytes, ghost ss: seq<Shape>, ghost ms: seq<Member>, ghost sh: Shape,
                      ghost v: Json, ghost pool: set<JsonNode>, ghost more: set<JsonNode>)
    requires object_.tag == JSON_OBJECT && Children(object_, Tops(ss)) && AreMembers(ss, ms) && SeparateAll(ss)
    requires value == sh.node && Is(sh, v) && Separate(sh) && value.parent == null
    requires Top(ss) + BelowAll(ss) <= pool && Nodes(sh) <= more && pool !! more && object_ !in pool && object_ !in more
    modifies object_`head, object_`tail, pool, more
    ensures Children(object_, Tops(ss + [sh])) && AreMembers(ss + [sh], ms + [Member(key, v)]) && SeparateAll(ss + [sh])
    ensures Top(ss + [sh]) + BelowAll(ss + [sh]) <= pool + more
  {
    hide Is, AreMembers, Separate, SeparateAll, Children;
    SeparateTops(ss);
    SeparateNode(sh);
    TopsInTop(ss);
    Add(object_, value, CString(key), false, Tops(ss));
    assert Is(sh, v);
    assert AreMembers(ss, ms);
    MembersAppend(ss, ms, sh, Member(key, v));
    SeparateAppend(ss, sh);
    BelowConcat(ss, [sh]);
    OneMore(ss, sh);
  }

  lemma SeparateNode(sh: Shape)
    requires Separate(sh)
    ensures sh.node !in Below(sh)
  {
  }

  lemma TopsInTop(ss: seq<Shape>)
    ensures forall i :: 0 <= i < |ss| ==> Tops(ss)[i] in Top(ss)
  {
    forall i | 0 <= i < |ss| ensures Tops(ss)[i] in Top(ss) {
      assert ss[i].node in Top(ss);
    }
  }
}
