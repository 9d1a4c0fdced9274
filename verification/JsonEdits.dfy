/**
 Runs of the calls that edit the children of an array or object, and json_check after them.
 */
module JsonEdits {
  import opened Utf8
  import opened JsonNodes
  import opened JsonCheck

  // A call on one container: json_append_element and json_append_member, json_prepend_element and
  // json_prepend_member (the forms for members bring a key), or json_remove_from_parent.
  datatype Edit =
    | Append(node: JsonNode, key: CString)
    | Prepend(node: JsonNode, key: CString)
    | Remove(index: nat)

  // The children of a container, and the key of every node that is or may become one.
  datatype Family = Family(children: seq<JsonNode>, keys: map<JsonNode, CString>)

  // An element keeps the key it has; a member gets one.
  function Named(keys: map<JsonNode, CString>, n: JsonNode, key: CString): map<JsonNode, CString> {
    if key.NULL? then keys else keys[n := key]
  }

  // What the calls require of their callers: a new child hangs nowhere and is not the container
  // itself, and the container is an array or object as the call says.
  predicate CanEdit(tag: nat, f: Family, e: Edit) {
    match e
    case Append(n, key) => n in f.keys && n !in f.children && tag == if key.NULL? then JSON_ARRAY else JSON_OBJECT
    case Prepend(n, key) => n in f.keys && n !in f.children && tag == if key.NULL? then JSON_ARRAY else JSON_OBJECT
    case Remove(i) => i < |f.children|
  }

  function Edited(f: Family, e: Edit): Family
    requires e.Remove? ==> e.index < |f.children|
  {
    match e
    case Append(n, key) => Family(f.children + [n], Named(f.keys, n, key))
    case Prepend(n, key) => Family([n] + f.children, Named(f.keys, n, key))
    case Remove(i) => Family(Without(f.children, i), f.keys[f.children[i] := NULL])
  }

  predicate CanRun(tag: nat, f: Family, es: seq<Edit>)
    decreases |es|
  {
    |es| > 0 ==> CanEdit(tag, f, es[0]) && CanRun(tag, Edited(f, es[0]), es[1..])
  }

  function AfterRun(tag: nat, f: Family, es: seq<Edit>): Family
    requires CanRun(tag, f, es)
    decreases |es|
  {
    if |es| == 0 then f else AfterRun(tag, Edited(f, es[0]), es[1..])
  }

  // The heap holds f below p: the children are linked in order, every node in the pool has its
  // key, and those that are no children hang nowhere.
  ghost predicate Holds(p: JsonNode, pool: set<JsonNode>, f: Family)
    reads p`head, p`tail, pool`key, pool`parent, pool`prev, pool`next
  {
    && p !in pool && f.keys.Keys == pool && (forall n :: n in f.children ==> n in pool)
    && Children(p, f.children) && Keyed(pool, f) && Loose(pool, f.children)
  }

  ghost predicate Keyed(pool: set<JsonNode>, f: Family)
    reads pool`key
  {
    forall n :: n in pool ==> n in f.keys && n.key == f.keys[n]
  }

  ghost predicate Loose(pool: set<JsonNode>, s: seq<JsonNode>)
    reads pool`parent
  {
    forall n :: n in pool && n !in s ==> n.parent == null
  }

  lemma WithoutSame(s: seq<JsonNode>, i: nat)
    requires i < |s|
    ensures forall n :: n in s ==> n == s[i] || n in Without(s, i)
    ensures forall n :: n in Without(s, i) ==> n in s
  {
    forall n | n in s && n != s[i] ensures n in Without(s, i) {
      var j :| 0 <= j < |s| && s[j] == n;
      assert n == Without(s, i)[if j < i then j else j - 1];
    }
  }

  method AddChild(p: JsonNode, child: JsonNode, key: CString, front: bool, ghost pool: set<JsonNode>, f: Family, ghost all: set<JsonNode>)
    requires Holds(p, pool, f) && child in pool && child !in f.children
    requires p.tag == if key.NULL? then JSON_ARRAY else JSON_OBJECT
    requires Closed(all) && pool <= all && p in all
    modifies p`head, p`tail, pool`key, pool`parent, pool`prev, pool`next
    ensures Holds(p, pool, Family(if front then [child] + f.children else f.children + [child], Named(f.keys, child, key)))
    ensures Closed(all)
  {
    hide Children;
    ghost var s := f.children;
    if |s| > 0 { assert s[0] in pool && s[|s| - 1] in pool; }
    Add(p, child, key, front, s);
    LinksStay(p, if front then [child] + s else s + [child]);
  }

  method RemoveChild(p: JsonNode, i: nat, ghost pool: set<JsonNode>, f: Family, ghost all: set<JsonNode>)
    requires Holds(p, pool, f) && i < |f.children|
    requires Closed(all) && pool <= all && p in all
    modifies p`head, p`tail, pool`key, pool`parent, pool`prev, pool`next
    ensures Holds(p, pool, Family(Without(f.children, i), f.keys[f.children[i] := NULL]))
    ensures Closed(all)
  {
    hide Children, Without;
    ghost var s := f.children;
    var child := f.children[i];
    assert child in s && (i > 0 ==> s[i - 1] in s) && (i + 1 < |s| ==> s[i + 1] in s);
    InList(p, s, i);
    WithoutSame(s, i);
    RemoveFromParent(child, s, i);
    LinksStay(p, Without(s, i));
  }

  lemma InList(p: JsonNode, s: seq<JsonNode>, i: nat)
    requires Children(p, s) && i < |s|
    ensures s[i].parent == p
  {
  }

  method DoEdit(p: JsonNode, ghost pool: set<JsonNode>, f: Family, e: Edit, ghost all: set<JsonNode>)
    requires Holds(p, pool, f) && CanEdit(p.tag, f, e)
    requires Closed(all) && pool <= all && p in all
    modifies p`head, p`tail, pool`key, pool`parent, pool`prev, pool`next
    ensures Holds(p, pool, Edited(f, e)) && Closed(all)
  {
    assert f.keys.Keys == pool;
    match e
    case Append(n, key) => AddChild(p, n, key, false, pool, f, all);
    case Prepend(n, key) => AddChild(p, n, key, true, pool, f, all);
    case Remove(i) => RemoveChild(p, i, pool, f, all);
  }

  // Any sequence of edits, of elements or of members, keeps the list well formed and has the
  // effect of the edits on the sequence of children and on their keys.
  method RunEdits(p: JsonNode, ghost pool: set<JsonNode>, f: Family, es: seq<Edit>, ghost all: set<JsonNode>)
    requires Holds(p, pool, f) && CanRun(p.tag, f, es)
    requires Closed(all) && pool <= all && p in all
    modifies p`head, p`tail, pool`key, pool`parent, pool`prev, pool`next
    ensures Holds(p, pool, AfterRun(p.tag, f, es)) && Closed(all)
    decreases |es|
  {
    hide Holds, Closed, Edited;
    if |es| > 0 {
      DoEdit(p, pool, f, es[0], all);
      RunEdits(p, pool, Edited(f, es[0]), es[1..], all);
    }
  }

  // ---------- json_check after a run ----------

  // What hangs below the pool's nodes is in inner, and inner is none of them.
  ghost predicate Tucked(p: JsonNode, pool: set<JsonNode>, inner: set<JsonNode>)
    reads pool`tag, pool`head, inner
  {
    && p !in inner && pool !! inner && Closed(inner)
    && (forall n :: n in pool && IsBranch(n) && n.head != null ==> n.head in inner)
  }

  // A node of the pool, its key apart: all is well with it and below it.
  ghost predicate Fit(n: JsonNode, inner: set<JsonNode>)
    reads n`tag, n`str, n`head, n`tail, inner
  {
    IsNode(n) && (IsBranch(n) ==> SoundChildren(n, inner))
  }

  predicate FitKey(tag: nat, key: CString) {
    if tag == JSON_ARRAY then key.NULL? else key.CString? && Valid(key.s)
  }

  lemma {:induction false} ChainStays(c: JsonNode?, all: set<JsonNode>, fuel: nat, inner: set<JsonNode>)
    requires Closed(inner) && (c != null ==> c in inner)
    ensures forall n :: n in Chain(c, all, fuel) ==> n in inner
  {
    if c != null && c in all && fuel > 0 { ChainStays(c.next, all, fuel - 1, inner); }
  }

  // Soundness looks no further than the nodes below.
  lemma SameChildren(n: JsonNode, inner: set<JsonNode>, all: set<JsonNode>)
    requires Closed(inner) && inner <= all && (n.head != null ==> n.head in inner)
    ensures var s, t := Chain(n.head, inner, |inner|), Chain(n.head, all, |all|);
            (Children(n, s) <==> Children(n, t)) && (Children(n, s) ==> s == t)
    ensures forall c :: c in Chain(n.head, inner, |inner|) || c in Chain(n.head, all, |all|) ==> c in inner
  {
    hide Chain, Closed, Children;
    var s, t := Chain(n.head, inner, |inner|), Chain(n.head, all, |all|);
    ChainStays(n.head, inner, |inner|, inner);
    ChainStays(n.head, all, |all|, inner);
    if Children(n, s) { ChildrenAreTheChain(n, s, all); }
    if Children(n, t) { ChildrenAreTheChain(n, t, inner); }
  }

  lemma {:induction false} SameDepth(n: JsonNode, inner: set<JsonNode>, all: set<JsonNode>, depth: nat)
    requires Closed(inner) && inner <= all && (IsBranch(n) && n.head != null ==> n.head in inner)
    ensures SoundTo(n, inner, depth) <==> SoundTo(n, all, depth)
    decreases depth
  {
    hide Chain, Children, KeyFits, KeyIsText, IsNode;
    if depth > 0 && IsBranch(n) {
      SameChildren(n, inner, all);
      forall c | c in inner ensures SoundTo(c, inner, depth - 1) <==> SoundTo(c, all, depth - 1) {
        SameDepth(c, inner, all, depth - 1);
      }
    }
  }

  lemma SameSound(n: JsonNode, inner: set<JsonNode>, all: set<JsonNode>)
    requires Closed(inner) && inner <= all && (IsBranch(n) && n.head != null ==> n.head in inner)
    ensures Sound(n, inner) <==> Sound(n, all)
  {
    hide SoundTo, Closed;
    if Sound(n, inner) {
      var depth: nat :| SoundTo(n, inner, depth);
      SameDepth(n, inner, all, depth);
    }
    if Sound(n, all) {
      var depth: nat :| SoundTo(n, all, depth);
      SameDepth(n, inner, all, depth);
    }
  }

  // The check goes from p to the pool, from there to inner, and never back to p.
  lemma {:induction false} WayStays(n: JsonNode, m: JsonNode, inner: set<JsonNode>, all: set<JsonNode>, k: nat)
    requires Closed(inner) && Closed(all) && n in all && k > 0 && (IsBranch(n) && n.head != null ==> n.head in inner)
    requires WayDown(n, m, all, k)
    ensures m in inner
    decreases k
  {
    hide Closed, Chain, KeyIsText, IsNode, LinksFit, KeyFits, Sound;
    var c :| c in all && Calls(n, c, all) && WayDown(c, m, all, k - 1);
    ChainStays(n.head, all, |all|, inner);
    assert c in inner;
    if k > 1 {
      ClosedAt(c, inner);
      WayStays(c, m, inner, all, k - 1);
    }
  }

  lemma ClosedAt(c: JsonNode, inner: set<JsonNode>)
    requires Closed(inner) && c in inner
    ensures IsBranch(c) && c.head != null ==> c.head in inner
  {
  }

  lemma NeverBack(p: JsonNode, pool: set<JsonNode>, f: Family, inner: set<JsonNode>, all: set<JsonNode>)
    requires Closed(all) && p in all && pool <= all && Holds(p, pool, f) && Tucked(p, pool, inner)
    ensures !Loops(p, all)
  {
    hide Closed, Calls, Holds;
    if Loops(p, all) {
      var k: nat :| k > 0 && WayDown(p, p, all, k);
      var c :| c in all && Calls(p, c, all) && WayDown(c, p, all, k - 1);
      CallsMember(p, c, pool, f, all);
      if k > 1 { WayStays(c, p, inner, all, k - 1); }
    }
  }

  lemma CallsMember(p: JsonNode, c: JsonNode, pool: set<JsonNode>, f: Family, all: set<JsonNode>)
    requires Closed(all) && p in all && pool <= all && Holds(p, pool, f) && Calls(p, c, all)
    ensures p !in pool && c in pool
  {
    ChildrenAreTheChain(p, f.children, all);
    hide Closed, Chain, KeyIsText, IsNode, LinksFit, KeyFits, Sound, Children;
  }

  // A child, sound but perhaps for its key.
  lemma SoundChild(n: JsonNode, inner: set<JsonNode>, all: set<JsonNode>)
    requires Closed(inner) && inner <= all && (IsBranch(n) && n.head != null ==> n.head in inner)
    ensures Sound(n, all) <==> KeyIsText(n) && Fit(n, inner)
  {
    hide Closed, KeyIsText, IsNode, SoundChildren, Sound;
    SameSound(n, inner, all);
    SoundIff(n, inner);
  }

  // What json_check says of a container once its children are f.
  lemma SoundFamily(p: JsonNode, pool: set<JsonNode>, f: Family, inner: set<JsonNode>, all: set<JsonNode>)
    requires Closed(all) && p in all && pool + inner <= all && Holds(p, pool, f) && Tucked(p, pool, inner) && IsBranch(p)
    ensures Sound(p, all) <==> KeyIsText(p) && forall n :: n in f.children ==> n in pool && n in f.keys && FitKey(p.tag, f.keys[n]) && Fit(n, inner)
  {
    ChildrenAreTheChain(p, f.children, all);
    SoundIff(p, all);
    hide Closed, Chain, Children, Sound, Fit;
    forall n | n in f.children
      ensures KeyFits(p, n) && Sound(n, all) <==> FitKey(p.tag, f.keys[n]) && Fit(n, inner)
    {
      SoundChild(n, inner, all);
    }
  }

  lemma TuckedApart(p: JsonNode, pool: set<JsonNode>, inner: set<JsonNode>)
    requires Tucked(p, pool, inner)
    ensures p !in inner && pool !! inner
  {
  }

  lemma Apart(p: JsonNode, pool: set<JsonNode>, f: Family)
    requires Holds(p, pool, f)
    ensures p !in pool
  {
  }

  // After any run json_check accepts the container exactly when it would accept what hangs below
  // its children, and every key that was given to one of them, and is still there, is text.
  method RunThenCheck(p: JsonNode, ghost pool: set<JsonNode>, f: Family, es: seq<Edit>, ghost inner: set<JsonNode>, ghost all: set<JsonNode>)
    returns (ok: bool)
    requires Holds(p, pool, f) && CanRun(p.tag, f, es)
    requires Closed(all) && pool + inner <= all && p in all && Tucked(p, pool, inner) && IsBranch(p)
    modifies p`head, p`tail, pool`key, pool`parent, pool`prev, pool`next
    ensures Holds(p, pool, AfterRun(p.tag, f, es)) && (ok <==> Sound(p, all))
    ensures var g := AfterRun(p.tag, f, es);
            ok <==> KeyIsText(p) && forall n :: n in g.children ==> n in pool && n in g.keys && FitKey(p.tag, g.keys[n]) && old(Fit(n, inner))
  {
    hide Closed, CanRun, AfterRun, KeyIsText, Fit, Sound, Holds, FitKey, Loops;
    TuckedApart(p, pool, inner);
    hide Tucked;
    assert p !in pool by { Apart(p, pool, f); }
    RunEdits(p, pool, f, es, all);
    ghost var g := AfterRun(p.tag, f, es);
    NeverBack(p, pool, g, inner, all);
    SoundFamily(p, pool, g, inner, all);
    ok := Check(p, all);
  }

  // json_append_element takes a child's own parent, and json_check does not end on the result.
  method AppendParent(child: JsonNode, parent: JsonNode)
    requires child != parent && child.tag == parent.tag == JSON_ARRAY && child.key == parent.key == NULL
    requires Children(parent, [child]) && Children(child, []) && parent.parent == null
    modifies child, parent
    ensures Children(child, [parent]) && Children(parent, [child])
    ensures Closed({child, parent}) && Loops(child, {child, parent})
  {
    Add(child, parent, NULL, false, []);
    OnlyChild(child, parent);
    OnlyChild(parent, child);
    TwoInACircle(child, parent);
  }

  lemma OnlyChild(p: JsonNode, c: JsonNode)
    requires Children(p, [c])
    ensures p.head == p.tail == c && c.parent == p && c.prev == c.next == null
  {
    assert [c][0].parent == p && [c][0].prev == null && [c][0].next == null;
  }
}
