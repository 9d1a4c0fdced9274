/**
 json_check, which walks a tree of linked nodes: what it accepts on a heap with arbitrary
 links, and on which of them it does not end.
 */
module JsonCheck {
  import opened Utf8
  import opened JsonNodes

  // At most `fuel` nodes, along the next links.
  function Chain(c: JsonNode?, all: set<JsonNode>, fuel: nat): (s: seq<JsonNode>)
    reads all
    ensures |s| <= fuel
    ensures forall n :: n in s ==> n in all
  {
    if c == null || c !in all || fuel == 0 then [] else [c] + Chain(c.next, all, fuel - 1)
  }

  // A set that no link to a next or first child leads out of.  There is no other rule: the links
  // may form cycles, meet, and disagree with each other.
  ghost predicate Closed(all: set<JsonNode>)
    reads all
  {
    forall n :: n in all ==> (n.next != null ==> n.next in all) && (IsBranch(n) && n.head != null ==> n.head in all)
  }

  ghost predicate IsText(c: CString) {
    c.CString? && Valid(c.s)
  }

  ghost predicate IsBranch(n: JsonNode)
    reads n`tag
  {
    n.tag == JSON_ARRAY || n.tag == JSON_OBJECT
  }

  ghost predicate KeyIsText(n: JsonNode)
    reads n`key
  {
    n.key != NULL ==> IsText(n.key)
  }

  // What a node says of itself, its key and children apart.
  ghost predicate IsNode(n: JsonNode)
    reads n`tag, n`str
  {
    n.tag <= JSON_OBJECT && (n.tag == JSON_STRING ==> IsText(n.str))
  }

  ghost predicate KeyFits(parent: JsonNode, child: JsonNode)
    reads parent`tag, child`key
  {
    if parent.tag == JSON_ARRAY then child.key == NULL else child.key != NULL
  }

  // What json_check promises of a node and everything below it: every list of children is well
  // formed, every key and string is text, and there are less than `depth` levels.
  ghost predicate SoundTo(n: JsonNode, all: set<JsonNode>, depth: nat)
    reads n`key, n`tag, n`str, n`head, n`tail, all
    decreases depth
  {
    && depth > 0 && KeyIsText(n) && IsNode(n)
    && (IsBranch(n) ==>
          var s := Chain(n.head, all, |all|);
          && Children(n, s)
          && forall c :: c in s ==> KeyFits(n, c) && SoundTo(c, all, depth - 1))
  }

  ghost predicate Sound(n: JsonNode, all: set<JsonNode>)
    reads n`key, n`tag, n`str, n`head, n`tail, all
  {
    exists depth: nat :: SoundTo(n, all, depth)
  }

  ghost predicate SoundChildren(n: JsonNode, all: set<JsonNode>)
    reads n`tag, n`head, n`tail, all
  {
    var s := Chain(n.head, all, |all|);
    && Children(n, s)
    && forall c :: c in s ==> KeyFits(n, c) && Sound(c, all)
  }

  lemma {:induction false} SoundDeeper(n: JsonNode, all: set<JsonNode>, depth: nat, more: nat)
    requires SoundTo(n, all, depth) && depth <= more
    ensures SoundTo(n, all, more)
    decreases depth
  {
    if IsBranch(n) {
      forall c | c in Chain(n.head, all, |all|) ensures SoundTo(c, all, more - 1) {
        SoundDeeper(c, all, depth - 1, more - 1);
      }
    }
  }

  // Finitely many sound nodes are sound to a common depth.
  lemma {:induction false} CommonDepth(s: seq<JsonNode>, all: set<JsonNode>) returns (depth: nat)
    requires forall c :: c in s ==> Sound(c, all)
    ensures forall c :: c in s ==> SoundTo(c, all, depth)
  {
    hide SoundTo;
    depth := 0;
    if |s| > 0 {
      assert Sound(s[0], all);
      var first: nat :| SoundTo(s[0], all, first);
      var rest := CommonDepth(s[1..], all);
      depth := if first < rest then rest else first;
      forall c | c in s ensures SoundTo(c, all, depth) {
        if c == s[0] {
          SoundDeeper(c, all, first, depth);
        } else {
          assert c in s[1..];
          SoundDeeper(c, all, rest, depth);
        }
      }
    }
  }

  // Being sound, one level at a time.
  lemma SoundIff(n: JsonNode, all: set<JsonNode>)
    ensures Sound(n, all) <==> KeyIsText(n) && IsNode(n) && (IsBranch(n) ==> SoundChildren(n, all))
  {
    hide KeyIsText, IsNode, Children, Chain, KeyFits;
    if KeyIsText(n) && IsNode(n) && (IsBranch(n) ==> SoundChildren(n, all)) {
      if IsBranch(n) {
        var depth := CommonDepth(Chain(n.head, all, |all|), all);
        assert SoundTo(n, all, depth + 1);
      } else {
        assert SoundTo(n, all, 1);
      }
    }
    if Sound(n, all) {
      var depth: nat :| SoundTo(n, all, depth);
      if IsBranch(n) {
        forall c | c in Chain(n.head, all, |all|) ensures Sound(c, all) {
          assert SoundTo(c, all, depth - 1);
        }
      }
    }
  }

  // ---------- the list of children ----------

  // The loop of json_check has passed s and stands at child.
  ghost predicate Visited(node: JsonNode, s: seq<JsonNode>, child: JsonNode?)
    reads node`head, s, if child != null then {child} else {}
  {
    && node !in s && Distinct(s)
    && (forall i {:trigger s[i].next} :: 0 <= i < |s| - 1 ==> s[i].next == s[i + 1])
    && (forall i {:trigger s[i].prev} :: 1 <= i < |s| ==> s[i].prev == s[i - 1])
    && (forall i :: 0 <= i < |s| ==> s[i].parent == node)
    && (if |s| == 0 then child == node.head
        else s[0] == node.head && s[0].prev == null && s[|s| - 1].next == child && child != s[0])
    && (child != null && |s| > 0 ==> child.prev == s[|s| - 1])
  }

  // The back link rules out a cycle of any length.
  lemma NewChild(node: JsonNode, s: seq<JsonNode>, child: JsonNode)
    requires Visited(node, s, child)
    ensures child !in s
  {
    forall i | 0 <= i < |s| ensures s[i] != child {
      if i > 0 {
        assert s[i].prev == s[i - 1] != s[|s| - 1];
      }
    }
  }

  lemma {:induction false} AtMost(s: seq<JsonNode>, all: set<JsonNode>)
    requires Distinct(s) && forall n :: n in s ==> n in all
    ensures |s| <= |all|
  {
    if |s| > 0 {
      var n := s[|s| - 1];
      assert n !in s[..|s| - 1];
      AtMost(s[..|s| - 1], all - {n});
    }
  }

  // What a well-formed list says of its k-th member.
  lemma ChildrenAt(node: JsonNode, s: seq<JsonNode>, k: nat)
    requires Children(node, s) && k < |s|
    ensures LinksFit(node, s[k])
  {
    if k + 1 < |s| {
      assert s[k].next == s[k + 1] && s[k + 1].prev == s[k];
    }
  }

  // The chain from the head on: what has been passed, and the rest.
  lemma ChainSplits(node: JsonNode, s: seq<JsonNode>, child: JsonNode?, all: set<JsonNode>)
    requires Visited(node, s, child) && (forall n :: n in s ==> n in all)
    ensures |s| <= |all| && Chain(node.head, all, |all|) == s + Chain(child, all, |all| - |s|)
  {
    AtMost(s, all);
    ChainFollows(s, |s|, node.head, all, |all|);
    if |s| > 0 { assert s[..|s|] == s; }
  }

  lemma {:induction false} ChainFollows(s: seq<JsonNode>, k: nat, c: JsonNode?, all: set<JsonNode>, fuel: nat)
    requires k <= |s| && k <= fuel && (forall n :: n in s ==> n in all)
    requires forall i {:trigger s[i].next} :: 0 <= i < |s| - 1 ==> s[i].next == s[i + 1]
    requires k > 0 ==> c == s[0]
    ensures Chain(c, all, fuel) == s[..k] + Chain(if k > 0 then s[k - 1].next else c, all, fuel - k)
    decreases k
  {
    if k > 0 {
      assert s[k - 1] in s;
      if k > 1 {
        ChainFollows(s, k - 1, c, all, fuel);
        assert s[k - 2].next == s[k - 1];
      }
      assert s[..k] == s[..k - 1] + [s[k - 1]];
    }
  }

  // A well-formed list is the chain the check walks.
  lemma ChildrenAreTheChain(node: JsonNode, s: seq<JsonNode>, all: set<JsonNode>)
    requires Children(node, s) && forall n :: n in s ==> n in all
    ensures Chain(node.head, all, |all|) == s
  {
    ChainSplits(node, s, null, all);
    assert s + [] == s;
  }

  // Where the links of a list lead.
  lemma LinksStay(p: JsonNode, s: seq<JsonNode>)
    requires Children(p, s)
    ensures p.head != null ==> p.head in s
    ensures forall n :: n in s && n.next != null ==> n.next in s
  {
    forall i | 0 <= i < |s| && s[i].next != null ensures s[i].next in s {
      if i + 1 < |s| { assert s[i].next == s[i + 1]; }
    }
  }

  lemma RoomForChild(node: JsonNode, s: seq<JsonNode>, child: JsonNode, all: set<JsonNode>)
    requires Visited(node, s, child) && (forall n :: n in s ==> n in all) && child in all
    ensures |s| < |all| && child !in s
    ensures |Chain(node.head, all, |all|)| > |s| && Chain(node.head, all, |all|)[|s|] == child
    ensures Chain(node.head, all, |all|)[..|s|] == s
  {
    NewChild(node, s, child);
    AtMost(s + [child], all);
    ChainSplits(node, s, child, all);
  }

  // What the loop asks of a child's links.
  ghost predicate LinksFit(node: JsonNode, child: JsonNode)
    reads node`head, child, if child.next != null then {child.next} else {}
  {
    && child != node && child.next != child && child.next != node.head && child.parent == node
    && (child.next != null ==> child.next.prev == child)
  }

  lemma VisitNext(node: JsonNode, s: seq<JsonNode>, child: JsonNode)
    requires Visited(node, s, child) && child !in s && LinksFit(node, child) && node.head != null && node.head.prev == null
    ensures Visited(node, s + [child], child.next)
  {
  }

  lemma VisitedFit(node: JsonNode, s: seq<JsonNode>, child: JsonNode?)
    requires Visited(node, s, child) && (child != null ==> child !in s)
    ensures forall c :: c in s ==> LinksFit(node, c)
  {
    forall i | 0 <= i < |s| ensures LinksFit(node, s[i]) {
      if i + 1 < |s| { assert s[i].next == s[i + 1] && s[i + 1].prev == s[i]; }
    }
  }

  lemma HeadOrTail(node: JsonNode, all: set<JsonNode>)
    requires (node.head == null || node.tail == null) && (node.head != null ==> node.head in all)
    ensures Children(node, Chain(node.head, all, |all|)) <==> node.head == null && node.tail == null
    ensures node.head == null ==> Chain(node.head, all, |all|) == []
  {
  }

  // ---------- recursion ----------

  // The loop over the children of n gets as far as the recursive call on the j-th of them.
  ghost predicate Reaches(n: JsonNode, j: nat, all: set<JsonNode>)
    requires n in all && Closed(all)
    reads all
  {
    var s := Chain(n.head, all, |all|);
    && KeyIsText(n) && IsNode(n) && IsBranch(n) && n.head != null && n.tail != null && n.head.prev == null
    && j < |s|
    && (forall i :: 0 <= i <= j ==> LinksFit(n, s[i]) && KeyFits(n, s[i]))
    && (forall i :: 0 <= i < j ==> Sound(s[i], all))
  }

  // json_check(n) calls json_check(c).
  ghost predicate Calls(n: JsonNode, c: JsonNode, all: set<JsonNode>)
    requires n in all && Closed(all)
    reads all
  {
    exists j: nat :: Reaches(n, j, all) && Chain(n.head, all, |all|)[j] == c
  }

  // Calls from each node of a path to the next.
  ghost predicate Path(path: seq<JsonNode>, all: set<JsonNode>)
    requires Closed(all)
    reads all
  {
    && (forall n :: n in path ==> n in all)
    && (forall i {:trigger path[i]} :: 0 <= i < |path| - 1 ==> Calls(path[i], path[i + 1], all))
  }

  // k calls lead from n down to m.
  ghost predicate WayDown(n: JsonNode, m: JsonNode, all: set<JsonNode>, k: nat)
    requires n in all && Closed(all)
    reads all
    decreases k
  {
    if k == 0 then n == m else exists c :: c in all && Calls(n, c, all) && WayDown(c, m, all, k - 1)
  }

  // The recursion comes back to where it began.
  ghost predicate Loops(root: JsonNode, all: set<JsonNode>)
    requires root in all && Closed(all)
    reads all
  {
    exists k: nat :: k > 0 && WayDown(root, root, all, k)
  }

  lemma {:induction false} PathLeadsDown(path: seq<JsonNode>, all: set<JsonNode>)
    requires Closed(all) && |path| > 0 && Path(path, all)
    ensures WayDown(path[0], path[|path| - 1], all, |path| - 1)
  {
    hide Calls;
    if |path| > 1 {
      forall i | 0 <= i < |path| - 2 ensures Calls(path[1..][i], path[1..][i + 1], all) {
        assert Calls(path[i + 1], path[i + 2], all);
      }
      PathLeadsDown(path[1..], all);
      assert Calls(path[0], path[1], all);
    }
  }

  lemma CallsChild(n: JsonNode, c: JsonNode, all: set<JsonNode>)
    requires n in all && Closed(all) && Calls(n, c, all)
    ensures c in all && c.parent == n
  {
  }

  // Below a root that is not its own descendant no node is met twice: the second parent would
  // have to be the first.
  lemma NewOnPath(path: seq<JsonNode>, c: JsonNode, all: set<JsonNode>)
    requires Closed(all) && |path| > 0 && Path(path, all) && Distinct(path) && !Loops(path[0], all)
    requires Calls(path[|path| - 1], c, all)
    ensures c !in path && Path(path + [c], all) && Distinct(path + [c]) && |path| < |all|
  {
    hide Calls;
    var last := |path| - 1;
    CallsChild(path[last], c, all);
    var longer := path + [c];
    forall i | 0 <= i < |path| ensures Calls(longer[i], longer[i + 1], all) {
      if i < last { assert Calls(path[i], path[i + 1], all); }
    }
    PathLeadsDown(longer, all);
    forall i | 0 <= i < |path| ensures path[i] != c {
      if i > 0 { CallsChild(path[i - 1], path[i], all); }
    }
    AtMost(longer, all);
  }

  // A root that hangs nowhere is not its own descendant.
  lemma TopDoesNotLoop(root: JsonNode, all: set<JsonNode>)
    requires root in all && Closed(all) && root.parent == null
    ensures !Loops(root, all)
  {
    hide Calls;
    if Loops(root, all) {
      var k: nat :| k > 0 && WayDown(root, root, all, k);
      LastCall(root, root, all, k);
    }
  }

  lemma {:induction false} LastCall(n: JsonNode, m: JsonNode, all: set<JsonNode>, k: nat)
    requires n in all && Closed(all) && k > 0 && WayDown(n, m, all, k)
    ensures m.parent != null
    decreases k
  {
    var c :| c in all && Calls(n, c, all) && WayDown(c, m, all, k - 1);
    CallsChild(n, c, all);
    if k > 1 { LastCall(c, m, all, k - 1); }
  }

  // ---------- json_check ----------

  // The calls under way: from the root down to node, with no node twice.
  ghost predicate Under(path: seq<JsonNode>, node: JsonNode, all: set<JsonNode>)
    requires Closed(all)
    reads all
  {
    && |path| > 0 && Path(path, all) && Distinct(path) && path[|path| - 1] == node
    && !Loops(path[0], all)
  }

  lemma UnderChild(path: seq<JsonNode>, node: JsonNode, child: JsonNode, all: set<JsonNode>)
    requires Closed(all) && node in all && Under(path, node, all) && Calls(node, child, all)
    ensures child in all && Under(path + [child], child, all) && |path| < |all|
  {
    hide Closed, Distinct, Path, Loops, Calls;
    CallsChild(node, child, all);
    NewOnPath(path, child, all);
  }

  // json_check
  method Check(node: JsonNode?, ghost all: set<JsonNode>) returns (ok: bool)
    requires Closed(all) && (node != null ==> node in all && !Loops(node, all))
    ensures ok <==> node != null && Sound(node, all)
  {
    ok := CheckUnder(node, all, if node != null then [node] else []);
  }

  method CheckUnder(node: JsonNode?, ghost all: set<JsonNode>, ghost path: seq<JsonNode>) returns (ok: bool)
    requires Closed(all) && (node != null ==> node in all && Under(path, node, all))
    ensures ok <==> node != null && Sound(node, all)
    decreases |all| - |path|, 2
  {
    hide Under, Path, Distinct, Closed, SoundTo, Sound, SoundChildren;
    if node == null { return false; }
    SoundIff(node, all);
    if node.key != NULL && !Valid(node.key.s) { return false; }
    if !(node.tag <= JSON_OBJECT) { return false; }
    if node.tag == JSON_STRING {
      if node.str == NULL { return false; }
      if !Valid(node.str.s) { return false; }
    } else if node.tag == JSON_ARRAY || node.tag == JSON_OBJECT {
      ok := CheckChildren(node, all, path);
      return;
    }
    ok := true;
  }

  // The children passed so far and everything below them.
  ghost predicate Passed(node: JsonNode, s: seq<JsonNode>, all: set<JsonNode>)
    reads node`tag, all
  {
    forall c :: c in s ==> c in all && KeyFits(node, c) && Sound(c, all)
  }

  lemma PassedAll(node: JsonNode, s: seq<JsonNode>, all: set<JsonNode>)
    requires Visited(node, s, null) && Passed(node, s, all)
    ensures node.head != null && node.tail != null ==>
              (SoundChildren(node, all) <==> |s| > 0 && node.tail == s[|s| - 1])
  {
    hide Sound, KeyFits;
    ChainSplits(node, s, null, all);
    assert s + [] == s;
  }

  method CheckChildren(node: JsonNode, ghost all: set<JsonNode>, ghost path: seq<JsonNode>) returns (ok: bool)
    requires Closed(all) && Under(path, node, all) && node in all && KeyIsText(node) && IsNode(node)
    requires node.tag == JSON_ARRAY || node.tag == JSON_OBJECT
    ensures ok <==> SoundChildren(node, all)
    decreases |all| - |path|, 1
  {
    var head, tail := node.head, node.tail;
    if head == null || tail == null {
      HeadOrTail(node, all);
      return head == null && tail == null;
    }
    var child := head;
    var last: JsonNode? := null;
    if head.prev != null { return false; }
    ghost var s: seq<JsonNode> := [];
    while child != null
      invariant Visited(node, s, child) && Passed(node, s, all) && (child != null ==> child in all)
      invariant last == if |s| > 0 then s[|s| - 1] else null
      decreases |all| - |s|
    {
      hide Visited, Passed, SoundChildren, Sound, Under, KeyIsText, IsNode;
      RoomForChild(node, s, child, all);
      var sound := CheckChild(node, child, s, all, path);
      if !sound { return false; }
      s := s + [child];
      last, child := child, child.next;
    }
    PassedAll(node, s, all);
    ok := last == tail;
  }

  // The loop is about to call json_check on the next child.
  lemma NextCall(node: JsonNode, s: seq<JsonNode>, child: JsonNode, all: set<JsonNode>)
    requires Closed(all) && node in all && KeyIsText(node) && IsNode(node) && IsBranch(node)
    requires node.head != null && node.tail != null && node.head.prev == null
    requires Visited(node, s, child) && Passed(node, s, all) && child in all
    requires LinksFit(node, child) && KeyFits(node, child)
    ensures Calls(node, child, all)
  {
    hide Visited, LinksFit, KeyFits, Sound, Closed, KeyIsText, IsNode;
    RoomForChild(node, s, child, all);
    VisitedFit(node, s, child);
    var chain := Chain(node.head, all, |all|);
    forall i | 0 <= i < |s| ensures chain[i] in s {
      assert chain[i] == s[i];
    }
    assert Reaches(node, |s|, all);
  }

  // One turn of the loop.
  method CheckChild(node: JsonNode, child: JsonNode, ghost s: seq<JsonNode>, ghost all: set<JsonNode>, ghost path: seq<JsonNode>)
    returns (ok: bool)
    requires Closed(all) && Under(path, node, all) && node in all && KeyIsText(node) && IsNode(node)
    requires node.tag == JSON_ARRAY || node.tag == JSON_OBJECT
    requires node.head != null && node.tail != null && node.head.prev == null
    requires Visited(node, s, child) && Passed(node, s, all) && child in all
    ensures ok ==> Visited(node, s + [child], child.next) && Passed(node, s + [child], all)
    ensures !ok ==> !SoundChildren(node, all)
    decreases |all| - |path|, 0
  {
    hide Sound, Closed, Visited, Children, LinksFit, Under, KeyIsText, IsNode, KeyFits, SoundChildren, Passed;
    NoSoundChildren(node, s, child, all);
    ok := CheckLinks(node, child);
    if !ok { return; }
    RoomForChild(node, s, child, all);
    VisitNext(node, s, child);
    NextCall(node, s, child, all);
    UnderChild(path, node, child, all);
    ok := CheckUnder(child, all, path + [child]);
    if ok { PassNext(node, s, child, all); }
  }

  lemma NoSoundChildren(node: JsonNode, s: seq<JsonNode>, child: JsonNode, all: set<JsonNode>)
    requires Visited(node, s, child) && Passed(node, s, all) && child in all
    ensures SoundChildren(node, all) ==> LinksFit(node, child) && KeyFits(node, child) && Sound(child, all)
    ensures forall n :: n in s ==> n in all
  {
    hide Sound, Visited, Children, LinksFit, KeyFits;
    RoomForChild(node, s, child, all);
    var chain := Chain(node.head, all, |all|);
    if SoundChildren(node, all) { ChildrenAt(node, chain, |s|); }
    assert child in chain;
  }

  lemma PassNext(node: JsonNode, s: seq<JsonNode>, child: JsonNode, all: set<JsonNode>)
    requires Passed(node, s, all) && child in all && KeyFits(node, child) && Sound(child, all)
    ensures Passed(node, s + [child], all)
  {
  }

  method CheckLinks(node: JsonNode, child: JsonNode) returns (ok: bool)
    requires node.tag == JSON_ARRAY || node.tag == JSON_OBJECT
    ensures ok <==> LinksFit(node, child) && KeyFits(node, child)
  {
    if child == node { return false; }
    if child.next == child { return false; }
    if child.next == node.head { return false; }
    if child.parent != node { return false; }
    if child.next != null && child.next.prev != child { return false; }
    if node.tag == JSON_ARRAY && child.key != NULL { return false; }
    if node.tag == JSON_OBJECT && child.key == NULL { return false; }
    ok := true;
  }

  // ---------- when it ends ----------

  datatype Verdict = Accepted | Rejected | Unfinished

  // json_check with room for `depth` nested calls.
  ghost function Judge(n: JsonNode, all: set<JsonNode>, depth: nat): Verdict
    requires n in all && Closed(all)
    reads all
    decreases depth, 0
  {
    if depth == 0 then Unfinished
    else if !KeyIsText(n) || !IsNode(n) then Rejected
    else if !IsBranch(n) then Accepted
    else if n.head == null || n.tail == null then (if n.head == null && n.tail == null then Accepted else Rejected)
    else if n.head.prev != null then Rejected
    else JudgeFrom(n, 0, all, depth - 1)
  }

  // Its loop, from the i-th child on.
  ghost function JudgeFrom(n: JsonNode, i: nat, all: set<JsonNode>, depth: nat): Verdict
    requires n in all && Closed(all) && i <= |Chain(n.head, all, |all|)|
    reads all
    decreases depth, 1 + |Chain(n.head, all, |all|)| - i
  {
    var s := Chain(n.head, all, |all|);
    if i == |s| then (if |s| > 0 && s[|s| - 1] == n.tail then Accepted else Rejected)
    else if !LinksFit(n, s[i]) || !KeyFits(n, s[i]) then Rejected
    else
      var v := Judge(s[i], all, depth);
      if v == Accepted then JudgeFrom(n, i + 1, all, depth) else v
  }

  // A sound node is never rejected, however little room there is.
  lemma {:induction false} SoundIsNotRejected(n: JsonNode, all: set<JsonNode>, depth: nat)
    requires n in all && Closed(all) && Sound(n, all)
    ensures Judge(n, all, depth) != Rejected
    decreases depth, 0
  {
    hide Chain, KeyIsText, IsNode, LinksFit, KeyFits, Sound, Closed;
    SoundIff(n, all);
    if depth > 0 && IsBranch(n) && n.head != null && n.tail != null {
      SoundIsNotRejectedFrom(n, 0, all, depth - 1);
    }
  }

  lemma {:induction false} SoundIsNotRejectedFrom(n: JsonNode, i: nat, all: set<JsonNode>, depth: nat)
    requires n in all && Closed(all) && SoundChildren(n, all) && n.head != null && n.tail != null
    requires i <= |Chain(n.head, all, |all|)|
    ensures JudgeFrom(n, i, all, depth) != Rejected
    decreases depth, 1 + |Chain(n.head, all, |all|)| - i
  {
    hide Chain, KeyIsText, IsNode, LinksFit, KeyFits, Sound, Closed, Judge;
    var s := Chain(n.head, all, |all|);
    if i < |s| {
      ChildrenAt(n, s, i);
      hide Children;
      assert s[i] in s;
      SoundIsNotRejected(s[i], all, depth);
      SoundIsNotRejectedFrom(n, i + 1, all, depth);
    }
  }

  // Without the room to judge a child there is none to judge the node that calls for it.
  lemma {:induction false} CallerIsUnfinished(n: JsonNode, j: nat, i: nat, all: set<JsonNode>, depth: nat)
    requires n in all && Closed(all) && i <= j && Reaches(n, j, all)
    requires Judge(Chain(n.head, all, |all|)[j], all, depth) == Unfinished
    ensures JudgeFrom(n, i, all, depth) == Unfinished
    decreases j - i
  {
    hide Chain, KeyIsText, IsNode, LinksFit, KeyFits, Sound, Closed, Judge;
    var s := Chain(n.head, all, |all|);
    if i < j {
      SoundIsNotRejected(s[i], all, depth);
      CallerIsUnfinished(n, j, i + 1, all, depth);
    }
  }

  // So the recursion that comes back to m needs more room than any.
  lemma {:induction false} LoopNeverEnds(n: JsonNode, m: JsonNode, all: set<JsonNode>, k: nat, depth: nat)
    requires n in all && m in all && Closed(all) && WayDown(n, m, all, k) && Loops(m, all)
    ensures Judge(n, all, depth) == Unfinished
    decreases depth, 1
  {
    hide Calls, Closed, Chain, LinksFit, KeyFits, KeyIsText, IsNode;
    if depth > 0 {
      if k == 0 {
        var l: nat :| l > 0 && WayDown(m, m, all, l);
        LoopNeverEndsBy(n, m, all, l, depth);
      } else {
        LoopNeverEndsBy(n, m, all, k, depth);
      }
    }
  }

  lemma {:induction false} LoopNeverEndsBy(n: JsonNode, m: JsonNode, all: set<JsonNode>, k: nat, depth: nat)
    requires n in all && m in all && Closed(all) && k > 0 && WayDown(n, m, all, k) && Loops(m, all) && depth > 0
    ensures Judge(n, all, depth) == Unfinished
    decreases depth, 0
  {
    hide Closed, Chain, LinksFit, KeyFits, KeyIsText, IsNode, Loops, JudgeFrom, Sound;
    var c :| c in all && Calls(n, c, all) && WayDown(c, m, all, k - 1);
    LoopNeverEnds(c, m, all, k - 1, depth - 1);
    var j: nat :| Reaches(n, j, all) && Chain(n.head, all, |all|)[j] == c;
    CallerIsUnfinished(n, j, 0, all, depth - 1);
  }

  // Accepting means being sound, and running out of room means calling for a node that did.
  lemma {:induction false} JudgeIs(n: JsonNode, all: set<JsonNode>, depth: nat)
    requires n in all && Closed(all)
    ensures Judge(n, all, depth) == Accepted ==> Sound(n, all)
    ensures Judge(n, all, depth) == Unfinished && depth > 0 ==>
              exists c :: c in all && Calls(n, c, all) && Judge(c, all, depth - 1) == Unfinished
    decreases depth, 0
  {
    hide Visited, Passed, Chain, Calls, KeyIsText, IsNode, LinksFit, KeyFits, Sound, SoundChildren, JudgeFrom;
    SoundIff(n, all);
    if depth > 0 && KeyIsText(n) && IsNode(n) && IsBranch(n) {
      if n.head == null || n.tail == null {
        HeadOrTail(n, all);
        NoChildren(n, all);
      } else if n.head.prev == null {
        NoneVisited(n, all);
        JudgeFromIs(n, [], n.head, all, depth - 1);
      }
    }
  }

  lemma NoChildren(n: JsonNode, all: set<JsonNode>)
    requires n.head == null && n.tail == null ==> Children(n, Chain(n.head, all, |all|))
    ensures n.head == null && n.tail == null ==> SoundChildren(n, all)
  {
  }

  lemma NoneVisited(n: JsonNode, all: set<JsonNode>)
    ensures Visited(n, [], n.head) && Passed(n, [], all)
  {
  }

  lemma AllVisited(n: JsonNode, s: seq<JsonNode>, all: set<JsonNode>)
    requires Visited(n, s, null) && Passed(n, s, all)
    ensures Chain(n.head, all, |all|) == s
  {
    ChainSplits(n, s, null, all);
    assert s + [] == s;
  }

  lemma PassedIn(n: JsonNode, s: seq<JsonNode>, all: set<JsonNode>)
    requires Passed(n, s, all)
    ensures forall c :: c in s ==> c in all
  {
  }

  // What the loop makes of the children from child on, those in front of it having been accepted.
  lemma {:induction false} JudgeFromIs(n: JsonNode, s: seq<JsonNode>, child: JsonNode?, all: set<JsonNode>, depth: nat)
    requires n in all && Closed(all) && KeyIsText(n) && IsNode(n) && IsBranch(n)
    requires n.head != null && n.tail != null && n.head.prev == null
    requires Visited(n, s, child) && Passed(n, s, all) && (child != null ==> child in all)
    requires |s| <= |Chain(n.head, all, |all|)|
    ensures JudgeFrom(n, |s|, all, depth) == Accepted ==> SoundChildren(n, all)
    ensures JudgeFrom(n, |s|, all, depth) == Unfinished ==> exists c :: c in all && Calls(n, c, all) && Judge(c, all, depth) == Unfinished
    decreases depth, 1, |all| - |s|
  {
    hide Visited, Passed, Chain, Calls, KeyIsText, IsNode, LinksFit, KeyFits, Sound, Judge, SoundChildren;
    PassedIn(n, s, all);
    if child == null {
      AllVisited(n, s, all);
      PassedAll(n, s, all);
    } else {
      RoomForChild(n, s, child, all);
      if LinksFit(n, child) && KeyFits(n, child) {
        NextCall(n, s, child, all);
        JudgeIs(child, all, depth);
        if Judge(child, all, depth) == Accepted {
          VisitNext(n, s, child);
          PassNext(n, s, child, all);
          JudgeFromIs(n, s + [child], child.next, all, depth);
        }
      }
    }
  }

  // Room for as many calls as there are nodes below the path is enough.
  lemma {:induction false} EndsUnder(path: seq<JsonNode>, n: JsonNode, all: set<JsonNode>, depth: nat)
    requires Closed(all) && n in all && Under(path, n, all) && |path| + depth > |all|
    ensures Judge(n, all, depth) != Unfinished
    decreases depth
  {
    hide Closed, Calls, Judge, Path, Distinct, Loops;
    if depth == 0 {
      UnderAll(path, n, all);
    } else if Judge(n, all, depth) == Unfinished {
      JudgeIs(n, all, depth);
      var c :| c in all && Calls(n, c, all) && Judge(c, all, depth - 1) == Unfinished;
      UnderChild(path, n, c, all);
      EndsUnder(path + [c], c, all, depth - 1);
    }
  }

  lemma UnderAll(path: seq<JsonNode>, n: JsonNode, all: set<JsonNode>)
    requires Closed(all) && Under(path, n, all)
    ensures |path| <= |all|
  {
    AtMost(path, all);
  }

  // On any closed heap the recursion ends exactly when it does not come back to the node it
  // began with; it is then nested no deeper than there are nodes, and accepts what is sound.
  lemma EndsExactly(root: JsonNode, all: set<JsonNode>)
    requires Closed(all) && root in all
    ensures !Loops(root, all) ==> Judge(root, all, |all|) == if Sound(root, all) then Accepted else Rejected
    ensures Loops(root, all) ==> forall depth: nat :: Judge(root, all, depth) == Unfinished
  {
    hide Closed, Calls, Judge, Sound;
    if Loops(root, all) {
      forall depth: nat ensures Judge(root, all, depth) == Unfinished {
        LoopNeverEnds(root, root, all, 0, depth);
      }
    } else {
      EndsUnder([root], root, all, |all|);
      JudgeIs(root, all, |all|);
      if Sound(root, all) { SoundIsNotRejected(root, all, |all|); }
    }
  }

  // A sound node is not its own descendant.
  lemma SoundDoesNotLoop(n: JsonNode, all: set<JsonNode>)
    requires Closed(all) && n in all && Sound(n, all)
    ensures !Loops(n, all)
  {
    hide Calls, Closed, SoundTo, WayDown;
    var depth: nat :| SoundTo(n, all, depth);
    if Loops(n, all) {
      var k: nat :| k > 0 && WayDown(n, n, all, k);
      NeverSound(n, all, k, depth);
    }
  }

  lemma {:induction false} NeverSound(n: JsonNode, all: set<JsonNode>, k: nat, depth: nat)
    requires Closed(all) && n in all && k > 0 && WayDown(n, n, all, k)
    ensures !SoundTo(n, all, depth)
    decreases depth
  {
    hide Calls, Closed, SoundTo, WayDown;
    if SoundTo(n, all, depth) {
      SoundBelow(n, n, all, k, depth);
      NeverSound(n, all, k, depth - k);
    }
  }

  // k calls below a sound node there are k levels less.
  lemma {:induction false} SoundBelow(n: JsonNode, m: JsonNode, all: set<JsonNode>, k: nat, depth: nat)
    requires Closed(all) && n in all && WayDown(n, m, all, k) && SoundTo(n, all, depth)
    ensures k < depth && SoundTo(m, all, depth - k)
    decreases k
  {
    hide Closed, Chain, KeyIsText, IsNode, LinksFit, KeyFits, Sound, Children;
    if k > 0 {
      var c :| c in all && Calls(n, c, all) && WayDown(c, m, all, k - 1);
      SoundBelow(c, m, all, k - 1, depth - 1);
    }
  }

  // Two nodes that are each other's only child, with every link in place: the check never ends.
  lemma TwoInACircle(a: JsonNode, b: JsonNode)
    requires a != b && a.tag == b.tag == JSON_ARRAY && a.key == b.key == NULL
    requires a.head == a.tail == b && b.head == b.tail == a && a.parent == b && b.parent == a
    requires a.next == a.prev == b.next == b.prev == null
    ensures Closed({a, b}) && Loops(a, {a, b})
  {
    assert Chain(b, {a, b}, 2) == [b] && Chain(a, {a, b}, 2) == [a];
    assert Reaches(a, 0, {a, b}) && Reaches(b, 0, {a, b});
    assert Calls(a, b, {a, b}) && Calls(b, a, {a, b});
    assert WayDown(a, a, {a, b}, 0);
    assert WayDown(b, a, {a, b}, 1);
    assert WayDown(a, a, {a, b}, 2);
  }
}
