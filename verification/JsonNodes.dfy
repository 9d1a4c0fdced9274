/**
 The linked tree of ccan/json: children hang on their parent in a doubly linked list,
 which append, prepend and remove relink and json_check walks.
 */
module JsonNodes {
  import opened Bytes
  import opened Utf8

  datatype CString = NULL | CString(s: bytes)

  const JSON_NULL := 0
  const JSON_BOOL := 1
  const JSON_STRING := 2
  const JSON_NUMBER := 3
  const JSON_ARRAY := 4
  const JSON_OBJECT := 5

  class JsonNode {
    var tag: nat
    var key: CString
    var boolean: bool
    var str: CString
    var number: bytes
    var parent: JsonNode?
    var prev: JsonNode?
    var next: JsonNode?
    var head: JsonNode?
    var tail: JsonNode?

    constructor (tag: nat)
      ensures this.tag == tag && key == NULL && !boolean && str == NULL && number == []
      ensures parent == null && prev == null && next == null && head == null && tail == null
    {
      this.tag := tag;
      key, boolean, str, number := NULL, false, NULL, [];
      parent, prev, next, head, tail := null, null, null, null, null;
    }
  }

  ghost predicate Distinct(s: seq<JsonNode>) {
    forall i, j :: 0 <= i < j < |s| ==> s[i] != s[j]
  }

  ghost predicate Linked(s: seq<JsonNode>)
    reads s`prev, s`next
  {
    && (forall i {:trigger s[i].next} :: 0 <= i < |s| - 1 ==> s[i].next == s[i + 1])
    && (forall i {:trigger s[i].prev} :: 1 <= i < |s| ==> s[i].prev == s[i - 1])
    && (|s| > 0 ==> s[0].prev == null && s[|s| - 1].next == null)
  }

  // The children of p, in order.
  ghost predicate Children(p: JsonNode, s: seq<JsonNode>)
    reads p`head, p`tail, s`parent, s`prev, s`next
  {
    && p !in s && Distinct(s) && Linked(s)
    && (forall i :: 0 <= i < |s| ==> s[i].parent == p)
    && p.head == (if |s| > 0 then s[0] else null)
    && p.tail == (if |s| > 0 then s[|s| - 1] else null)
  }

  // append_node
  method AppendNode(parent: JsonNode, child: JsonNode, ghost s: seq<JsonNode>)
    requires Children(parent, s) && child !in s && child != parent
    modifies parent`head, parent`tail, child`parent, child`prev, child`next, (if |s| > 0 then {s[|s| - 1]} else {})`next
    ensures Children(parent, s + [child])
  {
    child.parent := parent;
    child.prev := parent.tail;
    child.next := null;
    if parent.tail != null {
      parent.tail.next := child;
    } else {
      parent.head := child;
    }
    parent.tail := child;
  }

  // prepend_node
  method PrependNode(parent: JsonNode, child: JsonNode, ghost s: seq<JsonNode>)
    requires Children(parent, s) && child !in s && child != parent
    modifies parent`head, parent`tail, child`parent, child`prev, child`next, (if |s| > 0 then {s[0]} else {})`prev
    ensures Children(parent, [child] + s)
  {
    child.parent := parent;
    child.prev := null;
    child.next := parent.head;
    if parent.head != null {
      parent.head.prev := child;
    } else {
      parent.tail := child;
    }
    parent.head := child;
  }

  function Without<T>(s: seq<T>, i: nat): seq<T>
    requires i < |s|
  {
    s[..i] + s[i + 1..]
  }

  // json_remove_from_parent, of the i-th child
  method RemoveFromParent(node: JsonNode, ghost s: seq<JsonNode>, ghost i: nat)
    requires node.parent != null ==> Children(node.parent, s) && i < |s| && s[i] == node
    modifies node`key, node`parent, node`prev, node`next
    modifies (if node.parent != null then {node.parent} else {})`head, (if node.parent != null then {node.parent} else {})`tail
    modifies (if node.parent != null && i > 0 then {s[i - 1]} else {})`next
    modifies (if node.parent != null && i + 1 < |s| then {s[i + 1]} else {})`prev
    ensures node.parent == null
    ensures old(node.parent) != null ==>
              Children(old(node.parent), Without(s, i)) && node.prev == null && node.next == null && node.key == NULL
    ensures old(node.parent) == null ==> unchanged(node)
  {
    var parent := node.parent;
    if parent != null {
      if node.prev != null {
        node.prev.next := node.next;
      } else {
        parent.head := node.next;
      }
      if node.next != null {
        node.next.prev := node.prev;
      } else {
        parent.tail := node.prev;
      }
      node.parent := null;
      node.prev, node.next := null, null;
      node.key := NULL;
    }
  }

  // json_append_element, json_prepend_element, json_append_member and json_prepend_member; the
  // last two give the child its key.
  method Add(parent: JsonNode, child: JsonNode, key: CString, front: bool, ghost s: seq<JsonNode>)
    requires Children(parent, s) && child.parent == null && child != parent
    requires parent.tag == if key.NULL? then JSON_ARRAY else JSON_OBJECT
    modifies parent`head, parent`tail, child`parent, child`prev, child`next, child`key
    modifies (if |s| > 0 then {s[0]} else {})`prev, (if |s| > 0 then {s[|s| - 1]} else {})`next
    ensures Children(parent, if front then [child] + s else s + [child])
    ensures child.key == if key.NULL? then old(child.key) else key
  {
    assert child !in s;
    if key.CString? { child.key := key; }
    if front { PrependNode(parent, child, s); } else { AppendNode(parent, child, s); }
  }
}
