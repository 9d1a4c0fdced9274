/**
 The DL_ and CDL_ macros that relink a list to add, replace or take out one node, or to
 join two lists.  Each gives a complete list of the nodes it should, in the order it should.
 */
module UtlistLinks {
  import opened Utlist

  // DL_PREPEND2
  method DlPrepend<T>(head: Node?<T>, add: Node<T>, ghost s: seq<Node<T>>) returns (head': Node<T>)
    requires List(DL, s, head) && add !in s
    modifies add, First(s)
    ensures List(DL, [add] + s, head')
  {
    add.next := head;
    if head != null {
      add.prev := head.prev;
      head.prev := add;
    } else {
      add.prev := add;
    }
    head' := add;
  }

  // DL_APPEND2
  method DlAppend<T>(head: Node?<T>, add: Node<T>, ghost s: seq<Node<T>>) returns (head': Node<T>)
    requires List(DL, s, head) && add !in s
    modifies add, First(s), Last(s)
    ensures List(DL, s + [add], head')
  {
    if head != null {
      add.prev := head.prev;
      head.prev.next := add;
      head.prev := add;
      add.next := null;
      head' := head;
    } else {
      head' := add;
      head'.prev := head';
      head'.next := null;
    }
  }

  // DL_CONCAT2
  method DlConcat<T>(head1: Node?<T>, head2: Node?<T>, ghost s: seq<Node<T>>, ghost t: seq<Node<T>>) returns (head': Node?<T>)
    requires List(DL, s, head1) && List(DL, t, head2) && Apart(s, t)
    modifies First(s), Last(s), First(t)
    ensures List(DL, s + t, head')
  {
    head' := head1;
    if head2 != null {
      if head1 != null {
        var tmp := head2.prev;
        head2.prev := head1.prev;
        head1.prev.next := head2;
        head1.prev := tmp;
      } else {
        head' := head2;
        assert s + t == t;
      }
    } else {
      assert s + t == s;
    }
  }

  ghost function Without<T>(s: seq<Node<T>>, i: nat): seq<Node<T>>
    requires i < |s|
  {
    s[..i] + s[i + 1..]
  }

  lemma WithoutAt<T>(s: seq<Node<T>>, i: nat)
    requires i < |s| && NoDup(s)
    ensures var t := Without(s, i);
            && |t| == |s| - 1 && NoDup(t)
            && (forall j :: 0 <= j < i ==> t[j] == s[j]) && (forall j :: i <= j < |t| ==> t[j] == s[j + 1])
  {
  }

  lemma ReplacedAt<T>(s: seq<Node<T>>, i: nat, add: Node<T>)
    requires i < |s| && NoDup(s) && add !in s
    ensures var t := Replaced(s, i, add);
            && |t| == |s| && NoDup(t) && t[i] == add && (forall j :: 0 <= j < |s| && j != i ==> t[j] == s[j])
  {
  }

  lemma InsertedAt<T>(s: seq<Node<T>>, i: nat, add: Node<T>)
    requires i <= |s| && NoDup(s) && add !in s
    ensures var t := Inserted(s, i, add);
            && |t| == |s| + 1 && NoDup(t) && t[i] == add
            && (forall j :: 0 <= j < i ==> t[j] == s[j]) && (forall j :: i < j < |t| ==> t[j] == s[j - 1])
  {
  }

  // The neighbours of the i-th node.
  ghost function Around<T>(s: seq<Node<T>>, i: nat): set<Node<T>>
    requires i < |s|
  {
    {s[0], s[|s| - 1], s[i], s[if i > 0 then i - 1 else |s| - 1], s[if i + 1 < |s| then i + 1 else 0]}
  }

  // DL_DELETE2, of the i-th node
  method DlDelete<T>(head: Node<T>, del: Node<T>, ghost s: seq<Node<T>>, ghost i: nat) returns (head': Node?<T>)
    requires List(DL, s, head) && i < |s| && s[i] == del
    modifies Around(s, i)
    ensures List(DL, Without(s, i), head')
    ensures del.next == old(del.next) && del.prev == old(del.prev)
  {
    WithoutAt(s, i);
    hide Without, NoDup;
    head' := head;
    assert del.prev != null;
    assert i > 0 ==> s[i].prev == s[i - 1];
    assert i + 1 < |s| ==> s[i].next == s[i + 1];
    if del.prev == del {
      head' := null;
    } else if del == head {
      del.next.prev := del.prev;
      head' := del.next;
    } else {
      del.prev.next := del.next;
      if del.next != null {
        del.next.prev := del.prev;
      } else {
        head.prev := del.prev;
      }
    }
  }

  ghost function Replaced<T>(s: seq<Node<T>>, i: nat, add: Node<T>): seq<Node<T>>
    requires i < |s|
  {
    s[..i] + [add] + s[i + 1..]
  }

  // DL_REPLACE_ELEM2
  method DlReplace<T>(head: Node<T>, el: Node<T>, add: Node<T>, ghost s: seq<Node<T>>, ghost i: nat) returns (head': Node<T>)
    requires List(DL, s, head) && i < |s| && s[i] == el && add !in s
    modifies add, Around(s, i)
    ensures List(DL, Replaced(s, i, add), head')
  {
    ReplacedAt(s, i, add);
    hide Replaced, NoDup;
    assert i > 0 ==> s[i].prev == s[i - 1];
    assert i + 1 < |s| ==> s[i].next == s[i + 1];
    head' := head;
    if head == el {
      head' := add;
      add.next := el.next;
      if el.next == null {
        add.prev := add;
      } else {
        add.prev := el.prev;
        add.next.prev := add;
      }
    } else {
      add.next := el.next;
      add.prev := el.prev;
      add.prev.next := add;
      if el.next == null {
        head.prev := add;
      } else {
        add.next.prev := add;
      }
    }
    ghost var t := Replaced(s, i, add);
    assert Linked(t);
    assert LinkedBack(t, Last(t));
  }

  ghost function Inserted<T>(s: seq<Node<T>>, i: nat, add: Node<T>): seq<Node<T>>
    requires i <= |s|
  {
    s[..i] + [add] + s[i..]
  }

  // DL_PREPEND_ELEM2: in front of an element, or at the end without one
  method DlPrependElem<T>(head: Node?<T>, el: Node?<T>, add: Node<T>, ghost s: seq<Node<T>>, ghost i: nat) returns (head': Node<T>)
    requires List(DL, s, head) && i <= |s| && add !in s && el == if i < |s| then s[i] else null
    modifies add, First(s), Last(s), if i < |s| then Around(s, i) else {}
    ensures List(DL, Inserted(s, i, add), head')
  {
    if el != null {
      InsertedAt(s, i, add);
      hide Inserted, NoDup;
      assert i > 0 ==> s[i].prev == s[i - 1];
      head' := head;
      add.next := el;
      add.prev := el.prev;
      el.prev := add;
      if head == el {
        head' := add;
      } else {
        add.prev.next := add;
      }
      ghost var t := Inserted(s, i, add);
      assert Linked(t);
      assert LinkedBack(t, Last(t));
    } else {
      head' := DlAppend(head, add, s);
      assert Inserted(s, i, add) == s + [add];
    }
  }

  // DL_APPEND_ELEM2: behind an element, or at the front without one
  method DlAppendElem<T>(head: Node?<T>, el: Node?<T>, add: Node<T>, ghost s: seq<Node<T>>, ghost i: nat) returns (head': Node<T>)
    requires List(DL, s, head) && i <= |s| && add !in s && el == if i > 0 then s[i - 1] else null
    modifies add, First(s), if i > 0 then Around(s, i - 1) else {}
    ensures List(DL, Inserted(s, i, add), head')
  {
    if el != null {
      InsertedAt(s, i, add);
      hide Inserted, NoDup;
      assert i < |s| ==> s[i - 1].next == s[i];
      head' := head;
      add.next := el.next;
      add.prev := el;
      el.next := add;
      if add.next != null {
        add.next.prev := add;
      } else {
        head.prev := add;
      }
      ghost var t := Inserted(s, i, add);
      assert Linked(t);
      assert LinkedBack(t, Last(t));
    } else {
      head' := DlPrepend(head, add, s);
      assert Inserted(s, i, add) == [add] + s;
    }
  }

  // ---------- circular lists ----------

  // CDL_APPEND2
  method CdlAppend<T>(head: Node?<T>, add: Node<T>, ghost s: seq<Node<T>>) returns (head': Node<T>)
    requires List(CDL, s, head) && add !in s
    modifies add, First(s), Last(s)
    ensures List(CDL, s + [add], head')
  {
    if head != null {
      add.prev := head.prev;
      add.next := head;
      head.prev := add;
      add.prev.next := add;
      head' := head;
    } else {
      add.prev := add;
      add.next := add;
      head' := add;
    }
  }

  // CDL_PREPEND2
  method CdlPrepend<T>(head: Node?<T>, add: Node<T>, ghost s: seq<Node<T>>) returns (head': Node<T>)
    requires List(CDL, s, head) && add !in s
    modifies add, First(s), Last(s)
    ensures List(CDL, [add] + s, head')
  {
    if head != null {
      add.prev := head.prev;
      add.next := head;
      head.prev := add;
      add.prev.next := add;
    } else {
      add.prev := add;
      add.next := add;
    }
    head' := add;
  }

  // CDL_DELETE2
  method CdlDelete<T>(head: Node<T>, del: Node<T>, ghost s: seq<Node<T>>, ghost i: nat) returns (head': Node?<T>)
    requires List(CDL, s, head) && i < |s| && s[i] == del
    modifies Around(s, i)
    ensures List(CDL, Without(s, i), head')
    ensures |s| > 1 ==> del.next == old(del.next) && del.prev == old(del.prev)
  {
    WithoutAt(s, i);
    hide Without;
    assert i > 0 ==> s[i].prev == s[i - 1];
    assert i + 1 < |s| ==> s[i].next == s[i + 1];
    head' := head;
    if head == del && head.next == head {
      head' := null;
    } else {
      del.next.prev := del.prev;
      del.prev.next := del.next;
      if del == head { head' := del.next; }
      ghost var t := Without(s, i);
      assert Linked(t) && t[|t| - 1].next == head';
      assert LinkedBack(t, Last(t));
    }
  }

  // CDL_REPLACE_ELEM2
  method CdlReplace<T>(head: Node<T>, el: Node<T>, add: Node<T>, ghost s: seq<Node<T>>, ghost i: nat) returns (head': Node<T>)
    requires List(CDL, s, head) && i < |s| && s[i] == el && add !in s
    modifies add, Around(s, i)
    ensures List(CDL, Replaced(s, i, add), head')
  {
    ReplacedAt(s, i, add);
    hide Replaced, NoDup;
    assert i > 0 ==> s[i].prev == s[i - 1];
    assert i + 1 < |s| ==> s[i].next == s[i + 1];
    head' := head;
    if el.next == el {
      add.next := add;
      add.prev := add;
      head' := add;
    } else {
      add.next := el.next;
      add.prev := el.prev;
      add.next.prev := add;
      add.prev.next := add;
      if head == el { head' := add; }
    }
  }

  // CDL_PREPEND_ELEM2: in front of an element, or at the end without one
  method CdlPrependElem<T>(head: Node?<T>, el: Node?<T>, add: Node<T>, ghost s: seq<Node<T>>, ghost i: nat) returns (head': Node<T>)
    requires List(CDL, s, head) && i <= |s| && add !in s && el == if i < |s| then s[i] else null
    modifies add, First(s), Last(s), if i < |s| then Around(s, i) else {}
    ensures List(CDL, Inserted(s, i, add), head')
  {
    if el != null {
      InsertedAt(s, i, add);
      hide Inserted, NoDup;
      assert i > 0 ==> s[i].prev == s[i - 1];
      head' := head;
      add.next := el;
      add.prev := el.prev;
      el.prev := add;
      add.prev.next := add;
      if head == el { head' := add; }
      ghost var t := Inserted(s, i, add);
      assert Linked(t);
      assert LinkedBack(t, Last(t));
    } else {
      head' := CdlAppend(head, add, s);
      assert Inserted(s, i, add) == s + [add];
    }
  }

  // CDL_APPEND_ELEM2: behind an element, or at the front without one
  method CdlAppendElem<T>(head: Node?<T>, el: Node?<T>, add: Node<T>, ghost s: seq<Node<T>>, ghost i: nat) returns (head': Node<T>)
    requires List(CDL, s, head) && i <= |s| && add !in s && el == if i > 0 then s[i - 1] else null
    modifies add, First(s), Last(s), if i > 0 then Around(s, i - 1) else {}
    ensures List(CDL, Inserted(s, i, add), head')
  {
    if el != null {
      InsertedAt(s, i, add);
      hide Inserted, NoDup;
      assert i < |s| ==> s[i - 1].next == s[i];
      head' := head;
      add.next := el.next;
      add.prev := el;
      el.next := add;
      add.next.prev := add;
      ghost var t := Inserted(s, i, add);
      assert Linked(t);
      assert LinkedBack(t, Last(t));
    } else {
      head' := CdlPrepend(head, add, s);
      assert Inserted(s, i, add) == [add] + s;
    }
  }
}
