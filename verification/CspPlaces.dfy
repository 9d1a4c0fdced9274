/**
 Where the packet buffers of a CSP node are: in the free queue, the router FIFO, the
 receive queue of a connection, the queue of a connection-less socket, or outside.
 */
module CspPlaces {
  datatype Place = Free | Held | Driver | Fifo | Rx(conn: nat) | Socket(queue: nat)

  datatype Input = Input(iface: nat, buf: nat)

  // What csp_queue_create makes: a queue of packets or a queue of connections.
  datatype Queue = Packets(cap: nat, items: seq<nat>) | Conns(cap: nat, items: seq<nat>)

  datatype Mem = Mem(free: seq<nat>, refcount: seq<nat>, fifo: seq<Input>, rx: seq<seq<nat>>, queues: seq<Queue>)

  function Bufs(s: seq<Input>): (r: seq<nat>)
    ensures |r| == |s| && forall i :: 0 <= i < |s| ==> r[i] == s[i].buf
  {
    seq(|s|, i requires 0 <= i < |s| => s[i].buf)
  }

  predicate IsQueue(m: Mem, w: Place) {
    match w
    case Free => true
    case Fifo => true
    case Rx(c) => c < |m.rx|
    case Socket(k) => k < |m.queues| && m.queues[k].Packets?
    case _ => false
  }

  function Contents(m: Mem, w: Place): seq<nat>
    requires IsQueue(m, w)
  {
    match w
    case Free => m.free
    case Fifo => Bufs(m.fifo)
    case Rx(c) => m.rx[c]
    case Socket(k) => m.queues[k].items
  }

  ghost predicate Distinct(q: seq<nat>) {
    forall i, j :: 0 <= i < j < |q| ==> q[i] != q[j]
  }

  // q holds the buffers whose place is w, each once.
  ghost predicate Holds(place: seq<Place>, q: seq<nat>, w: Place) {
    && Distinct(q)
    && (forall i :: 0 <= i < |q| ==> q[i] < |place| && place[q[i]] == w)
    && (forall b :: 0 <= b < |place| && place[b] == w ==> b in q)
  }

  ghost predicate Inv(m: Mem, place: seq<Place>) {
    && |m.refcount| == |place|
    && (forall w :: IsQueue(m, w) ==> Holds(place, Contents(m, w), w))
    && (forall b :: 0 <= b < |place| ==>
          && m.refcount[b] == (if place[b] == Free then 0 else 1)
          && (place[b] == Held || place[b] == Driver || IsQueue(m, place[b])))
  }

  // Each buffer is in one place: no two queue entries name the same buffer, the buffers with
  // reference count 0 are those in the free queue, and what is in no queue is outside.
  lemma OnePlace(m: Mem, place: seq<Place>, w: Place, i: nat, v: Place, j: nat)
    requires Inv(m, place) && IsQueue(m, w) && IsQueue(m, v)
    requires i < |Contents(m, w)| && j < |Contents(m, v)| && Contents(m, w)[i] == Contents(m, v)[j]
    ensures w == v && i == j
  {
    hide IsQueue, Contents;
    assert Holds(place, Contents(m, w), w) && Holds(place, Contents(m, v), v);
  }

  lemma FreeIffUncounted(m: Mem, place: seq<Place>, b: nat)
    requires Inv(m, place) && b < |place|
    ensures m.refcount[b] == 0 <==> b in m.free
    ensures m.refcount[b] <= 1
    ensures (forall w :: IsQueue(m, w) ==> b !in Contents(m, w)) <==> place[b] == Held || place[b] == Driver
  {
    assert IsQueue(m, Free);
    if IsQueue(m, place[b]) {
      assert Holds(place, Contents(m, place[b]), place[b]);
    }
    hide Contents;
    forall w | IsQueue(m, w) && b in Contents(m, w) ensures place[b] == w {
      assert Holds(place, Contents(m, w), w);
    }
  }

  lemma AllFreeAtFirst(count: nat, conns: nat)
    ensures Inv(Mem(seq(count, i => i), seq(count, i => 0), [], seq(conns, i => []), []), seq(count, i => Free))
  {
    var m := Mem(seq(count, i => i), seq(count, i => 0), [], seq(conns, i => []), []);
    var place := seq(count, i => Free);
    AllInFree(count);
    forall w | IsQueue(m, w) ensures Holds(place, Contents(m, w), w) {
      if w != Free {
        assert Contents(m, w) == [];
      }
    }
  }

  lemma AllInFree(count: nat)
    ensures Holds(seq(count, i => Free), seq(count, i => i), Free)
  {
    var q: seq<nat> := seq(count, i => i);
    forall b: nat | b < count ensures b in q {
      assert q[b] == b;
    }
  }

  lemma EmptyRx(m: Mem, place: seq<Place>, c: nat)
    requires Inv(m, place) && c < |m.rx| && m.rx[c] == []
    ensures forall b :: 0 <= b < |place| ==> place[b] != Rx(c)
  {
    assert IsQueue(m, Rx(c)) && Holds(place, m.rx[c], Rx(c));
  }

  // ---------- one buffer moves ----------

  lemma HoldsElsewhere(place: seq<Place>, q: seq<nat>, w: Place, b: nat, v: Place)
    requires Holds(place, q, w) && b < |place| && place[b] != w && v != w
    ensures Holds(place[b := v], q, w)
  {
  }

  lemma HoldsLess(place: seq<Place>, q: seq<nat>, w: Place, v: Place)
    requires Holds(place, q, w) && |q| > 0 && v != w
    ensures Holds(place[q[0] := v], q[1..], w)
  {
    var p := place[q[0] := v];
    forall b | 0 <= b < |p| && p[b] == w ensures b in q[1..] {
      assert place[b] == w && b in q;
    }
  }

  lemma HoldsMore(place: seq<Place>, q: seq<nat>, w: Place, b: nat)
    requires Holds(place, q, w) && b < |place| && place[b] != w
    ensures Holds(place[b := w], q + [b], w)
  {
  }

  // m' is m after b left the front of w for the end of v.
  ghost predicate Moves(m: Mem, m': Mem, b: nat, w: Place, v: Place) {
    && w != v && b < |m.refcount|
    && m'.refcount == m.refcount[b := if v == Free then 0 else 1]
    && (v == Held || v == Driver || IsQueue(m, v))
    && (IsQueue(m, w) ==> |Contents(m, w)| > 0 && Contents(m, w)[0] == b)
    && (forall u :: IsQueue(m', u) <==> IsQueue(m, u))
    && (forall u :: IsQueue(m, u) ==>
          Contents(m', u) == if u == w then Contents(m, u)[1..] else if u == v then Contents(m, u) + [b] else Contents(m, u))
  }

  lemma MoveKeepsInv(m: Mem, place: seq<Place>, m': Mem, b: nat, w: Place, v: Place)
    requires Inv(m, place) && Moves(m, m', b, w, v) && place[b] == w
    ensures Inv(m', place[b := v])
  {
    hide IsQueue, Contents, Holds;
    var p := place[b := v];
    forall u | IsQueue(m', u) ensures Holds(p, Contents(m', u), u) {
      assert IsQueue(m, u);
      if u == w {
        HoldsLess(place, Contents(m, u), u, v);
      } else if u == v {
        HoldsMore(place, Contents(m, u), u, b);
      } else {
        HoldsElsewhere(place, Contents(m, u), u, b, v);
      }
    }
  }

  // The buffer at the front of a queue is where the queue says.
  lemma Front(m: Mem, place: seq<Place>, w: Place)
    requires Inv(m, place) && IsQueue(m, w) && |Contents(m, w)| > 0
    ensures Contents(m, w)[0] < |place| && place[Contents(m, w)[0]] == w
  {
    assert Holds(place, Contents(m, w), w);
  }

  // The moves of the operations.
  function TakeFree(m: Mem): Mem
    requires |m.free| > 0 && m.free[0] < |m.refcount|
  {
    m.(free := m.free[1..], refcount := m.refcount[m.free[0] := 1])
  }

  function PutFree(m: Mem, b: nat): Mem
    requires b < |m.refcount|
  {
    m.(free := m.free + [b], refcount := m.refcount[b := 0])
  }

  function TakeFifo(m: Mem): Mem
    requires |m.fifo| > 0
  {
    m.(fifo := m.fifo[1..])
  }

  function PutFifo(m: Mem, e: Input): Mem {
    m.(fifo := m.fifo + [e])
  }

  function TakeRx(m: Mem, c: nat): Mem
    requires c < |m.rx| && |m.rx[c]| > 0
  {
    m.(rx := m.rx[c := m.rx[c][1..]])
  }

  function PutRx(m: Mem, c: nat, b: nat): Mem
    requires c < |m.rx|
  {
    m.(rx := m.rx[c := m.rx[c] + [b]])
  }

  function TakePacket(m: Mem, k: nat): Mem
    requires k < |m.queues| && m.queues[k].Packets? && |m.queues[k].items| > 0
  {
    m.(queues := m.queues[k := m.queues[k].(items := m.queues[k].items[1..])])
  }

  function PutPacket(m: Mem, k: nat, b: nat): Mem
    requires k < |m.queues| && m.queues[k].Packets?
  {
    m.(queues := m.queues[k := m.queues[k].(items := m.queues[k].items + [b])])
  }

  lemma TakeFreeKeepsInv(m: Mem, place: seq<Place>)
    requires Inv(m, place) && |m.free| > 0
    ensures var b := m.free[0];
            b < |place| && place[b] == Free && m.refcount[b] == 0 && Inv(TakeFree(m), place[b := Held])
  {
    assert IsQueue(m, Free);
    Front(m, place, Free);
    MoveKeepsInv(m, place, TakeFree(m), m.free[0], Free, Held);
  }

  lemma PutFreeKeepsInv(m: Mem, place: seq<Place>, b: nat)
    requires Inv(m, place) && b < |place| && (place[b] == Held || place[b] == Driver)
    ensures Inv(PutFree(m, b), place[b := Free])
  {
    MoveKeepsInv(m, place, PutFree(m, b), b, place[b], Free);
  }

  lemma SameCount(m: Mem, place: seq<Place>, b: nat)
    requires Inv(m, place) && b < |place| && place[b] != Free
    ensures m.refcount == m.refcount[b := 1]
  {
  }

  lemma TakeFifoKeepsInv(m: Mem, place: seq<Place>)
    requires Inv(m, place) && |m.fifo| > 0
    ensures var b := m.fifo[0].buf;
            b < |place| && place[b] == Fifo && Inv(TakeFifo(m), place[b := Held])
  {
    assert IsQueue(m, Fifo);
    Front(m, place, Fifo);
    SameCount(m, place, m.fifo[0].buf);
    assert Bufs(m.fifo[1..]) == Bufs(m.fifo)[1..];
    MoveKeepsInv(m, place, TakeFifo(m), m.fifo[0].buf, Fifo, Held);
  }

  lemma PutFifoKeepsInv(m: Mem, place: seq<Place>, e: Input)
    requires Inv(m, place) && e.buf < |place| && (place[e.buf] == Held || place[e.buf] == Driver)
    ensures Inv(PutFifo(m, e), place[e.buf := Fifo])
  {
    SameCount(m, place, e.buf);
    assert Bufs(m.fifo + [e]) == Bufs(m.fifo) + [e.buf];
    MoveKeepsInv(m, place, PutFifo(m, e), e.buf, place[e.buf], Fifo);
  }

  lemma TakeRxKeepsInv(m: Mem, place: seq<Place>, c: nat)
    requires Inv(m, place) && c < |m.rx| && |m.rx[c]| > 0
    ensures var b := m.rx[c][0];
            b < |place| && place[b] == Rx(c) && Inv(TakeRx(m, c), place[b := Held])
  {
    assert IsQueue(m, Rx(c));
    Front(m, place, Rx(c));
    SameCount(m, place, m.rx[c][0]);
    MoveKeepsInv(m, place, TakeRx(m, c), m.rx[c][0], Rx(c), Held);
  }

  lemma PutRxKeepsInv(m: Mem, place: seq<Place>, c: nat, b: nat)
    requires Inv(m, place) && c < |m.rx| && b < |place| && place[b] == Held
    ensures Inv(PutRx(m, c, b), place[b := Rx(c)])
  {
    SameCount(m, place, b);
    MoveKeepsInv(m, place, PutRx(m, c, b), b, Held, Rx(c));
  }

  lemma TakePacketKeepsInv(m: Mem, place: seq<Place>, k: nat)
    requires Inv(m, place) && k < |m.queues| && m.queues[k].Packets? && |m.queues[k].items| > 0
    ensures var b := m.queues[k].items[0];
            b < |place| && place[b] == Socket(k) && Inv(TakePacket(m, k), place[b := Held])
  {
    assert IsQueue(m, Socket(k));
    Front(m, place, Socket(k));
    SameCount(m, place, m.queues[k].items[0]);
    MoveKeepsInv(m, place, TakePacket(m, k), m.queues[k].items[0], Socket(k), Held);
  }

  lemma PutPacketKeepsInv(m: Mem, place: seq<Place>, k: nat, b: nat)
    requires Inv(m, place) && k < |m.queues| && m.queues[k].Packets? && b < |place| && place[b] == Held
    ensures Inv(PutPacket(m, k, b), place[b := Socket(k)])
  {
    SameCount(m, place, b);
    MoveKeepsInv(m, place, PutPacket(m, k, b), b, Held, Socket(k));
  }

  // A driver takes a packet over.
  lemma ToDriverKeepsInv(m: Mem, place: seq<Place>, b: nat)
    requires Inv(m, place) && b < |place| && (place[b] == Held || place[b] == Driver)
    ensures Inv(m, place[b := Driver])
  {
    SameCount(m, place, b);
    if place[b] == Driver {
      assert place[b := Driver] == place;
    } else {
      MoveKeepsInv(m, place, m, b, Held, Driver);
    }
  }

  // Queues of connections hold no buffers, new queues none yet.
  lemma QueuesKeepInv(m: Mem, place: seq<Place>, queues: seq<Queue>)
    requires Inv(m, place) && |m.queues| <= |queues|
    requires forall k :: 0 <= k < |m.queues| ==> queues[k].Packets? == m.queues[k].Packets?
    requires forall k :: 0 <= k < |m.queues| && queues[k].Packets? ==> queues[k].items == m.queues[k].items
    requires forall k :: |m.queues| <= k < |queues| ==> queues[k].items == []
    ensures Inv(m.(queues := queues), place)
  {
    var m' := m.(queues := queues);
    forall w | IsQueue(m', w) ensures Holds(place, Contents(m', w), w) {
      if IsQueue(m, w) {
        assert Holds(place, Contents(m, w), w);
      }
    }
  }

  // There is room in the free queue for every buffer that is not there.
  lemma RoomToFree(m: Mem, place: seq<Place>, b: nat)
    requires Inv(m, place) && b < |place| && place[b] != Free
    ensures |m.free| < |place|
  {
    assert IsQueue(m, Free) && Holds(place, m.free, Free);
    Pigeonhole(m.free + [b], |place|);
  }

  lemma {:induction false} Pigeonhole(q: seq<nat>, n: nat)
    requires Distinct(q) && forall i :: 0 <= i < |q| ==> q[i] < n
    ensures |q| <= n
    decreases n
  {
    assert |q| > 0 ==> q[0] < n;
    if i :| 0 <= i < |q| && q[i] == n - 1 {
      var rest := q[..i] + q[i + 1..];
      assert forall k :: 0 <= k < |rest| ==> rest[k] == q[if k < i then k else k + 1];
      Pigeonhole(rest, n - 1);
    } else if n > 0 {
      Pigeonhole(q, n - 1);
    }
  }
}
