/**
 The connection table of libcsp: how slots are given out, how identifiers are matched and
 how csp_connect looks for an ephemeral port.
 */
module CspConns {
  import CspPlaces

  const PORT_MAX := 63
  const BROADCAST := 31

  datatype Flags = Flags(hmac: bool, xtea: bool, rdp: bool, crc32: bool)

  datatype Id = Id(pri: nat, src: nat, dst: nat, dport: nat, sport: nat, flags: Flags)

  datatype Opts = Opts(rdp: bool, hmac: bool, xtea: bool, crc32: bool, connless: bool)

  // A queue handle, or none.
  datatype Handle = NoQueue | Handle(queue: nat)

  datatype Conn = Conn(open: bool, server: bool, idin: Id, idout: Id, socket: Handle, opts: Opts)

  // A slot of the table, or none.
  datatype Slot = NoSlot | Slot(c: nat)

  // The two masks csp_conn_find is called with.
  datatype Mask = ConnMask | DportMask

  predicate Matches(a: Id, b: Id, mask: Mask) {
    && a.dport == b.dport
    && (mask.ConnMask? ==> a.src == b.src && a.dst == b.dst && a.sport == b.sport)
  }

  predicate Hit(conn: Conn, id: Id, mask: Mask) {
    conn.open && !conn.server && Matches(conn.idin, id, mask)
  }

  // ---------- ephemeral ports ----------

  // Some open client connection receives on port p.
  predicate Used(conns: seq<Conn>, p: nat) {
    exists c :: 0 <= c < |conns| && conns[c].open && !conns[c].server && conns[c].idin.dport == p
  }

  // Not all ephemeral ports are in use.
  predicate SomeUnused(conns: seq<Conn>, lo: nat) {
    exists p :: lo <= p <= PORT_MAX && !Used(conns, p)
  }

  // A port csp_connect may pick when its last one was start; lo is the lowest ephemeral port.
  ghost predicate Pick(conns: seq<Conn>, lo: nat, start: nat, p: nat) {
    lo <= p <= PORT_MAX && p != start && !Used(conns, p)
  }

  // The connections csp_connect has made receive on different ephemeral ports; those the
  // router has made receive below them.
  ghost predicate PortsApart(conns: seq<Conn>, connected: set<nat>, lo: nat) {
    && (forall c :: c in connected ==> c < |conns| && conns[c].open && !conns[c].server && lo <= conns[c].idin.dport <= PORT_MAX)
    && (forall c :: 0 <= c < |conns| && conns[c].open && !conns[c].server && c !in connected ==> conns[c].idin.dport < lo)
    && (forall c, d :: c in connected && d in connected && c != d ==> conns[c].idin.dport != conns[d].idin.dport)
  }

  // One turn of the search: the next port in turn.
  function NextPort(sport: nat, lo: nat): nat {
    var n := (sport + 1) % 256;
    if n > PORT_MAX then lo else n
  }

  function Ports(lo: nat, k: nat): nat {
    if k == 0 then lo else NextPort(Ports(lo, k - 1), lo)
  }

  // The search that starts at the lowest port never comes back to where it started: with every
  // ephemeral port in use it does not end.
  lemma {:induction false} SearchNeverEnds(conns: seq<Conn>, lo: nat, k: nat)
    requires 0 < lo <= PORT_MAX && forall p :: lo <= p <= PORT_MAX ==> Used(conns, p)
    ensures lo <= Ports(lo, k) <= PORT_MAX && Used(conns, Ports(lo, k))
    ensures (Ports(lo, k) + 1) % 256 != lo
    decreases k
  {
    if k > 0 { SearchNeverEnds(conns, lo, k - 1); }
  }

  // With fewer connections than ephemeral ports to spare there is always a port to pick.
  lemma FewConnections(conns: seq<Conn>, lo: nat, start: nat)
    requires lo <= PORT_MAX && |conns| < PORT_MAX - lo
    ensures exists p :: Pick(conns, lo, start, p)
  {
    if forall p :: lo <= p <= PORT_MAX && p != start ==> Used(conns, p) {
      var slots := Users(conns, lo, start, PORT_MAX + 1);
      CspPlaces.Pigeonhole(slots, |conns|);
    } else {
      var p :| lo <= p <= PORT_MAX && p != start && !Used(conns, p);
      assert Pick(conns, lo, start, p);
    }
  }

  // A connection for every port below hi.
  lemma {:induction false} Users(conns: seq<Conn>, lo: nat, start: nat, hi: nat) returns (slots: seq<nat>)
    requires lo <= hi && forall p :: lo <= p < hi && p != start ==> Used(conns, p)
    ensures CspPlaces.Distinct(slots) && |slots| == hi - lo - (if lo <= start < hi then 1 else 0)
    ensures forall i :: 0 <= i < |slots| ==> slots[i] < |conns| && conns[slots[i]].idin.dport < hi
    decreases hi
  {
    slots := [];
    if hi > lo {
      slots := Users(conns, lo, start, hi - 1);
      if hi - 1 != start {
        assert Used(conns, hi - 1);
        var c :| 0 <= c < |conns| && conns[c].open && !conns[c].server && conns[c].idin.dport == hi - 1;
        slots := slots + [c];
      }
    }
  }

  // ---------- what the operations keep ----------

  lemma CloseKeepsApart(conns: seq<Conn>, connected: set<nat>, lo: nat, c: nat)
    requires PortsApart(conns, connected, lo) && c < |conns|
    ensures PortsApart(conns[c := conns[c].(open := false)], connected - {c}, lo)
  {
  }

  // A slot is given out again only after it was closed.
  lemma ConnectKeepsApart(conns: seq<Conn>, connected: set<nat>, lo: nat, c: nat, conn: Conn)
    requires PortsApart(conns, connected, lo) && c < |conns| && !conns[c].open
    requires conn.open && !conn.server && lo <= conn.idin.dport <= PORT_MAX && !Used(conns, conn.idin.dport)
    ensures PortsApart(conns[c := conn], connected + {c}, lo)
  {
  }

  lemma OpenKeepsApart(conns: seq<Conn>, connected: set<nat>, lo: nat, c: nat, conn: Conn)
    requires PortsApart(conns, connected, lo) && c < |conns| && !conns[c].open
    requires conn.open && (conn.server || conn.idin.dport < lo)
    ensures PortsApart(conns[c := conn], connected, lo)
  {
  }

  lemma UpdateKeepsApart(conns: seq<Conn>, connected: set<nat>, lo: nat, c: nat, conn: Conn)
    requires PortsApart(conns, connected, lo) && c < |conns|
    requires conn.open == conns[c].open && conn.server == conns[c].server && conn.idin == conns[c].idin
    ensures PortsApart(conns[c := conn], connected, lo)
  {
  }

  // ---------- answers ----------

  // The two identifiers of a connection name the same ends, from either side.
  predicate Mirrored(conn: Conn) {
    && conn.idout.src == conn.idin.dst && conn.idout.dst == conn.idin.src
    && conn.idout.sport == conn.idin.dport && conn.idout.dport == conn.idin.sport
  }

  // What the node at `address` answers to a packet sent on a connection belongs to that connection,
  // if and only if the packet was sent to that node: an answer to a broadcast does not.
  lemma AnswerHits(conn: Conn, address: nat, flags: Flags)
    requires conn.open && !conn.server && Mirrored(conn)
    ensures var id := conn.idout;
            Hit(conn, Id(id.pri, address, id.src, id.sport, id.dport, flags), ConnMask) <==> id.dst == address
  {
  }

  // Exactly the packets from the other end to this end belong to the connection.
  lemma AnswersOnly(conn: Conn, id: Id)
    requires conn.open && !conn.server && Mirrored(conn)
    ensures Hit(conn, id, ConnMask) <==>
              id.src == conn.idout.dst && id.sport == conn.idout.dport && id.dst == conn.idout.src && id.dport == conn.idout.sport
    ensures Hit(conn, id, DportMask) <==> id.dport == conn.idout.sport
  {
  }

  // A packet that belongs to a connection of csp_connect belongs to no other.
  lemma HitsOne(conns: seq<Conn>, connected: set<nat>, lo: nat, c: nat, d: nat, id: Id)
    requires PortsApart(conns, connected, lo) && c in connected && c < |conns| && d < |conns|
    requires Hit(conns[c], id, ConnMask) && Hit(conns[d], id, ConnMask)
    ensures c == d && lo <= id.dport
  {
  }

  // The queue behind a slot: of packets if it is connection-less, else of connections.
  ghost predicate Handles(conns: seq<Conn>, queues: seq<CspPlaces.Queue>) {
    && (forall c :: 0 <= c < |conns| ==> HandleFits(conns[c], queues))
    && (forall k :: 0 <= k < |queues| && queues[k].Conns? ==> ConnItems(queues[k].items, |conns|))
  }

  ghost predicate HandleFits(conn: Conn, queues: seq<CspPlaces.Queue>) {
    && (conn.socket.Handle? ==> conn.socket.queue < |queues| && queues[conn.socket.queue].Packets? == conn.opts.connless)
    && (conn.opts.connless ==> conn.socket.Handle?)
    && (conn.open && !conn.server ==> !conn.opts.connless)
  }

  ghost predicate ConnItems(items: seq<nat>, n: nat) {
    forall i :: 0 <= i < |items| ==> items[i] < n
  }

  lemma UpdateKeepsHandles(conns: seq<Conn>, queues: seq<CspPlaces.Queue>, c: nat, conn: Conn)
    requires Handles(conns, queues) && c < |conns| && HandleFits(conn, queues)
    ensures Handles(conns[c := conn], queues)
  {
  }

  lemma CreateKeepsHandles(conns: seq<Conn>, queues: seq<CspPlaces.Queue>, q: CspPlaces.Queue)
    requires Handles(conns, queues) && q.items == []
    ensures Handles(conns, queues + [q])
  {
  }

  lemma ItemsKeepHandles(conns: seq<Conn>, queues: seq<CspPlaces.Queue>, k: nat, q: CspPlaces.Queue)
    requires Handles(conns, queues) && k < |queues| && q.Packets? == queues[k].Packets?
    requires q.Conns? ==> ConnItems(q.items, |conns|)
    ensures Handles(conns, queues[k := q])
  {
  }
}
