/**
 Two CSP nodes: a request from a connection of the one to a socket of the other, and the
 answer, over interfaces that deliver what they take.
 */
module CspExchange {
  import opened CspPlaces
  import opened CspConns
  import opened CspNode
  import Crc32

  // A connection csp_connect made and nothing was received on yet.
  ghost predicate Calls(client: Node, c: nat)
    reads client
  {
    && client.Valid() && c in client.connected && c < |client.conns| == |client.rx| && client.conns[c].open && !client.conns[c].server
    && Mirrored(client.conns[c]) && client.conns[c].idout.src == client.address
    && client.conns[c].socket == NoQueue && client.rx[c] == []
  }

  // The packet in buffer b can be sent with this identifier, and fits a buffer of the receiver.
  ghost predicate Fits(sender: Node, id: Id, b: nat, ifout: Iface, receiver: Node)
    reads sender, receiver
  {
    && b < sender.count && b < |sender.packets| && b < |sender.place| && (sender.place[b] == Held || sender.place[b] == Driver)
    && ifout.Iface? && ifout.hop == Takes && sender.CanSend(id, sender.Outgoing(id, sender.packets[b]), ifout)
    && |sender.Outgoing(id, sender.packets[b]).payload| <= receiver.size
    && |receiver.free| > 0 && receiver.fifo == [] && receiver.fifoLength > 0
  }

  // The server's application gets what the client's sent, on a connection whose answers belong to
  // the client's.
  method Request(client: Node, server: Node, c: nat, b: nat, ifout: Iface, s: nat, iface: nat, dstif: Iface)
    returns (conn: Slot, p: Pointer)
    requires client != server && client.Valid() && server.Valid() && Calls(client, c)
    requires Fits(client, client.conns[c].idout, b, ifout, server) && server.Awaits(s, client.conns[c].idout)
    requires client.conns[c].idout.dst == server.address
    modifies client`free, client`refcount, client`place, client`fifo, client`packets, server
    ensures client.Valid() && server.Valid() && conn.Slot? && conn.c < |server.conns| && server.conns[conn.c].open
    ensures p.Buffer? && p.b < |server.packets| && p.b < |server.place| && server.place[p.b] == Held
    ensures server.packets[p.b].payload == old(client.packets[b].payload)
    ensures Hit(client.conns[c], server.conns[conn.c].idout, ConnMask) && server.conns[conn.c].idout.dst == client.address
    ensures server.conns[conn.c].idout.src == server.address && server.conns[conn.c].idout.flags == client.conns[c].idout.flags
    ensures client.fifo == old(client.fifo) && client.free == old(client.free)
  {
    ghost var id := client.conns[c].idout;
    hide Inv, PortsApart, Handles, Secure, Stripped, Hit;
    client.OutgoingArrives(id, client.packets[b]);
    AnswerHits(client.conns[c], server.address, id.flags);
    var ok := client.SendOn(c, b, ifout);
    var n := server.Arrive(client.packets[b], iface);
    conn, p := server.Serve(dstif, s);
  }

  // What the server sends on that connection reaches the client's, and is read there.
  method Answer(server: Node, client: Node, sc: nat, b: nat, ifout: Iface, c: nat, iface: nat, dstif: Iface) returns (p: Pointer)
    requires client != server && client.Valid() && server.Valid() && Calls(client, c)
    requires sc < |server.conns| && server.conns[sc].open && Fits(server, server.conns[sc].idout, b, ifout, client)
    requires Hit(client.conns[c], server.conns[sc].idout, ConnMask)
    requires server.conns[sc].idout.src == server.address && server.conns[sc].idout.dst == client.address
    requires Supported(server.conns[sc].idout.flags) && client.rxLength > 0
    modifies server`free, server`refcount, server`place, server`fifo, server`packets, client
    ensures client.Valid() && server.Valid()
    ensures p.Buffer? && p.b < |client.packets| && p.b < |client.place| && client.place[p.b] == Held
    ensures client.packets[p.b].payload == old(server.packets[b].payload)
  {
    ghost var id := server.conns[sc].idout;
    hide Inv, Handles, Secure, Stripped, Supported, Established, NoneHit, Served, Node.Outgoing, Node.CanSend;
    server.OutgoingArrives(id, server.packets[b]);
    OnlyHit(client, c, id);
    hide PortsApart, Hit;
    var ok := server.SendOn(sc, b, ifout);
    var n := client.Arrive(server.packets[b], iface);
    p := client.Collect(dstif, c);
  }

  // Of all connections of the client this one alone gets the packet, and no socket does.
  lemma OnlyHit(client: Node, c: nat, id: Id)
    requires client.Valid() && Calls(client, c) && Hit(client.conns[c], id, ConnMask)
    ensures Established(client.conns, c, id) && !NoneHit(client.conns, id) && client.BoundTo(id.dport) == NoSlot
    ensures forall d: nat :: Established(client.conns, d, id) ==> d == c
  {
    hide Inv, Handles, Hit;
    HitsOne(client.conns, client.connected, client.lo, c, c, id);
    forall d: nat | d < |client.conns| && Hit(client.conns[d], id, ConnMask) ensures d == c {
      HitsOne(client.conns, client.connected, client.lo, c, d, id);
    }
  }

  // A packet of n octets, and a checksum if there is to be one, gets through the interface.
  predicate Through(ifout: Iface, n: nat, crc32: bool) {
    ifout.Iface? && ifout.hop == Takes && (ifout.mtu == 0 || n + (if crc32 then 4 else 0) <= ifout.mtu)
  }

  lemma FitsIf(sender: Node, id: Id, b: nat, ifout: Iface, receiver: Node)
    requires b < sender.count && b < |sender.packets| && b < |sender.place| && sender.place[b] == Held
    requires id.src == sender.address && Supported(id.flags) && Through(ifout, |sender.packets[b].payload|, id.flags.crc32)
    requires |sender.packets[b].payload| + (if id.flags.crc32 then 4 else 0) <= receiver.size
    requires |receiver.free| > 0 && receiver.fifo == [] && receiver.fifoLength > 0
    ensures Fits(sender, id, b, ifout, receiver)
  {
    hide Crc32.Trailer, Crc32.Reference;
  }

  // The beginning of csp_transaction: a connection, and a buffer with the request.
  method Begin(client: Node, prio: nat, dest: nat, dport: nat, opts: Opts, request: Crc32.octets) returns (c: nat, b: nat)
    requires client.Valid() && !opts.connless && !opts.rdp && !opts.hmac && !opts.xtea && dest < 32 && dport < 64
    requires client.sport != client.lo || exists q :: client.lo <= q <= PORT_MAX && !Used(client.conns, q)
    requires exists q :: Pick(client.conns, client.lo, client.sport, q)
    requires exists c :: 0 <= c < |client.conns| && !client.conns[c].open
    requires |client.free| >= 2 && |request| <= client.size
    modifies client
    ensures Calls(client, c) && b < client.count && client.count == |client.packets| == |client.place|
    ensures client.place[b] == Held && client.packets[b].payload == request
    ensures client.lo <= client.sport <= PORT_MAX && client.fifo == old(client.fifo) && |client.free| > 0
    ensures client.conns[c].idout == Id(prio % 4, client.address, dest, dport, client.sport, Flags(false, false, false, opts.crc32))
  {
    hide Inv, PortsApart, Handles, Used;
    ghost var port :| Pick(client.conns, client.lo, client.sport, port);
    var slot := client.Connect(prio, dest, dport, opts);
    c := slot.c;
    var buffer := client.BufferGet(|request|);
    b := buffer.b;
    client.packets := client.packets[b := client.packets[b].(payload := request)];
  }

  // csp_transaction with an application that accepts, reads and answers: it hears the request, and
  // the caller gets the answer, whatever they are.
  method Transaction(client: Node, server: Node, prio: nat, dport: nat, opts: Opts, request: Crc32.octets, reply: Crc32.octets,
                     there: Iface, back: Iface, s: nat, iface: nat, dstif: Iface) returns (heard: Crc32.octets, p: Pointer)
    requires client != server && client.Valid() && server.Valid()
    requires !opts.connless && !opts.rdp && !opts.hmac && !opts.xtea && server.address < 32 && dport < 64
    requires client.sport != client.lo || exists q :: client.lo <= q <= PORT_MAX && !Used(client.conns, q)
    requires exists q :: Pick(client.conns, client.lo, client.sport, q)
    requires exists c :: 0 <= c < |client.conns| && !client.conns[c].open
    requires |client.free| >= 2 && client.fifo == [] && client.fifoLength > 0 && client.rxLength > 0
    requires |server.free| > 0 && server.fifo == [] && server.fifoLength > 0
    requires var extra := if opts.crc32 then 4 else 0;
             |request| + extra <= server.size && |reply| + extra <= client.size && |request| <= client.size
    requires Through(there, |request|, opts.crc32) && Through(back, |reply|, opts.crc32)
    requires forall q :: client.lo <= q <= PORT_MAX ==>
               server.Awaits(s, Id(prio % 4, client.address, server.address, dport, q, Flags(false, false, false, opts.crc32)))
    modifies client, server
    ensures client.Valid() && server.Valid()
    ensures heard == request
    ensures p.Buffer? && p.b < |client.packets| && client.packets[p.b].payload == reply
  {
    hide Inv, PortsApart, Handles, Hit, Used, Node.Awaits, Fits, Through;
    var c, b := Begin(client, prio, server.address, dport, opts, request);
    FitsIf(client, client.conns[c].idout, b, there, server);
    var conn, q := Request(client, server, c, b, there, s, iface, dstif);
    heard := server.packets[q.b].payload;
    server.packets := server.packets[q.b := server.packets[q.b].(payload := reply)];
    FitsIf(server, server.conns[conn.c].idout, q.b, back, client);
    p := Answer(server, client, conn.c, q.b, back, c, iface, dstif);
  }
}
