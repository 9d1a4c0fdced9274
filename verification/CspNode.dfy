/**
 A CSP node: its buffer pool, router FIFO, connection table and ports, and the calls that
 change them, one at a time, without QoS and without RDP, HMAC and XTEA.
 */
module CspNode {
  import opened CspPlaces
  import opened CspConns
  import Crc32

  datatype Packet = Packet(id: Id, payload: Crc32.octets)

  // A pointer to a packet: the null pointer, one that is no packet, or a buffer of the pool.
  datatype Pointer = Null | Wild | Buffer(b: nat)

  datatype Port = Port(open: bool, socket: nat)

  // An outgoing interface as the router meets it: its transmit function fails, takes the packet,
  // or is the loopback's.
  datatype NextHop = NoHop | Fails | Takes | Loopback

  datatype Iface = NoRoute | Iface(index: nat, splitHorizonOff: bool, mtu: nat, hop: NextHop)

  // The calls a run is made of; a packet is received by a driver.
  datatype Call =
    | GetBuffer(bufSize: nat)
    | Release(p: Pointer)
    | CloneBuffer(b: nat)
    | Receive(p: Pointer, iface: Slot)
    | RouteOne(dstif: Iface)
    | Send(idout: Id, b: nat, ifout: Iface)
    | OpenConnection(prio: nat, dest: nat, dport: nat, opts: Opts)
    | CloseConnection(c: nat)
    | NewSocket(opts: Opts)
    | StartListening(socket: Slot, length: nat)
    | BindSocket(socket: Slot, port: nat)
    | AcceptNext(socket: Slot)
    | ReadNext(conn: Slot)
    | RecvNext(socket: Slot)

  class Node {
    const address: nat
    const count: nat
    const size: nat
    const fifoLength: nat
    const rxLength: nat
    const queueLength: nat
    const lo: nat

    var free: seq<nat>
    var refcount: seq<nat>
    var packets: seq<Packet>
    var fifo: seq<Input>
    var conns: seq<Conn>
    var rx: seq<seq<nat>>
    var lastGiven: nat
    var sport: nat
    var ports: seq<Port>
    var queues: seq<Queue>

    ghost var place: seq<Place>
    ghost var connected: set<nat>

    ghost function M(): Mem
      reads this
    {
      Mem(free, refcount, fifo, rx, queues)
    }

    ghost predicate Buffers()
      reads this
    {
      Inv(M(), place) && |place| == |packets| == count && |free| <= count
    }

    ghost predicate Valid()
      reads this
    {
      && Buffers()
      && |conns| == |rx| > 0
      && 0 < lo <= PORT_MAX && lo <= sport <= PORT_MAX
      && PortsApart(conns, connected, lo)
      && Handles(conns, queues)
      && |ports| == lo + 1
      && (forall p :: 0 <= p < |ports| && ports[p].open ==> ports[p].socket < |conns|)
    }

    // The states csp_buffer_init, csp_conn_init, csp_port_init and csp_qfifo_init set up.
    constructor (address: nat, count: nat, size: nat, fifoLength: nat, rxLength: nat, queueLength: nat, connMax: nat,
                 maxBind: nat, seed: nat, blank: Packet)
      requires connMax > 0 && maxBind < PORT_MAX
      ensures Valid() && this.address == address && this.count == count && lo == maxBind + 1
      ensures |conns| == connMax && (forall c :: 0 <= c < connMax ==> !conns[c].open)
      ensures forall b :: 0 <= b < count ==> place[b] == Free
    {
      this.address, this.count, this.size := address, count, size;
      this.fifoLength, this.rxLength, this.queueLength, this.lo := fifoLength, rxLength, queueLength, maxBind + 1;
      free := seq(count, i => i);
      refcount := seq(count, i => 0);
      packets := seq(count, i => blank);
      fifo := [];
      conns := seq(connMax, i => Conn(false, false, blank.id, blank.id, NoQueue, Opts(false, false, false, false, false)));
      rx := seq(connMax, i => []);
      lastGiven := 0;
      sport := seed % (PORT_MAX - maxBind) + (maxBind + 1);
      ports := seq(maxBind + 2, i => Port(false, 0));
      queues := [];
      place := seq(count, i => Free);
      connected := {};
      new;
      AllFreeAtFirst(count, connMax);
      assert M() == Mem(seq(count, i => i), seq(count, i => 0), [], seq(connMax, i => []), []);
    }

    // ---------- csp_buffer.c ----------

    // csp_buffer_get
    method BufferGet(bufSize: nat) returns (p: Pointer)
      requires Buffers()
      modifies this`free, this`refcount, this`place
      ensures Buffers()
      ensures p == if bufSize > size || |old(free)| == 0 then Null else Buffer(old(free)[0])
      ensures if p == Null then free == old(free) && refcount == old(refcount) && place == old(place)
              else
                && p.b < count && old(place)[p.b] == Free && place == old(place)[p.b := Held]
                && free == old(free)[1..] && refcount == old(refcount)[p.b := 1]
    {
      if bufSize > size { return Null; }
      if |free| == 0 { return Null; }
      TakeFreeKeepsInv(M(), place);
      var b := free[0];
      free := free[1..];
      refcount := refcount[b := refcount[b] + 1];
      place := place[b := Held];
      p := Buffer(b);
    }

    // csp_buffer_free: a buffer that is free already stays as it is.
    method BufferFree(p: Pointer)
      requires Buffers()
      requires p.Buffer? ==> p.b < count && (place[p.b] == Held || place[p.b] == Driver || place[p.b] == Free)
      modifies this`free, this`refcount, this`place
      ensures Buffers()
      ensures if p.Buffer? && old(place)[p.b] != Free then
                free == old(free) + [p.b] && refcount == old(refcount)[p.b := 0] && place == old(place)[p.b := Free]
              else
                free == old(free) && refcount == old(refcount) && place == old(place)
    {
      if !p.Buffer? { return; }
      var b := p.b;
      if refcount[b] == 0 {
        return;
      } else if refcount[b] > 1 {
        // only csp_buffer_get raises a count, from 0: a buffer never has a second user
        assert false;
      } else {
        RoomToFree(M(), place, b);
        PutFreeKeepsInv(M(), place, b);
        refcount := refcount[b := 0];
        if |free| < count { free := free + [b]; }
        place := place[b := Free];
      }
    }

    // A repeated free changes nothing.
    method FreeTwice(b: nat)
      requires Buffers() && b < count && (place[b] == Held || place[b] == Driver)
      modifies this`free, this`refcount, this`place
      ensures Buffers()
      ensures free == old(free) + [b] && refcount == old(refcount)[b := 0] && place == old(place)[b := Free]
    {
      hide Inv;
      BufferFree(Buffer(b));
      BufferFree(Buffer(b));
    }

    // csp_buffer_clone
    method BufferClone(p: Pointer) returns (clone: Pointer)
      requires Buffers() && (p.Buffer? ==> p.b < count && place[p.b] != Free) && !p.Wild?
      modifies this`free, this`refcount, this`place, this`packets
      ensures Buffers()
      ensures clone == if p == Null || |old(packets)[p.b].payload| > size || |old(free)| == 0 then Null else Buffer(old(free)[0])
      ensures if clone == Null then free == old(free) && refcount == old(refcount) && place == old(place) && packets == old(packets)
              else
                && clone != p && clone.b < count && old(place)[clone.b] == Free && place == old(place)[clone.b := Held]
                && free == old(free)[1..] && refcount == old(refcount)[clone.b := 1]
                && packets == old(packets)[clone.b := old(packets)[p.b]]
    {
      if p == Null { return Null; }
      clone := BufferGet(|packets[p.b].payload|);
      if clone.Buffer? {
        packets := packets[clone.b := packets[p.b]];
      }
    }

    // ---------- csp_qfifo.c ----------

    // csp_qfifo_write, for a packet and an interface that may be missing
    method QfifoWrite(p: Pointer, iface: Slot)
      requires Buffers() && !p.Wild? && (p.Buffer? ==> p.b < count && (place[p.b] == Held || place[p.b] == Driver))
      modifies this`free, this`refcount, this`place, this`fifo
      ensures Buffers()
      ensures p == Null ==> free == old(free) && refcount == old(refcount) && place == old(place) && fifo == old(fifo)
      ensures p.Buffer? ==>
                if iface.Slot? && |old(fifo)| < fifoLength then
                  && fifo == old(fifo) + [Input(iface.c, p.b)] && free == old(free) && refcount == old(refcount)
                  && place == old(place)[p.b := Fifo]
                else
                  && fifo == old(fifo) && free == old(free) + [p.b] && refcount == old(refcount)[p.b := 0]
                  && place == old(place)[p.b := Free]
    {
      if p == Null { return; }
      if iface == NoSlot {
        BufferFree(p);
        return;
      }
      if |fifo| < fifoLength {
        PutFifoKeepsInv(M(), place, Input(iface.c, p.b));
        fifo := fifo + [Input(iface.c, p.b)];
        place := place[p.b := Fifo];
      } else {
        BufferFree(p);
      }
    }

    // csp_qfifo_read
    method QfifoRead() returns (ok: bool, iface: nat, b: nat)
      requires Buffers()
      modifies this`fifo, this`place
      ensures Buffers()
      ensures ok <==> |old(fifo)| > 0
      ensures if ok then
                && old(fifo)[0] == Input(iface, b) && fifo == old(fifo)[1..]
                && b < count && old(place)[b] == Fifo && place == old(place)[b := Held]
              else fifo == old(fifo) && place == old(place)
    {
      ok, iface, b := |fifo| > 0, 0, 0;
      if ok {
        TakeFifoKeepsInv(M(), place);
        iface, b := fifo[0].iface, fifo[0].buf;
        fifo := fifo[1..];
        place := place[b := Held];
      }
    }

    // ---------- csp_io.c ----------

    // The loopback's transmit function: a packet for another node vanishes.
    method LoopbackTx(b: nat, iface: nat)
      requires Buffers() && b < count && (place[b] == Held || place[b] == Driver)
      modifies this`free, this`refcount, this`place, this`fifo
      ensures Buffers()
      ensures packets[b].id.dst != address || |old(fifo)| >= fifoLength ==> place == old(place)[b := Free] && fifo == old(fifo)
      ensures packets[b].id.dst == address && |old(fifo)| < fifoLength ==>
                place == old(place)[b := Fifo] && fifo == old(fifo) + [Input(iface, b)]
    {
      if packets[b].id.dst != address {
        BufferFree(Buffer(b));
        return;
      }
      QfifoWrite(Buffer(b), Slot(iface));
    }

    // Identifier and, for this node's own packets, checksum of an outgoing packet.
    method Stamp(idout: Id, b: nat) returns (ok: bool)
      requires b < |packets|
      modifies this`packets
      ensures |packets| == |old(packets)| && forall i :: 0 <= i < |packets| && i != b ==> packets[i] == old(packets)[i]
      ensures ok <==> (idout.src == address ==> !idout.flags.hmac && !idout.flags.xtea)
      ensures ok ==> packets == old(packets)[b := Outgoing(idout, old(packets)[b])] && packets[b].id == idout
    {
      hide Crc32.Trailer, Crc32.Reference;
      packets := packets[b := packets[b].(id := idout)];
      if idout.src == address {
        if idout.flags.hmac { return false; }
        if idout.flags.crc32 {
          var m := packets[b].payload;
          packets := packets[b := packets[b].(payload := m + Crc32.Trailer(Crc32.Reference(m)))];
        }
        if idout.flags.xtea { return false; }
      }
      ok := true;
    }

    // csp_send_direct: on success the packet is no longer the caller's, on failure it still is.
    method SendDirect(idout: Id, b: nat, ifout: Iface) returns (ok: bool)
      requires Buffers() && b < count && (place[b] == Held || place[b] == Driver)
      modifies this`free, this`refcount, this`place, this`fifo, this`packets
      ensures Buffers()
      ensures forall i :: 0 <= i < count && i != b ==> packets[i] == old(packets)[i] && place[i] == old(place)[i]
      ensures !ok ==> place == old(place) && fifo == old(fifo) && free == old(free) && refcount == old(refcount)
      ensures ok ==> place[b] in {Free, Driver, Fifo} && place == old(place)[b := place[b]]
      ensures ok ==> packets[b] == Outgoing(idout, old(packets)[b]) && (place[b] == Driver <==> ifout.Iface? && ifout.hop == Takes)
      ensures ok <==> CanSend(idout, Outgoing(idout, old(packets)[b]), ifout)
      ensures ok ==> (place[b] == Fifo <==> ifout.Iface? && ifout.hop == Loopback && idout.dst == address && |old(fifo)| < fifoLength)
      ensures ok && ifout.hop == Takes ==> free == old(free) && refcount == old(refcount)
      ensures fifo == if ok && place[b] == Fifo then old(fifo) + [Input(ifout.index, b)] else old(fifo)
      ensures idout.dst != address ==> fifo == old(fifo)
    {
      hide Inv, Outgoing;
      if ifout == NoRoute || ifout.hop == NoHop { return false; }
      ok := Stamp(idout, b);
      if !ok { return; }
      var bytes := |packets[b].payload|;
      if ifout.mtu > 0 && bytes > ifout.mtu { return false; }
      match ifout.hop
      case Fails => return false;
      case Takes =>
        ToDriverKeepsInv(M(), place, b);
        place := place[b := Driver];
        return true;
      case Loopback =>
        LoopbackTx(b, ifout.index);
        return true;
    }

    // The packet as it is sent: with its identifier, and a checksum if this node is the sender.
    function Outgoing(idout: Id, p: Packet): Packet {
      Packet(idout, if idout.src == address && idout.flags.crc32 then p.payload + Crc32.Trailer(Crc32.Reference(p.payload)) else p.payload)
    }

    predicate CanSend(idout: Id, p: Packet, ifout: Iface) {
      && ifout != NoRoute && ifout.hop != NoHop && ifout.hop != Fails
      && (idout.src == address ==> !idout.flags.hmac && !idout.flags.xtea)
      && (ifout.mtu == 0 || |p.payload| <= ifout.mtu)
    }

    // ---------- csp_conn.c ----------

    // csp_conn_find: the first open client connection that matches
    method FindConn(id: Id, mask: Mask) returns (slot: Slot)
      ensures slot.Slot? ==> slot.c < |conns| && Hit(conns[slot.c], id, mask)
      ensures slot.Slot? ==> forall c :: 0 <= c < slot.c ==> !Hit(conns[c], id, mask)
      ensures slot == NoSlot ==> forall c :: 0 <= c < |conns| ==> !Hit(conns[c], id, mask)
    {
      var i := 0;
      while i < |conns|
        invariant i <= |conns| && forall c :: 0 <= c < i ==> !Hit(conns[c], id, mask)
      {
        if Hit(conns[i], id, mask) { return Slot(i); }
        i := i + 1;
      }
      slot := NoSlot;
    }

    // csp_conn_allocate: looks round the table from the slot behind the last one given out.
    method Allocate(server: bool) returns (slot: Slot)
      requires |conns| > 0
      modifies this`conns, this`lastGiven
      ensures slot == NoSlot <==> forall c :: 0 <= c < |old(conns)| ==> old(conns)[c].open
      ensures slot == NoSlot ==> conns == old(conns) && lastGiven == old(lastGiven)
      ensures slot.Slot? ==>
                && slot.c < |old(conns)| && !old(conns)[slot.c].open && lastGiven == slot.c % 256
                && conns == old(conns)[slot.c := old(conns)[slot.c].(open := true, socket := NoQueue, server := server)]
                && FirstClosed(old(conns), old(lastGiven), slot.c)
    {
      hide Next;
      var i := Next(lastGiven, |conns|);
      ghost var first := i;
      var j := 0;
      while j < |conns| && conns[i].open
        invariant conns == old(conns) && lastGiven == old(lastGiven)
        invariant j <= |conns| && i == Around(first, j, |conns|) < |conns|
        invariant forall c :: 0 <= c < |conns| && Passed(first, j, c, |conns|) ==> conns[c].open
      {
        NextAround(i, |conns|);
        i, j := Next(i, |conns|), j + 1;
      }
      if conns[i].open { return NoSlot; }
      assert i == Around(first, j, |conns|);
      conns := conns[i := conns[i].(open := true, socket := NoQueue, server := server)];
      lastGiven := i % 256;
      slot := Slot(i);
    }

    // csp_conn_flush_rx_queue
    method FlushRx(c: nat)
      requires Buffers() && c < |rx|
      modifies this`rx, this`free, this`refcount, this`place
      ensures Buffers()
      ensures |rx| == |old(rx)| && rx == old(rx)[c := []] && old(free) <= free
      ensures forall b :: 0 <= b < count ==> place[b] == if old(place)[b] == Rx(c) then Free else old(place)[b]
    {
      while |rx[c]| > 0
        invariant old(free) <= free
        invariant Buffers() && |rx| == |old(rx)| && rx == old(rx)[c := rx[c]]
        invariant forall b :: 0 <= b < count ==> place[b] == old(place)[b] || (old(place)[b] == Rx(c) && place[b] == Free)
        decreases |rx[c]|
      {
        TakeRxKeepsInv(M(), place, c);
        var b := rx[c][0];
        rx := rx[c := rx[c][1..]];
        place := place[b := Held];
        BufferFree(Buffer(b));
      }
      EmptyRx(M(), place, c);
    }

    // csp_close; connections that were never open, or are closed, stay as they are.
    method Close(c: nat)
      requires Valid() && c < |conns|
      modifies this`conns, this`rx, this`free, this`refcount, this`place, this`connected
      ensures Valid()
      ensures |conns| == |old(conns)| && conns == old(conns)[c := old(conns)[c].(open := false)]
      ensures old(conns)[c].open ==> connected == old(connected) - {c}
      ensures |rx| == |old(rx)| && rx == if old(conns)[c].open then old(rx)[c := []] else old(rx)
      ensures forall b :: 0 <= b < count ==>
                place[b] == if old(conns)[c].open && old(place)[b] == Rx(c) then Free else old(place)[b]
    {
      if !conns[c].open { return; }
      CloseKeepsApart(conns, connected, lo, c);
      assert HandleFits(conns[c], queues);
      conns := conns[c := conns[c].(open := false)];
      connected := connected - {c};
      hide PortsApart, Inv;
      FlushRx(c);
    }

    // csp_conn_new, without the time stamp
    method ConnNew(idin: Id, idout: Id) returns (slot: Slot)
      requires Buffers() && |conns| == |rx| > 0
      modifies this`conns, this`lastGiven, this`rx, this`free, this`refcount, this`place
      ensures Buffers() && |rx| == |old(rx)| && old(free) <= free
      ensures slot == NoSlot <==> forall c :: 0 <= c < |old(conns)| ==> old(conns)[c].open
      ensures slot == NoSlot ==> conns == old(conns) && place == old(place) && rx == old(rx)
      ensures slot.Slot? ==>
                && slot.c < |old(conns)| && !old(conns)[slot.c].open
                && conns == old(conns)[slot.c := Conn(true, false, idin, idout, NoQueue, old(conns)[slot.c].opts)]
                && rx == old(rx)[slot.c := []]
                && forall b :: 0 <= b < count ==> place[b] == if old(place)[b] == Rx(slot.c) then Free else old(place)[b]
    {
      hide Inv;
      slot := Allocate(false);
      if slot.Slot? {
        conns := conns[slot.c := conns[slot.c].(idin := idin, idout := idout)];
        FlushRx(slot.c);
      }
    }

    // The search of csp_connect for an unused ephemeral port.
    method FindPort()
      requires 0 < lo <= PORT_MAX && lo <= sport <= PORT_MAX
      requires sport != lo || exists p :: lo <= p <= PORT_MAX && !Used(conns, p)
      modifies this`sport
      ensures lo <= sport <= PORT_MAX
      ensures sport == old(sport) <==> forall p :: lo <= p <= PORT_MAX ==> !Pick(conns, lo, old(sport), p)
      ensures sport != old(sport) ==> Pick(conns, lo, old(sport), sport)
    {
      var start := sport;
      ghost var goal: nat := start;
      if start == lo {
        goal :| lo <= goal <= PORT_MAX && !Used(conns, goal);
      }
      sport := (sport + 1) % 256;
      while sport != start
        invariant lo < sport <= PORT_MAX + 1
        invariant conns == old(conns)
        invariant forall p :: lo <= p <= PORT_MAX && Behind(start, p, sport, lo) ==> !Pick(conns, lo, start, p)
        invariant start == lo ==> goal == lo || sport <= goal
        invariant start != lo ==> goal == start
        decreases if sport <= start then start - sport else PORT_MAX + 1 - sport + start
      {
        if sport > PORT_MAX { sport := lo; }
        var conn := FindConn(Id(0, 0, 0, sport, 0, Flags(false, false, false, false)), DportMask);
        if conn == NoSlot {
          assert !Used(conns, sport);
          assert sport != start ==> Pick(conns, lo, start, sport);
          break;
        }
        assert Used(conns, sport);
        sport := (sport + 1) % 256;
      }
    }

    // csp_connect.  The options CSP_CONNECTION_SO adds are in opts already.  The search for a
    // port ends unless it starts at the lowest ephemeral port and all of them are in use.
    method Connect(prio: nat, dest: nat, dport: nat, opts: Opts) returns (slot: Slot)
      requires Valid() && !opts.connless
      requires sport != lo || exists p :: lo <= p <= PORT_MAX && !Used(conns, p)
      modifies this`conns, this`lastGiven, this`rx, this`free, this`refcount, this`place, this`sport, this`connected
      ensures Valid()
      ensures slot == NoSlot <==>
                || opts.rdp || opts.hmac || opts.xtea
                || (forall p :: lo <= p <= PORT_MAX ==> !Pick(old(conns), lo, old(sport), p))
                || (forall c :: 0 <= c < |old(conns)| ==> old(conns)[c].open)
      ensures slot == NoSlot ==> conns == old(conns) && connected == old(connected) && place == old(place)
      ensures old(free) <= free
      ensures slot.Slot? ==>
                && slot.c < |old(conns)| && !old(conns)[slot.c].open && connected == old(connected) + {slot.c}
                && rx == old(rx)[slot.c := []]
                && Pick(old(conns), lo, old(sport), sport)
                && var flags := Flags(false, false, false, opts.crc32);
                   conns == old(conns)[slot.c := Conn(true, false, Id(prio % 4, dest % 32, address, sport, dport % 64, flags),
                                                      Id(prio % 4, address, dest % 32, dport % 64, sport, flags), NoQueue, opts)]
    {
      hide Inv, Used, Pick, PortsApart, Handles;
      if opts.rdp || opts.hmac || opts.xtea { return NoSlot; }
      var flags := Flags(false, false, false, opts.crc32);
      var start := sport;
      FindPort();
      if sport == start { return NoSlot; }
      var incoming := Id(prio % 4, dest % 32, address, sport, dport % 64, flags);
      var outgoing := Id(prio % 4, address, dest % 32, dport % 64, sport, flags);
      slot := ConnNew(incoming, outgoing);
      if slot == NoSlot { return; }
      ghost var conn := Conn(true, false, incoming, outgoing, NoQueue, opts);
      ConnectKeepsApart(old(conns), connected, lo, slot.c, conn);
      UpdateKeepsHandles(old(conns), queues, slot.c, conn);
      conns := conns[slot.c := conns[slot.c].(opts := opts)];
      connected := connected + {slot.c};
      assert conns == old(conns)[slot.c := conn];
    }

    // csp_socket
    method CreateSocket(opts: Opts) returns (slot: Slot)
      requires Valid()
      modifies this`conns, this`lastGiven, this`queues
      ensures Valid()
      ensures slot == NoSlot <==>
                opts.rdp || opts.hmac || opts.xtea || (forall c :: 0 <= c < |old(conns)| ==> old(conns)[c].open)
      ensures slot == NoSlot ==> conns == old(conns) && queues == old(queues)
      ensures slot.Slot? ==>
                && slot.c < |old(conns)| && !old(conns)[slot.c].open
                && queues == (if opts.connless then old(queues) + [Packets(queueLength, [])] else old(queues))
                && conns == old(conns)[slot.c := old(conns)[slot.c].(open := true, server := true, opts := opts,
                                         socket := if opts.connless then Handle(|old(queues)|) else NoQueue)]
    {
      hide Inv, PortsApart, FirstClosed, Handles;
      if opts.rdp || opts.xtea || opts.hmac { return NoSlot; }
      slot := Allocate(true);
      if slot == NoSlot { return; }
      var handle := NoQueue;
      if opts.connless {
        QueuesKeepInv(M(), place, queues + [Packets(queueLength, [])]);
        CreateKeepsHandles(old(conns), queues, Packets(queueLength, []));
        handle := Handle(|queues|);
        queues := queues + [Packets(queueLength, [])];
      }
      ghost var conn := old(conns)[slot.c].(open := true, server := true, opts := opts, socket := handle);
      OpenKeepsApart(old(conns), connected, lo, slot.c, conn);
      UpdateKeepsHandles(old(conns), queues, slot.c, conn);
      conns := conns[slot.c := conns[slot.c].(opts := opts, socket := handle)];
      assert conns == old(conns)[slot.c := conn];
    }

    // csp_listen, for sockets that are not connection-less
    method Listen(socket: Slot, length: nat) returns (ok: bool)
      requires Valid() && (socket.Slot? ==> socket.c < |conns| && !conns[socket.c].opts.connless)
      modifies this`conns, this`queues
      ensures Valid() && (ok <==> socket.Slot?)
      ensures if ok then
                && queues == old(queues) + [Conns(length, [])]
                && conns == old(conns)[socket.c := old(conns)[socket.c].(socket := Handle(|old(queues)|))]
              else conns == old(conns) && queues == old(queues)
    {
      if socket == NoSlot { return false; }
      hide Inv, PortsApart;
      var conn := conns[socket.c].(socket := Handle(|queues|));
      QueuesKeepInv(M(), place, queues + [Conns(length, [])]);
      CreateKeepsHandles(conns, queues, Conns(length, []));
      UpdateKeepsApart(conns, connected, lo, socket.c, conn);
      queues := queues + [Conns(length, [])];
      UpdateKeepsHandles(conns, queues, socket.c, conn);
      conns := conns[socket.c := conn];
      ok := true;
    }

    // ---------- csp_port.c ----------

    // csp_bind: a port is bound once, up to the port that catches all.
    method Bind(socket: Slot, port: nat) returns (ok: bool)
      requires Valid() && (socket.Slot? ==> socket.c < |conns|)
      modifies this`ports
      ensures Valid()
      ensures ok <==> socket.Slot? && port <= lo && !old(ports)[port].open
      ensures ports == if ok then old(ports)[port := Port(true, socket.c)] else old(ports)
    {
      if socket == NoSlot { return false; }
      if port > lo { return false; }
      if ports[port].open { return false; }
      hide Inv, PortsApart, Handles;
      ports := ports[port := Port(true, socket.c)];
      ok := true;
    }

    // csp_port_get_socket; the port that catches all is the lowest ephemeral one.
    method GetSocket(port: nat) returns (socket: Slot)
      requires Valid()
      ensures port < lo && ports[port].open ==> socket == Slot(ports[port].socket)
      ensures port < lo && !ports[port].open && ports[lo].open ==> socket == Slot(ports[lo].socket)
      ensures port >= lo || (!ports[port].open && !ports[lo].open) ==> socket == NoSlot
      ensures socket == BoundTo(port) && (socket.Slot? ==> socket.c < |conns|)
    {
      if port >= lo { return NoSlot; }
      if ports[port].open {
        socket := Slot(ports[port].socket);
      } else if ports[lo].open {
        socket := Slot(ports[lo].socket);
      } else {
        socket := NoSlot;
      }
    }

    function BoundTo(port: nat): Slot
      requires |ports| == lo + 1
      reads this`ports
    {
      if port >= lo then NoSlot
      else if ports[port].open then Slot(ports[port].socket)
      else if ports[lo].open then Slot(ports[lo].socket)
      else NoSlot
    }

    // ---------- the application's side ----------

    // csp_read
    method Read(conn: Slot) returns (p: Pointer)
      requires Valid() && (conn.Slot? ==> conn.c < |conns|)
      modifies this`rx, this`place
      ensures Valid()
      ensures p == if conn.Slot? && conns[conn.c].open && |old(rx)[conn.c]| > 0 then Buffer(old(rx)[conn.c][0]) else Null
      ensures if p.Buffer? then
                && p.b < count && place == old(place)[p.b := Held] && rx == old(rx)[conn.c := old(rx)[conn.c][1..]]
              else rx == old(rx) && place == old(place)
    {
      hide Inv, PortsApart, Handles;
      if conn == NoSlot { return Null; }
      var c := conn.c;
      if !conns[c].open || |rx[c]| == 0 { return Null; }
      TakeRxKeepsInv(M(), place, c);
      p := Buffer(rx[c][0]);
      rx := rx[c := rx[c][1..]];
      place := place[p.b := Held];
    }

    // csp_recvfrom
    method RecvFrom(socket: Slot) returns (p: Pointer)
      requires Valid() && (socket.Slot? ==> socket.c < |conns|)
      modifies this`queues, this`place
      ensures Valid()
      ensures p.Buffer? <==>
                && socket.Slot? && conns[socket.c].opts.connless
                && |old(queues)[conns[socket.c].socket.queue].items| > 0
      ensures if p.Buffer? then
                var k := conns[socket.c].socket.queue;
                && old(queues)[k].items[0] == p.b < count && place == old(place)[p.b := Held]
                && queues == old(queues)[k := old(queues)[k].(items := old(queues)[k].items[1..])]
              else p == Null && queues == old(queues) && place == old(place)
    {
      if socket == NoSlot { return Null; }
      if !conns[socket.c].opts.connless { return Null; }
      assert HandleFits(conns[socket.c], queues);
      var k := conns[socket.c].socket.queue;
      if |queues[k].items| == 0 { return Null; }
      TakePacketKeepsInv(M(), place, k);
      ItemsKeepHandles(conns, queues, k, queues[k].(items := queues[k].items[1..]));
      hide Inv, PortsApart, Handles, HandleFits;
      p := Buffer(queues[k].items[0]);
      queues := queues[k := queues[k].(items := queues[k].items[1..])];
      place := place[p.b := Held];
    }

    // csp_accept, on a socket that is not connection-less
    method Accept(socket: Slot) returns (conn: Slot)
      requires Valid() && (socket.Slot? ==> socket.c < |conns| && !conns[socket.c].opts.connless)
      modifies this`queues
      ensures Valid() && (conn.Slot? ==> conn.c < |conns|)
      ensures conn.Slot? <==>
                && socket.Slot? && conns[socket.c].socket.Handle? && conns[socket.c].socket.queue < |old(queues)|
                && |old(queues)[conns[socket.c].socket.queue].items| > 0
      ensures if conn.Slot? then
                && socket.Slot? && conns[socket.c].socket.Handle?
                && var k := conns[socket.c].socket.queue;
                   && k < |old(queues)| && |old(queues)[k].items| > 0 && conn.c == old(queues)[k].items[0]
                   && queues == old(queues)[k := old(queues)[k].(items := old(queues)[k].items[1..])]
              else queues == old(queues)
    {
      if socket == NoSlot { return NoSlot; }
      if conns[socket.c].socket == NoQueue { return NoSlot; }
      assert HandleFits(conns[socket.c], queues);
      var k := conns[socket.c].socket.queue;
      if |queues[k].items| == 0 { return NoSlot; }
      var q := queues[k].(items := queues[k].items[1..]);
      assert ConnItems(queues[k].items, |conns|);
      ItemsKeepHandles(conns, queues, k, q);
      QueuesKeepInv(M(), place, queues[k := q]);
      hide Inv, PortsApart, Handles, HandleFits;
      conn := Slot(queues[k].items[0]);
      queues := queues[k := q];
    }

    // ---------- csp_udp.c ----------

    // csp_conn_enqueue_packet
    method Enqueue(c: nat, b: nat) returns (ok: bool)
      requires Valid() && c < |conns| && b < count && place[b] == Held
      modifies this`rx, this`place
      ensures Valid() && (ok <==> |old(rx)[c]| < rxLength)
      ensures if ok then rx == old(rx)[c := old(rx)[c] + [b]] && place == old(place)[b := Rx(c)]
              else rx == old(rx) && place == old(place)
    {
      hide Inv, PortsApart, Handles;
      if |rx[c]| >= rxLength { return false; }
      PutRxKeepsInv(M(), place, c, b);
      rx := rx[c := rx[c] + [b]];
      place := place[b := Rx(c)];
      ok := true;
    }

    // csp_udp_new_packet: the packet ends in the connection's queue or in the free queue.
    method NewPacket(c: nat, b: nat)
      requires Valid() && c < |conns| && conns[c].open && !conns[c].server && b < count && place[b] == Held
      modifies this`conns, this`rx, this`free, this`refcount, this`place, this`queues, this`connected
      ensures Valid() && |conns| == |old(conns)| && conns[c].idin == old(conns)[c].idin && conns[c].server == old(conns)[c].server
      ensures place[b] == Rx(c) || place[b] == Free
      ensures place[b] == Rx(c) <==> |old(rx)[c]| < rxLength && conns[c].open
      ensures conns[c].open <==> |old(rx)[c]| >= rxLength || RoomFor(old(conns)[c].socket, old(queues))
      ensures place[b] == Rx(c) ==>
                && |rx| == |old(rx)| && rx == old(rx)[c := old(rx)[c] + [b]] && queues == Posted(old(queues), old(conns)[c].socket, c)
                && conns == old(conns)[c := old(conns)[c].(socket := NoQueue)]
      ensures forall i :: 0 <= i < count && i != b ==>
                place[i] == old(place)[i] || (old(place)[i] == Rx(c) && place[i] == Free)
    {
      hide Inv, PortsApart, Handles;
      var ok := Enqueue(c, b);
      if !ok {
        BufferFree(Buffer(b));
        return;
      }
      if conns[c].socket.Handle? {
        PostConnection(c);
      }
    }

    // Posting a new connection to its socket: to a full queue it is not posted, but closed.
    method PostConnection(c: nat)
      requires Valid() && c < |conns| && conns[c].open && !conns[c].server && conns[c].socket.Handle?
      modifies this`conns, this`rx, this`free, this`refcount, this`place, this`queues, this`connected
      ensures Valid() && |conns| == |old(conns)| && conns[c].idin == old(conns)[c].idin && conns[c].server == old(conns)[c].server
      ensures forall b :: 0 <= b < count ==>
                place[b] == if !conns[c].open && old(place)[b] == Rx(c) then Free else old(place)[b]
      ensures conns[c].open <==> RoomFor(old(conns)[c].socket, old(queues))
      ensures conns[c].open ==>
                && rx == old(rx) && queues == Posted(old(queues), old(conns)[c].socket, c)
                && conns == old(conns)[c := old(conns)[c].(socket := NoQueue)]
    {
      assert HandleFits(conns[c], queues);
      var k := conns[c].socket.queue;
      if |queues[k].items| >= queues[k].cap {
        Close(c);
        return;
      }
      hide Inv, PortsApart;
      var q := queues[k].(items := queues[k].items + [c]);
      assert ConnItems(queues[k].items, |conns|);
      ItemsKeepHandles(conns, queues, k, q);
      QueuesKeepInv(M(), place, queues[k := q]);
      UpdateKeepsApart(conns, connected, lo, c, conns[c].(socket := NoQueue));
      queues := queues[k := q];
      UpdateKeepsHandles(conns, queues, c, conns[c].(socket := NoQueue));
      conns := conns[c := conns[c].(socket := NoQueue)];
    }

    // ---------- csp_route.c ----------

    predicate ForMe(id: Id) {
      id.dst == address || id.dst == BROADCAST
    }

    // csp_route_security_check: a checksum that is there must be right, and is stripped.
    method SecurityCheck(b: nat) returns (ok: bool)
      requires Buffers() && b < count
      modifies this`packets
      ensures Buffers() && (ok <==> Secure(old(packets)[b]))
      ensures packets == if ok then old(packets)[b := Stripped(old(packets)[b])] else old(packets)
    {
      var p := packets[b];
      if p.id.flags.crc32 {
        if !Crc32.Accepts([], p.payload) { return false; }
        packets := packets[b := p.(payload := p.payload[..|p.payload| - 4])];
      }
      ok := true;
    }

    // Forwarding a packet for another node.
    method RouteOut(iface: nat, b: nat, dstif: Iface)
      requires Valid() && b < count && place[b] == Held && !ForMe(packets[b].id)
      modifies this`free, this`refcount, this`place, this`fifo, this`packets
      ensures Valid() && fifo == old(fifo)
      ensures place[b] == Driver || place[b] == Free
      ensures place[b] == Driver <==> Forwards(iface, old(packets)[b], dstif)
      ensures forall i :: 0 <= i < count && i != b ==> place[i] == old(place)[i] && packets[i] == old(packets)[i]
      ensures |packets| == |old(packets)|
      ensures place[b] == Driver ==> packets == old(packets)[b := Outgoing(old(packets)[b].id, old(packets)[b])]
    {
      hide Inv, PortsApart, Handles, Outgoing;
      if dstif == NoRoute || (dstif.index == iface && !dstif.splitHorizonOff) {
        BufferFree(Buffer(b));
        return;
      }
      var ok := SendDirect(packets[b].id, b, dstif);
      if !ok {
        BufferFree(Buffer(b));
      }
    }

    // A packet for another node reaches a driver exactly when there is a route that does not
    // lead back, and the packet can be sent there by an interface other than the loopback.
    predicate Forwards(iface: nat, p: Packet, dstif: Iface) {
      && dstif.Iface? && (dstif.index == iface ==> dstif.splitHorizonOff)
      && dstif.hop == Takes && CanSend(p.id, Outgoing(p.id, p), dstif)
    }

    // Delivery to a connection-less socket.
    method DeliverDirect(socket: nat, b: nat)
      requires Valid() && socket < |conns| && conns[socket].opts.connless && b < count && place[b] == Held
      modifies this`free, this`refcount, this`place, this`packets, this`queues
      ensures Valid()
      ensures old(conns)[socket].socket.Handle? && old(conns)[socket].socket.queue < |old(queues)|
      ensures place == old(place)[b := place[b]]
      ensures var k := old(conns)[socket].socket.queue;
              if Secure(old(packets)[b]) && |old(queues)[k].items| < old(queues)[k].cap then
                && place[b] == Socket(k) && queues == Posted(old(queues), Handle(k), b)
                && packets == old(packets)[b := Stripped(old(packets)[b])]
              else place[b] == Free && queues == old(queues)
    {
      assert HandleFits(conns[socket], queues);
      hide Inv, PortsApart, Handles, HandleFits, Secure, Stripped;
      var k := conns[socket].socket.queue;
      var ok := SecurityCheck(b);
      if !ok {
        BufferFree(Buffer(b));
        return;
      }
      ok := EnqueueSocket(k, b);
      if !ok {
        BufferFree(Buffer(b));
      }
    }

    method EnqueueSocket(k: nat, b: nat) returns (ok: bool)
      requires Valid() && k < |queues| && queues[k].Packets? && b < count && place[b] == Held
      modifies this`queues, this`place
      ensures Valid() && (ok <==> |old(queues)[k].items| < old(queues)[k].cap)
      ensures if ok then
                place == old(place)[b := Socket(k)] && queues == old(queues)[k := old(queues)[k].(items := old(queues)[k].items + [b])]
              else place == old(place) && queues == old(queues)
    {
      hide Inv, PortsApart, Handles, IsQueue, Contents, ConnItems;
      if |queues[k].items| >= queues[k].cap { return false; }
      PutPacketKeepsInv(M(), place, k, b);
      var q := queues[k].(items := queues[k].items + [b]);
      ItemsKeepHandles(conns, queues, k, q);
      queues := queues[k := q];
      place := place[b := Socket(k)];
      ok := true;
    }

    // A new connection for a packet to a bound port.
    method AcceptConnection(socket: nat, b: nat) returns (slot: Slot)
      requires Valid() && socket < |conns| && !conns[socket].opts.connless
      requires b < count && place[b] == Held && packets[b].id.dport < lo
      modifies this`conns, this`lastGiven, this`rx, this`free, this`refcount, this`place
      ensures Valid() && place[b] == Held && |conns| == |old(conns)|
      ensures slot == NoSlot <==> forall c :: 0 <= c < |old(conns)| ==> old(conns)[c].open
      ensures slot == NoSlot ==> place == old(place) && conns == old(conns)
      ensures slot.Slot? ==>
                && slot.c < |conns| && !old(conns)[slot.c].open && rx[slot.c] == []
                && conns[slot.c].open && !conns[slot.c].server && conns[slot.c].idin == packets[b].id
                && conns[slot.c].socket == (if slot.c == socket then NoQueue else old(conns)[socket].socket)
                && conns[slot.c].idout == Id(packets[b].id.pri, address, packets[b].id.src, packets[b].id.sport, packets[b].id.dport,
                                             packets[b].id.flags)
                && conns == old(conns)[slot.c := conns[slot.c]] && rx == old(rx)[slot.c := []]
      ensures forall i :: 0 <= i < count ==>
                place[i] == old(place)[i] || (slot.Slot? && old(place)[i] == Rx(slot.c) && place[i] == Free)
    {
      var id := packets[b].id;
      var idout := Id(id.pri, address, id.src, id.sport, id.dport, id.flags);
      hide Inv, PortsApart, Handles;
      slot := ConnNew(id, idout);
      if slot == NoSlot { return; }
      var c := slot.c;
      var socketQueue, opts := conns[socket].socket, conns[socket].opts;
      ghost var conn := Conn(true, false, id, idout, socketQueue, opts);
      SocketFits(old(conns), queues, socket, conn);
      OpenKeepsApart(old(conns), connected, lo, c, conn);
      UpdateKeepsHandles(old(conns), queues, c, conn);
      conns := conns[c := conns[c].(socket := socketQueue, opts := opts)];
      assert conns == old(conns)[c := conn];
    }

    // Delivery to the connection a packet belongs to.
    method DeliverToExisting(c: nat, b: nat)
      requires Valid() && c < |conns| && b < count && place[b] == Held && Hit(conns[c], packets[b].id, ConnMask)
      modifies this`conns, this`rx, this`free, this`refcount, this`place, this`packets, this`queues, this`connected
      ensures Valid() && |conns| == |old(conns)|
      ensures place[b] == Rx(c) || place[b] == Free
      ensures place[b] == Rx(c) <==>
                Secure(old(packets)[b]) && |old(rx)[c]| < rxLength && RoomFor(old(conns)[c].socket, old(queues))
      ensures place[b] == Rx(c) ==> Hit(conns[c], old(packets)[b].id, ConnMask)
      ensures place[b] == Rx(c) ==>
                && |rx| == |old(rx)| && rx == old(rx)[c := old(rx)[c] + [b]]
                && packets == old(packets)[b := Stripped(old(packets)[b])]
      ensures forall i :: 0 <= i < count && i != b ==>
                place[i] == old(place)[i] || (old(place)[i].Rx? && place[i] == Free)
    {
      hide Inv, PortsApart, Handles, Secure, Stripped, RoomFor;
      var ok := SecurityCheck(b);
      if !ok {
        BufferFree(Buffer(b));
        return;
      }
      NewPacket(c, b);
    }

    // Delivery to a new connection.
    method DeliverToNew(socket: nat, b: nat)
      requires Valid() && b < count && place[b] == Held && packets[b].id.dport < lo
      requires socket < |conns| && !conns[socket].opts.connless
      requires forall c :: 0 <= c < |conns| ==> !Hit(conns[c], packets[b].id, ConnMask)
      modifies this`conns, this`lastGiven, this`rx, this`free, this`refcount, this`place, this`packets, this`queues, this`connected
      ensures Valid() && |conns| == |old(conns)|
      ensures place[b] == Free || (place[b].Rx? && place[b].conn < |conns|)
      ensures place[b].Rx? ==> Secure(old(packets)[b]) && Hit(conns[place[b].conn], old(packets)[b].id, ConnMask)
      ensures place[b].Rx? ==>
                && Served(old(conns), old(rx), old(queues), conns, rx, queues, address, socket, old(packets)[b].id, b, place[b].conn)
                && packets == old(packets)[b := Stripped(old(packets)[b])]
      ensures Acceptable(old(conns), old(queues), Slot(socket), old(packets)[b]) && rxLength > 0 ==> place[b].Rx?
      ensures forall i :: 0 <= i < count && i != b ==>
                place[i] == old(place)[i] || (old(place)[i].Rx? && place[i] == Free)
    {
      hide Inv, PortsApart, Handles, Secure, Stripped;
      StrippedKeepsId(packets[b]);
      var ok := SecurityCheck(b);
      if !ok {
        BufferFree(Buffer(b));
        return;
      }
      var slot := AcceptConnection(socket, b);
      if slot == NoSlot {
        BufferFree(Buffer(b));
        return;
      }
      ghost var made := conns[slot.c];
      NewPacket(slot.c, b);
      if place[b].Rx? {
        assert [] + [b] == [b] && rx == old(rx)[slot.c := [b]];
        assert conns == old(conns)[slot.c := made.(socket := NoQueue)];
      }
    }

    // Delivery to the connection a packet belongs to, or to a new one.
    method DeliverToConnection(socket: Slot, b: nat)
      requires Valid() && b < count && place[b] == Held && ForMe(packets[b].id)
      requires socket == BoundTo(packets[b].id.dport)
      requires socket.Slot? ==> socket.c < |conns| && packets[b].id.dport < lo && !conns[socket.c].opts.connless
      modifies this`conns, this`lastGiven, this`rx, this`free, this`refcount, this`place, this`packets, this`queues, this`connected
      ensures Valid() && |conns| == |old(conns)|
      ensures place[b] == Free || (place[b].Rx? && place[b].conn < |conns|)
      ensures place[b].Rx? ==> Secure(old(packets)[b]) && Hit(conns[place[b].conn], old(packets)[b].id, ConnMask)
      ensures forall c: nat ::
                (Established(old(conns), c, old(packets)[b].id) && Secure(old(packets)[b])
                 && |old(rx)[c]| < rxLength && RoomFor(old(conns)[c].socket, old(queues))) ==> place[b] == Rx(c)
      ensures Acceptable(old(conns), old(queues), socket, old(packets)[b]) && rxLength > 0 ==> place[b].Rx?
      ensures place[b].Rx? ==> packets == old(packets)[b := Stripped(old(packets)[b])]
      ensures place[b].Rx? && NoneHit(old(conns), old(packets)[b].id) ==>
                socket.Slot? && Served(old(conns), old(rx), old(queues), conns, rx, queues, address, socket.c, old(packets)[b].id, b, place[b].conn)
      ensures place[b].Rx? && !NoneHit(old(conns), old(packets)[b].id) ==>
                && Established(old(conns), place[b].conn, old(packets)[b].id) && place[b].conn < |rx| == |old(rx)|
                && rx == old(rx)[place[b].conn := old(rx)[place[b].conn] + [b]]
      ensures forall i :: 0 <= i < count && i != b ==>
                place[i] == old(place)[i] || (old(place)[i].Rx? && place[i] == Free)
    {
      hide Inv, PortsApart, Handles, Secure, RoomFor, Served, Stripped;
      var slot := FindConn(packets[b].id, ConnMask);
      if slot.Slot? {
        DeliverToExisting(slot.c, b);
      } else if socket.Slot? {
        DeliverToNew(socket.c, b);
      } else {
        BufferFree(Buffer(b));
      }
    }

    // What becomes of the packet csp_route_work has read.
    method Dispatch(iface: nat, b: nat, dstif: Iface)
      requires Valid() && b < count && place[b] == Held
      modifies this`conns, this`lastGiven, this`rx, this`free, this`refcount, this`place, this`fifo, this`packets, this`queues, this`connected
      ensures Valid() && |conns| == |old(conns)| && fifo == old(fifo)
      ensures Disposed(b)
      ensures forall i :: 0 <= i < count && i != b ==> place[i] == old(place)[i] || (old(place)[i].Rx? && place[i] == Free)
      ensures place[b] == Driver <==> !ForMe(old(packets)[b].id) && Forwards(iface, old(packets)[b], dstif)
      ensures place[b].Rx? ==> Deliverable(old(packets)[b]) && Hit(conns[place[b].conn], old(packets)[b].id, ConnMask)
      ensures var id := old(packets)[b].id;
              (id.dst == address || id.dst == 31) && (id.flags.hmac || id.flags.xtea || id.flags.rdp) ==> place[b] == Free
      ensures forall k: nat ::
                place[b] == Socket(k) <==>
                Deliverable(old(packets)[b]) && DirectTo(old(conns), old(queues), old(BoundTo(packets[b].id.dport)), k)
      ensures Deliverable(old(packets)[b]) && Indirect(old(conns), old(BoundTo(packets[b].id.dport))) ==>
                && (forall c: nat ::
                      (Established(old(conns), c, old(packets)[b].id) && |old(rx)[c]| < rxLength
                       && RoomFor(old(conns)[c].socket, old(queues))) ==> place[b] == Rx(c))
                && (Acceptable(old(conns), old(queues), old(BoundTo(packets[b].id.dport)), old(packets)[b]) && rxLength > 0 ==> place[b].Rx?)
      ensures place[b] == Driver ==> packets == old(packets)[b := Outgoing(old(packets)[b].id, old(packets)[b])]
      ensures place[b].Socket? ==>
                && packets == old(packets)[b := Stripped(old(packets)[b])]
                && queues == Posted(old(queues), Handle(place[b].queue), b)
      ensures place[b].Rx? ==>
                && packets == old(packets)[b := Stripped(old(packets)[b])]
                && (NoneHit(old(conns), old(packets)[b].id) ==>
                      var socket := old(BoundTo(packets[b].id.dport));
                      socket.Slot? && Served(old(conns), old(rx), old(queues), conns, rx, queues, address, socket.c, old(packets)[b].id, b, place[b].conn))
                && (!NoneHit(old(conns), old(packets)[b].id) ==>
                      && Established(old(conns), place[b].conn, old(packets)[b].id) && place[b].conn < |rx| == |old(rx)|
                      && rx == old(rx)[place[b].conn := old(rx)[place[b].conn] + [b]])
    {
      hide Served, NoneHit;
      hide Inv, PortsApart, Handles, Secure, Stripped, Outgoing, CanSend, Acceptable, Established;
      if packets[b].id.dst != address && packets[b].id.dst != BROADCAST {
        RouteOut(iface, b, dstif);
        return;
      }
      if !Supported(packets[b].id.flags) {
        BufferFree(Buffer(b));
        return;
      }
      var socket := GetSocket(packets[b].id.dport);
      if socket.Slot? && conns[socket.c].opts.connless {
        DeliverDirect(socket.c, b);
        return;
      }
      DeliverToConnection(socket, b);
    }

    // In one of these places, and no longer in the router's hands.
    ghost predicate Disposed(b: nat)
      requires b < |place|
      reads this
    {
      match place[b]
      case Free => true
      case Driver => true
      case Rx(c) => c < |conns|
      case Socket(k) => k < |queues|
      case _ => false
    }

    predicate Deliverable(p: Packet) {
      ForMe(p.id) && Supported(p.id.flags) && Secure(p)
    }

    // csp_route_work: takes one packet from the FIFO and disposes of it exactly once.  Another
    // packet moves at most to the free queue, when its connection's slot is closed or reused.
    method RouteWork(dstif: Iface) returns (r: int)
      requires Valid()
      modifies this`conns, this`lastGiven, this`rx, this`free, this`refcount, this`place, this`fifo, this`packets, this`queues, this`connected
      ensures Valid() && |conns| == |old(conns)|
      ensures r == (if |old(fifo)| > 0 then 0 else -1)
      ensures r == -1 ==> place == old(place) && conns == old(conns) && fifo == old(fifo)
      ensures r == 0 ==> old(fifo)[0].buf < |old(packets)| && old(fifo)[0].buf < |place|
      ensures r == 0 ==>
                var b, p := old(fifo)[0].buf, old(packets)[old(fifo)[0].buf];
                && b < count && old(place)[b] == Fifo && fifo == old(fifo)[1..] && Disposed(b)
                && (forall i :: 0 <= i < count && i != b ==> place[i] == old(place)[i] || (old(place)[i].Rx? && place[i] == Free))
                && (place[b] == Driver <==> !ForMe(p.id) && Forwards(old(fifo)[0].iface, p, dstif))
                && (place[b].Rx? ==> Deliverable(p) && Hit(conns[place[b].conn], p.id, ConnMask))
                && ((p.id.dst == address || p.id.dst == 31) && (p.id.flags.hmac || p.id.flags.xtea || p.id.flags.rdp) ==> place[b] == Free)
                && (forall k: nat :: place[b] == Socket(k) <==> Deliverable(p) && DirectTo(old(conns), old(queues), old(BoundTo(p.id.dport)), k))
                && (Deliverable(p) && Indirect(old(conns), old(BoundTo(p.id.dport))) ==>
                      && (forall c: nat ::
                            (Established(old(conns), c, p.id) && |old(rx)[c]| < rxLength
                             && RoomFor(old(conns)[c].socket, old(queues))) ==> place[b] == Rx(c))
                      && (Acceptable(old(conns), old(queues), old(BoundTo(p.id.dport)), p) && rxLength > 0 ==> place[b].Rx?))
                && (place[b] == Driver ==> packets == old(packets)[b := Outgoing(p.id, p)])
                && (place[b].Socket? ==>
                      packets == old(packets)[b := Stripped(p)] && queues == Posted(old(queues), Handle(place[b].queue), b))
                && (place[b].Rx? ==>
                      && packets == old(packets)[b := Stripped(p)]
                      && (NoneHit(old(conns), p.id) ==>
                            var socket := old(BoundTo(p.id.dport));
                            socket.Slot? && Served(old(conns), old(rx), old(queues), conns, rx, queues, address, socket.c, p.id, b, place[b].conn))
                      && (!NoneHit(old(conns), p.id) ==>
                            && Established(old(conns), place[b].conn, p.id) && place[b].conn < |rx| == |old(rx)|
                            && rx == old(rx)[place[b].conn := old(rx)[place[b].conn] + [b]]))
    {
      hide Served, NoneHit, Stripped, Secure;
      hide Inv, PortsApart, Handles, Deliverable, Forwards, Acceptable, Established, DirectTo, Indirect;
      var ok, iface, b := QfifoRead();
      if !ok { return -1; }
      Dispatch(iface, b, dstif);
      r := 0;
    }

    // ---------- paths through a node ----------

    // csp_send, for connections without RDP
    method SendOn(c: nat, b: nat, ifout: Iface) returns (ok: bool)
      requires Valid() && c < |conns| && b < count && (place[b] == Held || place[b] == Driver)
      modifies this`free, this`refcount, this`place, this`fifo, this`packets
      ensures Valid()
      ensures ok <==> conns[c].open && CanSend(conns[c].idout, Outgoing(conns[c].idout, old(packets)[b]), ifout)
      ensures ok && ifout.hop == Takes ==>
                && place == old(place)[b := Driver] && fifo == old(fifo) && free == old(free) && |packets| == count
                && packets[b] == Outgoing(conns[c].idout, old(packets)[b])
      ensures !ok ==> place == old(place)
    {
      hide Inv, PortsApart, Handles, Outgoing;
      if !conns[c].open { return false; }
      ok := SendDirect(conns[c].idout, b, ifout);
    }

    // A packet arrives by a driver, which takes a buffer for it and hands it to the router.
    method Arrive(p: Packet, iface: nat) returns (b: nat)
      requires Valid()
      modifies this`free, this`refcount, this`place, this`fifo, this`packets
      ensures Valid()
      ensures |p.payload| <= size && |old(free)| > 0 && |old(fifo)| < fifoLength ==>
                b < |packets| && packets[b] == p && fifo == old(fifo) + [Input(iface, b)]
    {
      hide Inv, PortsApart, Handles;
      b := 0;
      var buffer := BufferGet(|p.payload|);
      if buffer == Null { return; }
      b := buffer.b;
      packets := packets[b := p];
      QfifoWrite(buffer, Slot(iface));
    }

    // A packet with this identifier is for the open socket s, which no packet of the same connection
    // has reached yet, and there is room for a new connection.
    ghost predicate Awaits(s: nat, id: Id)
      requires |ports| == lo + 1
      reads this`conns, this`queues, this`ports
    {
      && rxLength > 0 && s < |conns| && conns[s].open && !conns[s].opts.connless
      && BoundTo(id.dport) == Slot(s) && ForMe(id) && Supported(id.flags)
      && NoneHit(conns, id) && (exists c :: 0 <= c < |conns| && !conns[c].open)
      && conns[s].socket.Handle? && conns[s].socket.queue < |queues|
      && queues[conns[s].socket.queue].items == [] && queues[conns[s].socket.queue].cap > 0
    }

    // The router, csp_accept and csp_read, one after the other, hand the application the packet that
    // was received, its checksum stripped, on a connection that answers to where it came from.
    method Serve(dstif: Iface, s: nat) returns (conn: Slot, p: Pointer)
      requires Valid() && |fifo| > 0 && fifo[0].buf < |packets|
      requires Awaits(s, packets[fifo[0].buf].id) && Secure(packets[fifo[0].buf])
      modifies this`conns, this`lastGiven, this`rx, this`free, this`refcount, this`place, this`fifo, this`packets, this`queues, this`connected
      ensures Valid() && conn.Slot? && conn.c < |conns| && conns[conn.c].open
      ensures var q := old(packets)[old(fifo)[0].buf];
              && p == Buffer(old(fifo)[0].buf) && p.b < |place| && place[p.b] == Held && packets[p.b] == Stripped(q)
              && conns[conn.c].idout == Id(q.id.pri, address, q.id.src, q.id.sport, q.id.dport, q.id.flags)
    {
      hide Inv, PortsApart, Handles, Stripped, Established, Supported, Secure;
      var r := RouteWork(dstif);
      conn := Accept(Slot(s));
      p := Read(conn);
    }

    // The router and csp_read hand the application a packet of a connection that is there already.
    method Collect(dstif: Iface, c: nat) returns (p: Pointer)
      requires Valid() && |fifo| > 0 && fifo[0].buf < |packets| && Deliverable(packets[fifo[0].buf])
      requires Established(conns, c, packets[fifo[0].buf].id) && c < |rx| && rx[c] == [] && rxLength > 0
      requires BoundTo(packets[fifo[0].buf].id.dport) == NoSlot && RoomFor(conns[c].socket, queues)
      modifies this`conns, this`lastGiven, this`rx, this`free, this`refcount, this`place, this`fifo, this`packets, this`queues, this`connected
      ensures Valid() && p == Buffer(old(fifo)[0].buf) && p.b < |place| && place[p.b] == Held && p.b < |packets|
      ensures packets[p.b] == Stripped(old(packets)[p.b])
    {
      hide Inv, PortsApart, Handles, Stripped, Deliverable, RoomFor, Acceptable, Served;
      IsHit(conns, c, packets[fifo[0].buf]);
      hide Established, NoneHit;
      var r := RouteWork(dstif);
      assert [] + [old(fifo)[0].buf] == [old(fifo)[0].buf];
      p := Read(Slot(c));
    }

    // A packet this node sends to itself, by the loopback, arrives.
    method CallSelf(idout: Id, b: nat, ifout: Iface, dstif: Iface, s: nat) returns (conn: Slot, p: Pointer)
      requires Valid() && b < count && (place[b] == Held || place[b] == Driver) && fifo == [] && fifoLength > 0
      requires ifout.Iface? && ifout.hop == Loopback && CanSend(idout, Outgoing(idout, packets[b]), ifout)
      requires idout.src == idout.dst == address && Awaits(s, idout)
      modifies this`conns, this`lastGiven, this`rx, this`free, this`refcount, this`place, this`fifo, this`packets, this`queues, this`connected
      ensures Valid() && conn.Slot? && conn.c < |conns| && p == Buffer(b) && place[b] == Held
      ensures packets[b] == Packet(idout, old(packets)[b].payload)
      ensures conns[conn.c].idout == Id(idout.pri, address, address, idout.sport, idout.dport, idout.flags)
    {
      hide Inv, PortsApart, Handles, Outgoing, CanSend, Stripped, Secure, Awaits;
      OutgoingArrives(idout, packets[b]);
      var ok := SendDirect(idout, b, ifout);
      conn, p := Serve(dstif, s);
    }

    // What a node sends under its own address passes the receiver's check, and comes out as it was.
    lemma OutgoingArrives(idout: Id, p: Packet)
      requires idout.src == address
      ensures Outgoing(idout, p).id == idout
      ensures Secure(Outgoing(idout, p)) && Stripped(Outgoing(idout, p)) == Packet(idout, p.payload)
    {
      Crc32.AppendedIsAccepted([], p.payload);
      hide Crc32.Accepts, Crc32.Reference, Crc32.Trailer;
      var t := Crc32.Trailer(Crc32.Reference(p.payload));
      assert (p.payload + t)[..|p.payload|] == p.payload;
      assert [] + p.payload == p.payload;
    }

    // ---------- runs ----------

    // In the hands of the application, the router or a driver: in none of the queues.
    predicate Outside(b: nat)
      reads this
    {
      && b < count && b !in free
      && (forall i :: 0 <= i < |fifo| ==> fifo[i].buf != b)
      && (forall c :: 0 <= c < |rx| ==> b !in rx[c])
      && (forall k :: 0 <= k < |queues| && queues[k].Packets? ==> b !in queues[k].items)
    }

    lemma OutsideIsHeld(b: nat)
      requires Buffers() && b < count
      ensures Outside(b) <==> place[b] == Held || place[b] == Driver
      ensures b in free <==> place[b] == Free
    {
      var m := M();
      FreeIffUncounted(m, place, b);
      assert IsQueue(m, Free) && IsQueue(m, Fifo);
      hide Inv;
      if forall w :: IsQueue(m, w) ==> b !in Contents(m, w) {
        assert b !in Contents(m, Free) && b !in Contents(m, Fifo);
        forall i | 0 <= i < |fifo| ensures fifo[i].buf != b { assert Bufs(fifo)[i] == fifo[i].buf; }
        forall c | 0 <= c < |rx| ensures b !in rx[c] { assert IsQueue(m, Rx(c)); }
        forall k | 0 <= k < |queues| && queues[k].Packets? ensures b !in queues[k].items { assert IsQueue(m, Socket(k)); }
      }
    }

    // A call may be made where the caller has the packet it passes, as a caller of the library
    // has to, and where csp_connect's search comes to an end.
    predicate Permitted(call: Call)
      reads this
    {
      match call
      case Release(p) => p.Buffer? ==> p.b in free || Outside(p.b)
      case CloneBuffer(b) => b < count && b !in free
      case Receive(p, iface) => !p.Wild? && (p.Buffer? ==> Outside(p.b))
      case Send(idout, b, ifout) => Outside(b)
      case OpenConnection(prio, dest, dport, opts) => !opts.connless && (sport != lo || SomeUnused(conns, lo))
      case CloseConnection(c) => c < |conns|
      case StartListening(s, length) => s.Slot? ==> s.c < |conns| && !conns[s.c].opts.connless
      case BindSocket(s, port) => s.Slot? ==> s.c < |conns|
      case AcceptNext(s) => s.Slot? ==> s.c < |conns| && !conns[s.c].opts.connless
      case ReadNext(c) => c.Slot? ==> c.c < |conns|
      case RecvNext(s) => s.Slot? ==> s.c < |conns|
      case _ => true
    }

    lemma PermittedIsHeld(call: Call)
      requires Buffers() && Permitted(call)
      ensures match call
              case Release(p) => p.Buffer? ==> p.b < count && (place[p.b] == Held || place[p.b] == Driver || place[p.b] == Free)
              case CloneBuffer(b) => b < count && place[b] != Free
              case Receive(p, iface) => p.Buffer? ==> p.b < count && (place[p.b] == Held || place[p.b] == Driver)
              case Send(idout, b, ifout) => b < count && (place[b] == Held || place[b] == Driver)
              case OpenConnection(prio, dest, dport, opts) => sport != lo || exists p :: lo <= p <= PORT_MAX && !Used(conns, p)
              case _ => true
    {
      match call
      case Release(p) => if p.Buffer? { InFree(p.b); OutsideIsHeld(p.b); }
      case CloneBuffer(b) => OutsideIsHeld(b);
      case Receive(p, iface) => if p.Buffer? { OutsideIsHeld(p.b); }
      case Send(idout, b, ifout) => OutsideIsHeld(b);
      case _ =>
    }

    lemma InFree(b: nat)
      requires Buffers()
      ensures b in free ==> b < count
    {
      assert IsQueue(M(), Free);
    }

    method Do(call: Call)
      requires Valid() && Permitted(call)
      modifies this
      ensures Valid()
    {
      hide Inv, PortsApart, Handles, Outside, SomeUnused, Used;
      PermittedIsHeld(call);
      match call
      case GetBuffer(n) => var _ := BufferGet(n);
      case Release(p) => BufferFree(p);
      case CloneBuffer(b) => var _ := BufferClone(Buffer(b));
      case Receive(p, iface) => QfifoWrite(p, iface);
      case RouteOne(dstif) => var _ := RouteWork(dstif);
      case Send(idout, b, ifout) => var _ := SendDirect(idout, b, ifout);
      case OpenConnection(prio, dest, dport, opts) => var _ := Connect(prio, dest, dport, opts);
      case CloseConnection(c) => Close(c);
      case NewSocket(opts) => var _ := CreateSocket(opts);
      case StartListening(s, length) => var _ := Listen(s, length);
      case BindSocket(s, port) => var _ := Bind(s, port);
      case AcceptNext(s) => var _ := Accept(s);
      case ReadNext(c) => var _ := Read(c);
      case RecvNext(s) => var _ := RecvFrom(s);
    }

    // Any sequence of calls, of which those that are not permitted are left out: afterwards each
    // buffer is in one place, with a count of 0 exactly in the free queue, and no two client
    // connections that csp_connect made receive on the same port.
    method Run(calls: seq<Call>)
      requires Valid()
      modifies this
      ensures Valid() && Inv(M(), place)
      ensures forall b :: 0 <= b < count ==> (refcount[b] == 0 <==> b in free) && (Outside(b) <==> place[b] == Held || place[b] == Driver)
      ensures forall c, d :: 0 <= c < d < |conns| && Client(conns[c], lo) && Client(conns[d], lo) ==> conns[c].idin.dport != conns[d].idin.dport
    {
      hide Inv, PortsApart, Handles, Permitted, Outside, Client;
      for i := 0 to |calls|
        invariant Valid()
      {
        if Permitted(calls[i]) { Do(calls[i]); }
      }
      OnePlaceEach();
      ClientsApart(conns, connected, lo);
    }

    lemma OnePlaceEach()
      requires Buffers()
      ensures |refcount| == |place| == count
      ensures forall b :: 0 <= b < count ==> (refcount[b] == 0 <==> b in free) && (Outside(b) <==> place[b] == Held || place[b] == Driver)
    {
      forall b | 0 <= b < count
        ensures (refcount[b] == 0 <==> b in free) && (Outside(b) <==> place[b] == Held || place[b] == Driver)
      {
        FreeIffUncounted(M(), place, b);
        OutsideIsHeld(b);
      }
    }
  }

  // An open connection of csp_connect's: those of the router receive below the ephemeral ports.
  predicate Client(conn: Conn, lo: nat) {
    conn.open && !conn.server && lo <= conn.idin.dport
  }

  lemma ClientsApart(conns: seq<Conn>, connected: set<nat>, lo: nat)
    requires PortsApart(conns, connected, lo)
    ensures forall c, d :: 0 <= c < d < |conns| && Client(conns[c], lo) && Client(conns[d], lo) ==> conns[c].idin.dport != conns[d].idin.dport
  {
  }

  // From initialisation on.
  method RunFromStart(address: nat, count: nat, size: nat, fifoLength: nat, rxLength: nat, queueLength: nat, connMax: nat,
                      maxBind: nat, seed: nat, blank: Packet, calls: seq<Call>) returns (node: Node)
    requires connMax > 0 && maxBind < PORT_MAX
    ensures fresh(node) && node.Valid() && node.count == count && node.lo == maxBind + 1
    ensures Inv(node.M(), node.place)
    ensures forall c, d :: 0 <= c < d < |node.conns| && Client(node.conns[c], node.lo) && Client(node.conns[d], node.lo) ==>
              node.conns[c].idin.dport != node.conns[d].idin.dport
  {
    hide Inv, Client;
    node := new Node(address, count, size, fifoLength, rxLength, queueLength, connMax, maxBind, seed, blank);
    node.Run(calls);
  }

  predicate Supported(flags: Flags) {
    !flags.xtea && !flags.hmac && !flags.rdp
  }

  predicate Secure(p: Packet) {
    p.id.flags.crc32 ==> Crc32.Accepts([], p.payload)
  }

  function Stripped(p: Packet): Packet
    requires Secure(p)
  {
    if p.id.flags.crc32 then p.(payload := p.payload[..|p.payload| - 4]) else p
  }

  lemma StrippedKeepsId(p: Packet)
    ensures Secure(p) ==> Stripped(p).id == p.id
  {
  }

  // The first open client connection with a packet's identifiers.
  ghost predicate Established(conns: seq<Conn>, c: nat, id: Id) {
    c < |conns| && Hit(conns[c], id, ConnMask) && forall d :: 0 <= d < c ==> !Hit(conns[d], id, ConnMask)
  }

  ghost predicate NoneHit(conns: seq<Conn>, id: Id) {
    forall c :: 0 <= c < |conns| ==> !Hit(conns[c], id, ConnMask)
  }

  lemma IsHit(conns: seq<Conn>, c: nat, p: Packet)
    requires Established(conns, c, p.id)
    ensures c < |conns| && !NoneHit(conns, p.id)
  {
  }

  // Slot c, which was closed, holds a new connection for the packet in buffer b: its identifiers
  // are the packet's and, with the two ends exchanged, those of an answer from `address`; the packet
  // is the first it receives, and it is the next the open socket s can accept.
  ghost predicate Served(conns: seq<Conn>, rx: seq<seq<nat>>, queues: seq<Queue>,
                         conns': seq<Conn>, rx': seq<seq<nat>>, queues': seq<Queue>, address: nat, s: nat, id: Id, b: nat, c: nat) {
    && c < |conns| == |conns'| == |rx| && s < |conns| && !conns[c].open
    && conns' == conns[c := conns'[c]] && rx' == rx[c := [b]]
    && conns'[c].open && !conns'[c].server && conns'[c].idin == id
    && conns'[c].idout == Id(id.pri, address, id.src, id.sport, id.dport, id.flags)
    && (conns[s].open ==> queues' == Posted(queues, conns[s].socket, c))
  }

  // A queue with room, or none to post to.
  predicate RoomFor(handle: Handle, queues: seq<Queue>) {
    handle.Handle? ==> handle.queue < |queues| && |queues[handle.queue].items| < queues[handle.queue].cap
  }

  // A connection, or a packet, at the end of a socket's queue, for csp_accept or csp_recvfrom.
  function Posted(queues: seq<Queue>, handle: Handle, item: nat): seq<Queue> {
    if handle.Handle? && handle.queue < |queues| then
      var q := queues[handle.queue];
      queues[handle.queue := q.(items := q.items + [item])]
    else queues
  }

  // The bound socket is connection-less and queue k, its own, has room.
  predicate DirectTo(conns: seq<Conn>, queues: seq<Queue>, socket: Slot, k: nat) {
    && socket.Slot? && socket.c < |conns| && conns[socket.c].opts.connless && conns[socket.c].socket == Handle(k)
    && RoomFor(Handle(k), queues)
  }

  // No connection-less socket is bound.
  predicate Indirect(conns: seq<Conn>, socket: Slot) {
    socket.Slot? ==> socket.c < |conns| && !conns[socket.c].opts.connless
  }

  // A packet of no connection yet, to a bound socket with room for one more, and a closed slot.
  ghost predicate Acceptable(conns: seq<Conn>, queues: seq<Queue>, socket: Slot, p: Packet) {
    && socket.Slot? && socket.c < |conns| && Secure(p) && RoomFor(conns[socket.c].socket, queues)
    && (forall c :: 0 <= c < |conns| ==> !Hit(conns[c], p.id, ConnMask))
    && (exists c :: 0 <= c < |conns| && !conns[c].open)
  }

  lemma SocketFits(conns: seq<Conn>, queues: seq<Queue>, s: nat, conn: Conn)
    requires Handles(conns, queues) && s < |conns| && !conns[s].opts.connless && conn.opts == conns[s].opts
    requires conn.socket == conns[s].socket || conn.socket == NoQueue
    ensures HandleFits(conn, queues)
  {
    assert HandleFits(conns[s], queues);
  }

  // The ports the search has met when it stands at sport.
  predicate Behind(start: nat, p: nat, sport: nat, lo: nat) {
    if sport > start then start < p < sport else p > start || p < sport
  }

  function Next(i: nat, n: nat): (r: nat)
    requires n > 0
    ensures r < n
  {
    (i + 1) % n
  }

  // The slot j steps behind the first, in a table of n slots.
  function Around(first: nat, j: nat, n: nat): int {
    if first + j < n then first + j else first + j - n
  }

  // The slots of the first j steps.
  predicate Passed(first: nat, j: nat, c: nat, n: nat) {
    (first <= c && c - first < j) || (c < first && c + n - first < j)
  }

  // c is the first closed slot behind the one given out last.
  ghost predicate FirstClosed(conns: seq<Conn>, last: nat, c: nat)
    requires |conns| > 0
  {
    exists j: nat ::
      && j < |conns| && c == Around(Next(last, |conns|), j, |conns|)
      && forall d :: 0 <= d < |conns| && Passed(Next(last, |conns|), j, d, |conns|) ==> conns[d].open
  }

  lemma NextAround(i: nat, n: nat)
    requires i < n
    ensures Next(i, n) == if i + 1 == n then 0 else i + 1
  {
  }
}
