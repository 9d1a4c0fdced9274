/**
 SFP: cutting a message into fragments with an offset and a total size behind each,
 and putting it together again from whatever fragments arrive.
 */
module Sfp {
  import opened Bytes

  datatype Fragment = Fragment(offset: nat, total: nat, payload: bytes)

  // A packet as csp_read returns it: whether CSP_FFRAG is set, and its contents.
  datatype Packet = Packet(ffrag: bool, data: bytes)

  // ---------- the header behind the payload ----------

  function Encode(f: Fragment): (p: Packet)
    ensures p.ffrag && |p.data| == |f.payload| + 8
  {
    Packet(true, f.payload + ToBE(f.offset, 4) + ToBE(f.total, 4))
  }

  function Decode(data: bytes): (f: Fragment)
    requires |data| >= 8
    ensures |f.payload| == |data| - 8
  {
    var n := |data| - 8;
    Fragment(FromBE(data[n..n + 4]), FromBE(data[n + 4..]), data[..n])
  }

  lemma DecodeUndoesEncode(f: Fragment)
    requires f.offset <= UINT32_MAX && f.total <= UINT32_MAX
    ensures Decode(Encode(f).data) == f
  {
    Pow256Values();
    FromToBE(f.offset, 4);
    FromToBE(f.total, 4);
    var d, n := Encode(f).data, |f.payload|;
    assert d[..n] == f.payload && d[n..n + 4] == ToBE(f.offset, 4) && d[n + 4..] == ToBE(f.total, 4);
  }

  // The header in octets: offset and total behind the payload, each the most significant first.
  lemma HeaderOctets(f: Fragment)
    requires f.offset <= 0xFFFF_FFFF && f.total <= 0xFFFF_FFFF
    ensures var d, n := Encode(f).data, |f.payload|;
            && d[..n] == f.payload && |d| == n + 8
            && d[n] as int * 0x100_0000 + d[n + 1] as int * 0x1_0000 + d[n + 2] as int * 0x100 + d[n + 3] == f.offset
            && d[n + 4] as int * 0x100_0000 + d[n + 5] as int * 0x1_0000 + d[n + 6] as int * 0x100 + d[n + 7] == f.total
  {
    Pow256Values();
    FromToBE(f.offset, 4);
    FromToBE(f.total, 4);
    PlaceValues(ToBE(f.offset, 4));
    PlaceValues(ToBE(f.total, 4));
    hide ToBE, FromBE;
  }

  // ---------- sending ----------

  function Min(a: nat, b: nat): nat { if a < b then a else b }

  // The fragment that starts at `offset`.
  function FragmentAt(data: bytes, mtu: nat, offset: nat): (f: Fragment)
    requires offset < |data|
  {
    Fragment(offset, |data|, data[offset..Min(offset + mtu, |data|)])
  }

  // The fragments of data from `offset` on.
  function Fragments(data: bytes, mtu: nat, offset: nat): (fs: seq<Fragment>)
    requires mtu > 0
    ensures offset >= |data| <==> fs == []
    decreases |data| - offset
  {
    if offset >= |data| then [] else [FragmentAt(data, mtu, offset)] + Fragments(data, mtu, offset + mtu)
  }

  function EncodeAll(fs: seq<Fragment>): (ps: seq<Packet>)
    ensures |ps| == |fs|
    ensures forall i :: 0 <= i < |fs| ==> ps[i] == Encode(fs[i])
  {
    if |fs| == 0 then [] else [Encode(fs[0])] + EncodeAll(fs[1..])
  }

  lemma EncodeNext(data: bytes, mtu: nat, count: nat)
    requires mtu > 0 && count < |data|
    ensures EncodeAll(Fragments(data, mtu, count)) ==
            [Encode(FragmentAt(data, mtu, count))] + EncodeAll(Fragments(data, mtu, Min(count + mtu, |data|)))
  {
    hide Encode, FragmentAt;
    assert Fragments(data, mtu, count)[1..] == Fragments(data, mtu, count + mtu);
  }

  // csp_sfp_send_own_memcpy, when a packet can be allocated and sent `accepts` times before
  // the first failure: the fragments up to there have gone out.  With an mtu of 0 nothing but
  // empty fragments go out until one cannot be sent.
  method Send(data: bytes, mtu: nat, accepts: nat) returns (rc: int, sent: seq<Packet>)
    requires |data| <= INT32_MAX
    ensures mtu > 0 ==>
              var all := EncodeAll(Fragments(data, mtu, 0));
              sent == all[..Min(accepts, |all|)] && rc == if accepts >= |all| then 0 else -1
    ensures mtu == 0 ==>
              && rc == (if |data| == 0 then 0 else -1) && |sent| == (if |data| == 0 then 0 else accepts)
              && forall p :: p in sent ==> p == Encode(Fragment(0, |data|, []))
  {
    hide EncodeAll, Fragments, Encode;
    var count := 0;
    sent := [];
    while count < |data|
      invariant count <= |data| && |sent| <= accepts && (mtu == 0 ==> count == 0) && (|data| == 0 ==> sent == [])
      invariant mtu > 0 ==> sent + EncodeAll(Fragments(data, mtu, count)) == EncodeAll(Fragments(data, mtu, 0))
      invariant mtu == 0 ==> forall p :: p in sent ==> p == Encode(Fragment(0, |data|, []))
      decreases |data| - count, accepts - |sent|
    {
      if mtu > 0 { EncodeNext(data, mtu, count); }
      if |sent| == accepts { return -1, sent; }
      var size := |data| - count;
      if size > mtu { size := mtu; }
      var packet := Encode(Fragment(count, |data|, data[count..count + size]));
      assert mtu == 0 ==> data[count..count + size] == [];
      sent := sent + [packet];
      count := count + size;
    }
    if mtu > 0 { NoFragmentsLeft(data, mtu); }
    rc := 0;
  }

  lemma NoFragmentsLeft(data: bytes, mtu: nat)
    requires mtu > 0
    ensures Fragments(data, mtu, |data|) == [] && EncodeAll(Fragments(data, mtu, |data|)) == []
  {
  }

  lemma {:induction false} OneOctetAtLeast(data: bytes, mtu: nat, offset: nat)
    requires mtu > 0
    ensures |Fragments(data, mtu, offset)| <= (if offset < |data| then |data| - offset else 0)
    decreases |data| - offset
  {
    if offset < |data| { OneOctetAtLeast(data, mtu, offset + mtu); }
  }

  // ---------- receiving ----------

  // A packet the channel can deliver for this message: one of its fragments, or something else
  // without the fragment flag.
  ghost predicate OfMessage(data: bytes, mtu: nat, p: Packet) {
    p.ffrag ==> exists i: nat :: IsFragment(data, mtu, i, p)
  }

  ghost predicate IsFragment(data: bytes, mtu: nat, i: nat, p: Packet) {
    i * mtu < |data| && p == Encode(FragmentAt(data, mtu, i * mtu))
  }

  // The header of a fragment describes a piece of a message of n octets.
  predicate InBounds(p: Packet, n: nat) {
    p.ffrag ==>
      && |p.data| >= 8
      && var f := Decode(p.data);
         f.total == n && f.offset + |f.payload| <= n
  }

  datatype Outcome = Outcome(done: bool, buf: bytes, read: nat)

  // The loop of csp_sfp_recv_fp over the packets the connection will deliver: the fragment after
  // the last one may start one octet late.
  function Receive(buf: bytes, last: nat, trace: seq<Packet>): (r: Outcome)
    requires forall p :: p in trace ==> InBounds(p, |buf|)
    ensures |r.buf| == |buf| && r.read <= |trace|
    decreases |trace|
  {
    if |trace| == 0 then Outcome(false, buf, 0)
    else if !trace[0].ffrag then Outcome(false, buf, 1)
    else
      assert InBounds(trace[0], |buf|) by { assert trace[0] in trace; }
      var f := Decode(trace[0].data);
      if f.offset > last + 1 then Outcome(false, buf, 1)
      else
        var buf' := Overwrite(buf, f.offset, f.payload);
        if f.offset + |f.payload| >= f.total then Outcome(true, buf', 1)
        else
          var r := Receive(buf', f.offset + |f.payload|, trace[1..]);
          r.(read := r.read + 1)
  }

  lemma ReceiveNext(buf: bytes, last: nat, trace: seq<Packet>)
    requires |trace| > 0 && forall p :: p in trace ==> InBounds(p, |buf|)
    ensures trace[0] in trace
    ensures var p, r := trace[0], Receive(buf, last, trace);
            if !p.ffrag || Decode(p.data).offset > last + 1 then r == Outcome(false, buf, 1)
            else
              var f := Decode(p.data);
              var buf' := Overwrite(buf, f.offset, f.payload);
              if f.offset + |f.payload| >= f.total then r == Outcome(true, buf', 1)
              else
                var r' := Receive(buf', f.offset + |f.payload|, trace[1..]);
                r == r'.(read := r'.read + 1)
  {
    hide Decode, Overwrite;
  }

  // A first fragment is stored.
  predicate Starts(trace: seq<Packet>, memory: bool) {
    |trace| > 0 && trace[0].ffrag && |trace[0].data| >= 8 && Decode(trace[0].data).offset <= 1 && memory
  }

  // csp_sfp_recv_fp over the packets the connection delivers before it times out (a first packet
  // handed in by the caller is the first of them).  *dataout is allocated when it is null, and
  // *datasize is the length of the message once a fragment has been stored.
  method Recv(trace: seq<Packet>, dataout: array?<byte>, datasize: nat, canAlloc: bool, n: nat)
    returns (rc: int, out: array?<byte>, size: nat, freed: nat, ghost fill: bytes)
    requires forall p :: p in trace ==> InBounds(p, n)
    requires dataout != null ==> dataout.Length == n
    modifies dataout
    ensures |fill| == n && (dataout != null ==> fill == old(dataout[..]))
    ensures dataout != null || canAlloc ==>
              var r := Receive(fill, 0, trace);
              && rc == (if r.done then 0 else -1)
              && (r.done ==> out != null) && (out != null ==> out.Length == n && out[..] == r.buf)
              && freed == (if r.read > 0 && !trace[r.read - 1].ffrag then r.read - 1 else r.read)
    ensures dataout == null && !canAlloc ==> rc == -1 && out == null
    ensures size == if Starts(trace, dataout != null || canAlloc) then n else datasize
    ensures rc == 0 ==> size == n
  {
    hide Decode, Overwrite, Receive;
    var lastByte: nat := 0;
    out, size, freed, rc := dataout, datasize, 0, -1;
    fill := if dataout != null then dataout[..] else seq(n, _ => 0);
    ghost var buf := fill;
    var i := 0;
    while i < |trace|
      invariant 0 <= i <= |trace| && freed == i && (i == 0 ==> lastByte == 0) && (i > 0 ==> trace[i - 1].ffrag) && |buf| == n && |fill| == n
      invariant dataout != null ==> out == dataout && fill == old(dataout[..])
      invariant dataout == null && !canAlloc ==> out == null
      invariant if out != null then out.Length == n && out[..] == buf && (dataout == null ==> fresh(out)) else buf == fill && i == 0
      invariant var r := Receive(buf, lastByte, trace[i..]);
                Receive(fill, 0, trace) == r.(read := r.read + i)
      invariant size == (if i > 0 then n else datasize) && (i > 0 ==> Starts(trace, dataout != null || canAlloc))
    {
      var packet := trace[i];
      assert trace[i..][1..] == trace[i + 1..];
      ReceiveNext(buf, lastByte, trace[i..]);
      // check that the SFP header is present
      if !packet.ffrag { return; }
      // read the SFP header
      ghost var last := lastByte;
      var f := Decode(packet.data);
      if f.offset > lastByte + 1 {
        freed := freed + 1;
        return;
      } else {
        lastByte := f.offset + |f.payload|;
      }
      // allocate memory
      if out == null && canAlloc {
        out := new byte[n];
        fill := out[..];
        buf := fill;
        assert trace[0..] == trace;
      }
      if out == null {
        freed := freed + 1;
        return;
      }
      ReceiveNext(buf, last, trace[i..]);
      // copy data to output
      size := f.total;
      forall k | 0 <= k < |f.payload| { out[f.offset + k] := f.payload[k]; }
      CopiedIn(buf, out[..], f.offset, f.payload);
      buf := out[..];
      freed := freed + 1;
      if f.offset + |f.payload| >= f.total { return 0, out, size, freed, fill; }
      i := i + 1;
    }
    ReceiveNothing(buf, lastByte);
  }

  lemma ReceiveNothing(buf: bytes, last: nat)
    ensures Receive(buf, last, []) == Outcome(false, buf, 0)
  {
  }

  lemma CopiedIn(s: bytes, r: bytes, at: nat, w: bytes)
    requires at + |w| <= |s| == |r|
    requires forall k :: 0 <= k < |s| ==> r[k] == if at <= k < at + |w| then w[k - at] else s[k]
    ensures r == Overwrite(s, at, w)
  {
  }

  // ---------- what reception guarantees ----------

  ghost predicate AllOfMessage(data: bytes, mtu: nat, trace: seq<Packet>) {
    forall p :: p in trace ==> OfMessage(data, mtu, p)
  }

  // Every fragment from number m on is in the trace.
  ghost predicate Holds(data: bytes, mtu: nat, m: nat, trace: seq<Packet>) {
    forall i: nat :: m <= i && i * mtu < |data| ==> Encode(FragmentAt(data, mtu, i * mtu)) in trace
  }

  lemma FragmentInBounds(data: bytes, mtu: nat, p: Packet)
    requires |data| <= INT32_MAX && OfMessage(data, mtu, p)
    ensures InBounds(p, |data|)
  {
    if p.ffrag {
      var i: nat :| IsFragment(data, mtu, i, p);
      DecodeUndoesEncode(FragmentAt(data, mtu, i * mtu));
    }
  }

  lemma TraceInBounds(data: bytes, mtu: nat, trace: seq<Packet>)
    requires |data| <= INT32_MAX && AllOfMessage(data, mtu, trace)
    ensures forall p :: p in trace ==> InBounds(p, |data|)
  {
    forall p | p in trace ensures InBounds(p, |data|) { FragmentInBounds(data, mtu, p); }
  }

  lemma LaterFragment(i: nat, m: nat, mtu: nat)
    ensures i > m ==> i * mtu >= m * mtu + mtu
    ensures i < m ==> i * mtu + mtu <= m * mtu
    ensures (m + 1) * mtu == m * mtu + mtu
  {
    if i > m { Monotone(m + 1, i, mtu); }
    if i < m { Monotone(i + 1, m, mtu); }
  }

  lemma Monotone(a: nat, b: nat, c: nat)
    requires a <= b
    ensures a * c <= b * c
  {
  }

  lemma OverwriteHeld(data: bytes, buf: bytes, at: nat, w: bytes, k: nat)
    requires |buf| == |data| && k <= |data| && buf[..k] == data[..k]
    requires at + |w| <= |data| && w == data[at..at + |w|] && at <= k
    ensures var r := Overwrite(buf, at, w);
            && (at + |w| <= k ==> r[..k] == data[..k])
            && (at + |w| >= k ==> r[..at + |w|] == data[..at + |w|])
  {
    var r := Overwrite(buf, at, w);
    assert forall j :: 0 <= j < k ==> buf[j] == buf[..k][j] == data[..k][j] == data[j];
    assert forall j :: 0 <= j < |w| ==> w[j] == data[at + j];
    assert forall j :: 0 <= j < at + |w| ==> r[j] == data[j];
  }

  // The fragment accepted next is one already held, which changes nothing, or the first one
  // missing, which extends what is held.
  lemma AcceptedFragment(data: bytes, mtu: nat, buf: bytes, last: nat, m: nat, i: nat)
    requires mtu >= 2 || (|data| <= 1 && mtu > 0)
    requires |buf| == |data| && m * mtu < |data| && buf[..m * mtu] == data[..m * mtu] && last <= m * mtu
    requires i * mtu < |data| && i * mtu <= last + 1
    ensures var f := FragmentAt(data, mtu, i * mtu);
            var end, buf' := f.offset + |f.payload|, Overwrite(buf, f.offset, f.payload);
            if i < m then buf'[..m * mtu] == data[..m * mtu] && end <= m * mtu
            else i == m && end == Min(m * mtu + mtu, |data|) && buf'[..end] == data[..end]
  {
    LaterFragment(i, m, mtu);
    if mtu == 1 { assert i * mtu == i && m * mtu == m; }
    assert i <= m;
    var f := FragmentAt(data, mtu, i * mtu);
    OverwriteHeld(data, buf, f.offset, f.payload, m * mtu);
  }

  // With fragments of two octets or more, reception completes only when no fragment is missing,
  // and the output is then the message, whatever the memory held before.  m counts the leading
  // fragments already held, which end at k.
  lemma {:induction false} Reassembles(data: bytes, mtu: nat, buf: bytes, last: nat, m: nat, k: nat, trace: seq<Packet>)
    requires mtu >= 2 || (|data| <= 1 && mtu > 0)
    requires |data| <= INT32_MAX && AllOfMessage(data, mtu, trace) && |buf| == |data|
    requires k == m * mtu < |data| && buf[..k] == data[..k] && last <= k
    requires forall p :: p in trace ==> InBounds(p, |buf|)
    ensures Receive(buf, last, trace).done ==> Receive(buf, last, trace).buf == data && Holds(data, mtu, m, trace)
    decreases |trace|
  {
    hide OfMessage, AllOfMessage, InBounds, Overwrite, Decode, Encode, Holds;
    if |trace| > 0 && trace[0].ffrag {
      ReceiveNext(buf, last, trace);
      hide Receive;
      var i := FirstFragment(data, mtu, trace);
      var f := FragmentAt(data, mtu, i * mtu);
      if f.offset <= last + 1 {
        AcceptedFragment(data, mtu, buf, last, m, i);
        var end, buf' := f.offset + |f.payload|, Overwrite(buf, f.offset, f.payload);
        if i >= m { LastOrNext(data, mtu, m, k, trace); }
        hide FragmentAt;
        if i < m {
          HoldsMore(data, mtu, m, trace);
          Reassembles(data, mtu, buf', end, m, k, trace[1..]);
        } else if end < |data| {
          LaterFragment(m, m, mtu);
          Reassembles(data, mtu, buf', end, m + 1, end, trace[1..]);
        } else {
          assert buf' == buf'[..end] == data;
        }
      }
    }
  }

  lemma FirstFragment(data: bytes, mtu: nat, trace: seq<Packet>) returns (i: nat)
    requires |data| <= INT32_MAX && AllOfMessage(data, mtu, trace) && |trace| > 0 && trace[0].ffrag
    ensures i * mtu < |data| && trace[0] == Encode(FragmentAt(data, mtu, i * mtu))
    ensures Decode(trace[0].data) == FragmentAt(data, mtu, i * mtu)
    ensures AllOfMessage(data, mtu, trace[1..])
  {
    assert OfMessage(data, mtu, trace[0]);
    i :| IsFragment(data, mtu, i, trace[0]);
    DecodeUndoesEncode(FragmentAt(data, mtu, i * mtu));
  }

  lemma HoldsMore(data: bytes, mtu: nat, m: nat, trace: seq<Packet>)
    requires |trace| > 0
    ensures Holds(data, mtu, m, trace[1..]) ==> Holds(data, mtu, m, trace)
  {
  }

  lemma LastOrNext(data: bytes, mtu: nat, m: nat, k: nat, trace: seq<Packet>)
    requires mtu > 0 && k == m * mtu < |data| && |trace| > 0 && trace[0] == Encode(FragmentAt(data, mtu, k))
    ensures k + mtu >= |data| ==> Holds(data, mtu, m, trace)
    ensures Holds(data, mtu, m + 1, trace[1..]) ==> Holds(data, mtu, m, trace)
  {
    hide Encode, FragmentAt;
    assert trace[0] in trace;
    if k + mtu >= |data| {
      forall i: nat | m <= i && i * mtu < |data| ensures Encode(FragmentAt(data, mtu, i * mtu)) in trace {
        LaterFragment(i, m, mtu);
      }
    }
  }

  // ---------- the two sides together ----------

  // Fragments that arrive in order, from one the receiver will take, always complete the message.
  lemma {:induction false} InOrderCompletes(data: bytes, mtu: nat, buf: bytes, last: nat, at: nat, rest: seq<Packet>)
    requires mtu > 0 && at < |data| <= INT32_MAX && at <= last + 1 && |buf| == |data|
    requires forall p :: p in EncodeAll(Fragments(data, mtu, at)) + rest ==> InBounds(p, |buf|)
    ensures Receive(buf, last, EncodeAll(Fragments(data, mtu, at)) + rest).done
    ensures Receive(buf, last, EncodeAll(Fragments(data, mtu, at)) + rest).buf == buf[..at] + data[at..]
    decreases |data| - at
  {
    hide EncodeAll, Fragments, Encode, Decode, InBounds, Overwrite;
    var trace := EncodeAll(Fragments(data, mtu, at)) + rest;
    var f, next := FragmentAt(data, mtu, at), Min(at + mtu, |data|);
    EncodeNext(data, mtu, at);
    DecodeUndoesEncode(f);
    assert trace[0] == Encode(f) && trace[1..] == EncodeAll(Fragments(data, mtu, next)) + rest;
    ReceiveNext(buf, last, trace);
    hide Receive;
    var buf' := Overwrite(buf, at, f.payload);
    OverwriteInOrder(data, buf, at, next, f.payload);
    if next < |data| {
      InOrderCompletes(data, mtu, buf', next, next, rest);
    }
  }

  lemma OverwriteInOrder(data: bytes, buf: bytes, at: nat, next: nat, w: bytes)
    requires at <= next <= |data| == |buf| && w == data[at..next]
    ensures var buf' := Overwrite(buf, at, w);
            buf'[..next] + data[next..] == buf[..at] + data[at..] && (next == |data| ==> buf' == buf[..at] + data[at..])
  {
  }

  // The channel may lose, repeat and reorder fragments: reception is sound when it never
  // completes with anything but the message.
  ghost predicate Sound(data: bytes, mtu: nat) {
    forall buf: bytes, trace: seq<Packet> ::
      |buf| == |data| && AllOfMessage(data, mtu, trace) && (forall p :: p in trace ==> InBounds(p, |buf|)) && Receive(buf, 0, trace).done
      ==> Receive(buf, 0, trace).buf == data && Holds(data, mtu, 0, trace)
  }

  lemma FragmentsAreOfMessage(data: bytes, mtu: nat, i: nat)
    requires mtu > 0 && |data| <= INT32_MAX
    ensures AllOfMessage(data, mtu, EncodeAll(Fragments(data, mtu, i * mtu)))
    decreases |data| - i * mtu
  {
    if i * mtu < |data| {
      var ps := EncodeAll(Fragments(data, mtu, i * mtu));
      LaterFragment(i, i, mtu);
      FragmentsAreOfMessage(data, mtu, i + 1);
      hide Encode, FragmentAt;
      assert ps[0] == Encode(FragmentAt(data, mtu, i * mtu)) by { assert Fragments(data, mtu, i * mtu)[0] == FragmentAt(data, mtu, i * mtu); }
      assert Fragments(data, mtu, i * mtu)[1..] == Fragments(data, mtu, (i + 1) * mtu);
      assert ps[1..] == EncodeAll(Fragments(data, mtu, (i + 1) * mtu));
      assert IsFragment(data, mtu, i, ps[0]);
      forall p | p in ps ensures OfMessage(data, mtu, p) {
        assert p == ps[0] || p in ps[1..];
      }
    }
  }

  // Exactly when reception is sound: the one octet of slack in the gap check is harmless unless
  // fragments carry a single octet and there is more than one of them.
  lemma SoundExactly(data: bytes, mtu: nat)
    requires 0 < mtu && 0 < |data| <= INT32_MAX
    ensures Sound(data, mtu) <==> mtu >= 2 || |data| <= 1
  {
    hide Sound;
    if mtu >= 2 || |data| <= 1 {
      SoundFrom(data, mtu);
    } else {
      LosesFirstOctet(data);
    }
  }

  lemma SoundFrom(data: bytes, mtu: nat)
    requires 0 < |data| <= INT32_MAX && (mtu >= 2 || (mtu > 0 && |data| <= 1))
    ensures Sound(data, mtu)
  {
    hide Receive, Holds, AllOfMessage, InBounds;
    forall buf: bytes, trace: seq<Packet> |
      |buf| == |data| && AllOfMessage(data, mtu, trace) && (forall p :: p in trace ==> InBounds(p, |buf|)) && Receive(buf, 0, trace).done
      ensures Receive(buf, 0, trace).buf == data && Holds(data, mtu, 0, trace)
    {
      Reassembles(data, mtu, buf, 0, 0, 0, trace);
    }
  }

  // All fragments but the first, in order: reception completes, and the first octet is whatever
  // was in memory.
  lemma LosesFirstOctet(data: bytes)
    requires 2 <= |data| <= INT32_MAX
    ensures !Sound(data, 1)
  {
    hide Receive, EncodeAll, Fragments, InBounds, OfMessage, Encode;
    var trace := EncodeAll(Fragments(data, 1, 1));
    var other: byte := if data[0] == 0 then 1 else 0;
    var buf := [other] + data[1..];
    FragmentsAreOfMessage(data, 1, 1);
    TraceInBounds(data, 1, trace);
    assert trace + [] == trace;
    InOrderCompletes(data, 1, buf, 0, 1, []);
    assert Receive(buf, 0, trace).buf[0] == other;
  }

  // A lossless, ordered channel delivers every message that is not empty, at any fragment size.
  method Transfer(data: bytes, mtu: nat, dataout: array?<byte>, datasize: nat, canAlloc: bool)
    returns (rc: int, out: array?<byte>, size: nat)
    requires mtu > 0 && 0 < |data| <= INT32_MAX && (dataout != null ==> dataout.Length == |data|)
    modifies dataout
    ensures dataout != null || canAlloc ==> rc == 0 && out != null && out[..] == data && size == |data|
  {
    var sent;
    rc, sent := Send(data, mtu, |data|);
    OneOctetAtLeast(data, mtu, 0);
    assert sent == EncodeAll(Fragments(data, mtu, 0));
    FragmentsAreOfMessage(data, mtu, 0);
    TraceInBounds(data, mtu, sent);
    var freed;
    ghost var fill;
    rc, out, size, freed, fill := Recv(sent, dataout, datasize, canAlloc, |data|);
    assert sent + [] == sent && fill[..0] + data[0..] == data;
    InOrderCompletes(data, mtu, fill, 0, 0, []);
  }
}
