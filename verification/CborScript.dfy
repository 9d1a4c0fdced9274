/**
 Properly nested sequences of encoder calls: their reference encoding, the byte
 accounting of any buffer they are run on, and the trip from item to buffer to item.
 */
module CborScript {
  import opened Bytes
  import opened CborNumber
  import opened CborIntegers
  import opened CborEncoder
  import CborGrammar
  import CborCursor
  import CborReading

  datatype Op =
    | PutUint(n: nat)
    | PutNegative(n: nat)
    | PutInt(i: int)
    | PutSimple(v: byte)
    | PutFloat(info: nat, bits: nat)
    | PutTag(tag: nat)
    | PutString(text: bool, s: bytes)
    | PutContainer(isMap: bool, length: Length, body: seq<Op>)

  // Arguments the C types can hold.
  predicate Callable(op: Op)
    decreases op, 0
  {
    match op
    case PutUint(n) => n <= UINT64_MAX
    case PutNegative(n) => n <= UINT64_MAX
    case PutInt(i) => IsInt64(i)
    case PutSimple(_) => true
    case PutFloat(info, _) => 25 <= info <= 27
    case PutTag(t) => t <= UINT64_MAX
    case PutString(_, s) => |s| <= SIZE_MAX
    case PutContainer(_, length, body) => (length.Items? ==> length.n < SIZE_MAX) && AllCallable(body)
  }

  predicate AllCallable(ops: seq<Op>)
    decreases ops, 1
  {
    |ops| == 0 || (Callable(ops[0]) && AllCallable(ops[1..]))
  }

  // What one call, with everything nested in it, adds to the stream.
  function OpBytes(op: Op): bytes
    decreases op, 0
  {
    match op
    case PutUint(n) => Head(UNSIGNED, n)
    case PutNegative(n) => Head(NEGATIVE, n)
    case PutInt(i) => if i < 0 then Head(NEGATIVE, -1 - i) else Head(UNSIGNED, i)
    case PutSimple(v) => if 25 <= v <= 31 then [] else Head(SIMPLE, v)
    case PutFloat(info, bits) => if 25 <= info <= 27 then [32 * SIMPLE + info] + ToBE(bits, ArgBytes(info)) else []
    case PutTag(t) => Head(TAG, t)
    case PutString(text, s) => Head(if text then TEXT_STRING else BYTE_STRING, |s|) + s
    case PutContainer(isMap, length, body) =>
      if Refused(isMap, length) then []
      else ContainerHead(isMap, length) + ScriptBytes(body) + (if length.Indefinite? then [BREAK_BYTE] else [])
  }

  function ScriptBytes(ops: seq<Op>): bytes
    decreases ops, 1
  {
    if |ops| == 0 then [] else OpBytes(ops[0]) + ScriptBytes(ops[1..])
  }

  // How many items a call adds to its container: a tag and a refused call none.
  function OpItems(op: Op): nat {
    match op
    case PutTag(_) => 0
    case PutSimple(v) => if 25 <= v <= 31 then 0 else 1
    case PutContainer(isMap, length, _) => if Refused(isMap, length) then 0 else 1
    case _ => 1
  }

  function ScriptItems(ops: seq<Op>): nat {
    if |ops| == 0 then 0 else OpItems(ops[0]) + ScriptItems(ops[1..])
  }

  // Every definite container, at every depth, gets the items it declared (pairs, in a map).
  predicate Balanced(op: Op)
    decreases op, 0
  {
    match op
    case PutContainer(isMap, length, body) =>
      Refused(isMap, length) || (AllBalanced(body) && (length.Items? ==> ScriptItems(body) == (if isMap then 2 * length.n else length.n)))
    case _ => true
  }

  predicate AllBalanced(ops: seq<Op>)
    decreases ops, 1
  {
    |ops| == 0 || (Balanced(ops[0]) && AllBalanced(ops[1..]))
  }

  // Makes one call, or opens a container, fills it and closes it with the check.  `ok` says that
  // every close_container_checked reported success.
  method RunOp(enc: Encoder, op: Op) returns (ok: bool)
    requires enc.Valid() && Callable(op)
    modifies enc`cell, enc`end, enc`added, enc`log, enc`kept, enc.memory
    ensures enc.Appended(OpBytes(op)) && enc.added == old(enc.added) + OpItems(op)
    ensures |enc.log| <= enc.cap ==> (ok <==> Balanced(op))
    decreases op, 0
  {
    hide Encoder.Valid, ScriptBytes, ScriptItems, AllBalanced, AllCallable;
    var err;
    ok := true;
    match op
    case PutUint(n) => err := enc.EncodeNumber(n, UNSIGNED);
    case PutNegative(n) => err := enc.EncodeNumber(n, NEGATIVE);
    case PutInt(i) =>
      var h := EncodeInt(i);
      err := enc.EncodeNumber(h.ui, h.major);
    case PutSimple(v) => err := enc.EncodeSimpleValue(v);
    case PutFloat(info, bits) => err := enc.EncodeFloatingPoint(info, bits);
    case PutTag(t) => err := enc.EncodeTag(t);
    case PutString(text, s) => err := enc.EncodeString(text, s);
    case PutContainer(isMap, length, body) => ok := RunContainer(enc, isMap, length, body);
  }

  method RunContainer(enc: Encoder, isMap: bool, length: Length, body: seq<Op>) returns (ok: bool)
    requires enc.Valid() && Callable(PutContainer(isMap, length, body))
    modifies enc`cell, enc`end, enc`added, enc`log, enc`kept, enc.memory
    ensures enc.Appended(OpBytes(PutContainer(isMap, length, body)))
    ensures enc.added == old(enc.added) + OpItems(PutContainer(isMap, length, body))
    ensures |enc.log| <= enc.cap ==> (ok <==> Balanced(PutContainer(isMap, length, body)))
    decreases body, 3
  {
    hide ScriptBytes, ScriptItems, AllBalanced, AllCallable, ContainerHead;
    var child := new Encoder.Nested(enc);
    var err := enc.CreateContainer(child, isMap, length);
    if err.DataTooLarge? { return true; }
    ok := FillAndClose(enc, child, isMap, length, body);
  }

  method FillAndClose(enc: Encoder, child: Encoder, isMap: bool, length: Length, body: seq<Op>) returns (ok: bool)
    requires AllCallable(body) && !Refused(isMap, length) && (length.Items? ==> length.n < SIZE_MAX)
    requires enc != child && child.Valid() && child.Extends(enc) && (enc.end.Ptr? ==> enc.cell == |enc.log|)
    requires child.log == enc.log + ContainerHead(isMap, length)
    requires child.added == 0 && child.containerIsMap == isMap && (child.unknownLength <==> length.Indefinite?)
    modifies enc`cell, enc`end, enc`log, enc`kept, child, enc.memory
    ensures enc.Valid() && enc.log == old(enc.log) + OpBytes(PutContainer(isMap, length, body))
    ensures enc.memory[enc.cap..] == old(enc.memory[enc.cap..])
    ensures old(enc.kept) <= enc.kept && (old(enc.end).Null? ==> enc.end.Null?)
    ensures |enc.log| <= enc.cap ==> (ok <==> Balanced(PutContainer(isMap, length, body)))
    decreases body, 2
  {
    hide ScriptBytes, ScriptItems, AllBalanced, AllCallable, ContainerHead, Encoder.Valid;
    ghost var before, head := enc.log, ContainerHead(isMap, length);
    ok := Run(child, body);
    assert child.log == before + head + ScriptBytes(body);
    var err := enc.CloseContainerChecked(child, length);
    ok := ok && err.NoError?;
    assert enc.log == before + (head + ScriptBytes(body) + (if length.Indefinite? then [BREAK_BYTE] else []));
  }

  method Run(enc: Encoder, ops: seq<Op>) returns (ok: bool)
    requires enc.Valid() && AllCallable(ops)
    modifies enc`cell, enc`end, enc`added, enc`log, enc`kept, enc.memory
    ensures enc.Appended(ScriptBytes(ops)) && enc.added == old(enc.added) + ScriptItems(ops)
    ensures |enc.log| <= enc.cap ==> (ok <==> AllBalanced(ops))
    decreases ops, 1
  {
    hide OpBytes, OpItems, Balanced, Callable, Encoder.Valid, ScriptBytes, ScriptItems, AllBalanced, AllCallable;
    ScriptSteps(ops);
    ok := true;
    ghost var before := enc.log;
    if |ops| > 0 {
      ok := RunOp(enc, ops[0]);
      var rest := Run(enc, ops[1..]);
      assert enc.log == before + (OpBytes(ops[0]) + ScriptBytes(ops[1..]));
      ok := ok && rest;
    } else {
      assert enc.log == before + ScriptBytes(ops);
    }
  }

  // A script is its first call and the rest.
  lemma ScriptSteps(ops: seq<Op>)
    requires AllCallable(ops)
    ensures if |ops| == 0 then ScriptBytes(ops) == [] && ScriptItems(ops) == 0 && AllBalanced(ops)
            else
              && Callable(ops[0]) && AllCallable(ops[1..])
              && ScriptBytes(ops) == OpBytes(ops[0]) + ScriptBytes(ops[1..])
              && ScriptItems(ops) == OpItems(ops[0]) + ScriptItems(ops[1..])
              && (AllBalanced(ops) <==> Balanced(ops[0]) && AllBalanced(ops[1..]))
  {
    hide OpBytes, OpItems, Balanced, Callable;
  }

  // A whole encoding into the first `size` octets of memory.  It is stored exactly when it fits;
  // otherwise the encoder knows how many octets were missing.  Nothing behind `size` is touched.
  method EncodeAll(memory: array<byte>, size: nat, ops: seq<Op>) returns (enc: Encoder, ok: bool)
    requires size <= memory.Length && AllCallable(ops)
    modifies memory
    ensures memory[size..] == old(memory[size..])
    ensures fresh(enc) && enc.Valid() && enc.memory == memory
    ensures |ScriptBytes(ops)| <= size ==>
              && memory[..|ScriptBytes(ops)|] == ScriptBytes(ops)
              && enc.end.Ptr? && enc.cell == |ScriptBytes(ops)| && (ok <==> AllBalanced(ops))
    ensures enc.GetExtraBytesNeeded() == if |ScriptBytes(ops)| <= size then 0 else |ScriptBytes(ops)| - size
    ensures enc.added == ScriptItems(ops)
  {
    enc := new Encoder.Init(memory, size);
    ok := Run(enc, ops);
    hide ScriptBytes;
    assert enc.log == ScriptBytes(ops);
  }

  // Counting without a buffer gives the size of the encoding.
  method Measure(ops: seq<Op>) returns (n: int)
    requires AllCallable(ops)
    ensures n == |ScriptBytes(ops)|
  {
    var memory := new byte[0];
    var enc := new Encoder.InitNull(memory);
    var ok := Run(enc, ops);
    hide ScriptBytes;
    assert enc.log == ScriptBytes(ops);
    n := enc.GetExtraBytesNeeded();
  }

  // The documented loop: encode, and when octets were missing, encode again with that much more room.
  method EncodeGrowing(size: nat, ops: seq<Op>) returns (memory: array<byte>, n: nat)
    requires AllCallable(ops)
    ensures n == |ScriptBytes(ops)| <= memory.Length && memory[..n] == ScriptBytes(ops)
  {
    memory := new byte[size](_ => 0);
    var enc, ok := EncodeAll(memory, size, ops);
    var more := enc.GetExtraBytesNeeded();
    if more > 0 {
      memory := new byte[size + more](_ => 0);
      enc, ok := EncodeAll(memory, size + more, ops);
    }
    n := enc.cell;
  }

  // ---------- items ----------

  // The calls that encode an item.
  function ItemOps(x: CborGrammar.Item): (ops: seq<Op>)
    requires CborGrammar.Encodable(x)
    ensures |ops| > 0
    decreases x, 0
  {
    match x
    case Integer(neg, n) => [if neg then PutNegative(n) else PutUint(n)]
    case Str(text, s) => [PutString(text, s)]
    case Array(indef, xs) => [PutContainer(false, if indef then Indefinite else Items(|xs|), ItemsOps(xs))]
    case Map(indef, xs) => [PutContainer(true, if indef then Indefinite else Items(|xs| / 2), ItemsOps(xs))]
    case Tagged(t, y) => [PutTag(t)] + ItemOps(y)
    case Simple(v) => [PutSimple(v)]
    case Float(info, bits) => [PutFloat(info, bits)]
  }

  function ItemsOps(xs: seq<CborGrammar.Item>): (ops: seq<Op>)
    requires CborGrammar.AllEncodable(xs)
    decreases xs, 1
  {
    if |xs| == 0 then [] else ItemOps(xs[0]) + ItemsOps(xs[1..])
  }

  // Container lengths the API can take: below SIZE_MAX, and half of it for maps.
  predicate Creatable(x: CborGrammar.Item)
    decreases x, 0
  {
    match x
    case Array(indef, xs) => (indef || |xs| < SIZE_MAX) && AllCreatable(xs)
    case Map(indef, xs) => (indef || |xs| / 2 <= SIZE_MAX / 2) && AllCreatable(xs)
    case Tagged(_, y) => Creatable(y)
    case _ => true
  }

  predicate AllCreatable(xs: seq<CborGrammar.Item>)
    decreases xs, 1
  {
    |xs| == 0 || (Creatable(xs[0]) && AllCreatable(xs[1..]))
  }

  lemma {:induction false} ScriptConcat(a: seq<Op>, b: seq<Op>)
    ensures ScriptBytes(a + b) == ScriptBytes(a) + ScriptBytes(b)
    ensures ScriptItems(a + b) == ScriptItems(a) + ScriptItems(b)
    ensures AllCallable(a + b) <==> AllCallable(a) && AllCallable(b)
    ensures AllBalanced(a + b) <==> AllBalanced(a) && AllBalanced(b)
  {
    hide OpBytes, OpItems, Callable, Balanced;
    if |a| == 0 {
      assert a + b == b;
    } else {
      ScriptConcat(a[1..], b);
      assert (a + b)[0] == a[0] && (a + b)[1..] == a[1..] + b;
      assert OpBytes(a[0]) + (ScriptBytes(a[1..]) + ScriptBytes(b)) == OpBytes(a[0]) + ScriptBytes(a[1..]) + ScriptBytes(b);
    }
  }

  ghost predicate Encodes(ops: seq<Op>, s: bytes, items: nat) {
    ScriptBytes(ops) == s && ScriptItems(ops) == items && AllCallable(ops) && AllBalanced(ops)
  }

  lemma SingleOp(op: Op)
    ensures ScriptBytes([op]) == OpBytes(op) && ScriptItems([op]) == OpItems(op)
    ensures AllCallable([op]) <==> Callable(op)
    ensures AllBalanced([op]) <==> Balanced(op)
  {
    hide OpBytes, OpItems, Callable, Balanced;
    assert ScriptBytes([op][1..]) == [] && ScriptItems([op][1..]) == 0;
    assert OpBytes(op) + [] == OpBytes(op);
  }

  // The encoder writes the reference encoding of every item, counts it once, and declares its
  // container lengths right.
  lemma {:induction false} ItemOpsEncode(x: CborGrammar.Item)
    requires CborGrammar.Encodable(x) && Creatable(x)
    ensures Encodes(ItemOps(x), CborGrammar.Enc(x), 1)
    decreases x, 0
  {
    hide ScriptBytes, ScriptItems, AllCallable, AllBalanced;
    match x
    case Array(indef, xs) => ContainerOpsEncode(false, indef, |xs|, xs);
    case Map(indef, xs) => ContainerOpsEncode(true, indef, |xs| / 2, xs);
    case Tagged(t, y) =>
      ItemOpsEncode(y);
      hide CborGrammar.Enc, ItemOps;
      SingleOp(PutTag(t));
      ScriptConcat([PutTag(t)], ItemOps(y));
    case _ => SingleOp(ItemOps(x)[0]);
  }

  lemma {:induction false} ContainerOpsEncode(isMap: bool, indef: bool, n: nat, xs: seq<CborGrammar.Item>)
    requires CborGrammar.AllEncodable(xs) && AllCreatable(xs) && |xs| == (if isMap then 2 * n else n)
    requires indef || (n < SIZE_MAX && (isMap ==> n <= SIZE_MAX / 2))
    ensures Encodes([PutContainer(isMap, if indef then Indefinite else Items(n), ItemsOps(xs))],
                    CborGrammar.ContainerBytes(if isMap then MAP else ARRAY, n, indef, xs), 1)
    decreases xs, 2
  {
    hide ScriptBytes, ScriptItems, AllCallable, AllBalanced;
    ItemsOpsEncode(xs);
    hide ItemsOps, CborGrammar.EncAll;
    SingleOp(PutContainer(isMap, if indef then Indefinite else Items(n), ItemsOps(xs)));
    assert Head(if isMap then MAP else ARRAY, n) + CborGrammar.EncAll(xs) + [] == Head(if isMap then MAP else ARRAY, n) + CborGrammar.EncAll(xs);
  }

  lemma {:induction false} ItemsOpsEncode(xs: seq<CborGrammar.Item>)
    requires CborGrammar.AllEncodable(xs) && AllCreatable(xs)
    ensures Encodes(ItemsOps(xs), CborGrammar.EncAll(xs), |xs|)
    decreases xs, 1
  {
    if |xs| > 0 {
      hide ItemOps, CborGrammar.Enc, CborGrammar.Encodable, Creatable;
      ItemOpsEncode(xs[0]);
      ItemsOpsEncode(xs[1..]);
      ScriptConcat(ItemOps(xs[0]), ItemsOps(xs[1..]));
    }
  }

  // From an item to a buffer of any initial size, grown once if need be, and back.
  method EncodeAndRead(x: CborGrammar.Item, size: nat) returns (memory: array<byte>, n: nat, ghost back: CborReading.Read)
    requires CborGrammar.Encodable(x) && Creatable(x) && CborReading.Fits(x) && |CborGrammar.Enc(x)| <= SIZE_MAX
    ensures n <= memory.Length && memory[..n] == CborGrammar.Enc(x)
    ensures CborCursor.ParserInit(memory[..n]).err.NoError?
    ensures back == CborReading.ReadItem(memory[..n], CborCursor.ParserInit(memory[..n]).it)
    ensures back.err.NoError? && back.item == x && back.it.ptr == n && back.it.remaining == 0
  {
    ItemOpsEncode(x);
    memory, n := EncodeGrowing(size, ItemOps(x));
    CborReading.RoundTrip(x);
    back := CborReading.ReadItem(memory[..n], CborCursor.ParserInit(memory[..n]).it);
  }

  // The encoder accepts simple value 24, and the parser refuses what it writes; every other
  // value it accepts comes back.
  lemma SimpleValueRoundTrip(v: byte)
    requires !(25 <= v <= 31)
    ensures var data := OpBytes(PutSimple(v));
            var s := CborCursor.ParserInit(data);
            (s.err.NoError? && CborReading.ReadItem(data, s.it).err.NoError? && CborReading.ReadItem(data, s.it).item == CborGrammar.Simple(v))
            <==> v != 24
    ensures v == 24 ==> CborCursor.ParserInit(OpBytes(PutSimple(v))).err == IllegalSimpleType
  {
    if v == 24 {
      assert OpBytes(PutSimple(24)) == Head(SIMPLE, 24) == [0xF8, 24] by {
        assert ToBE(24, 1) == ToBE(0, 0) + [24];
      }
    } else {
      var x := CborGrammar.Simple(v);
      assert CborGrammar.Enc(x) == OpBytes(PutSimple(v));
      CborReading.RoundTrip(x);
    }
  }
}
