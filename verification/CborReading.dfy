/**
 The streaming parser against the grammar: advancing over, and reading back, a
 well-formed item; and the round trip from item to octets to item.
 */
module CborReading {
  import opened Bytes
  import opened CborNumber
  import opened CborGrammar
  import opened CborCursor

  // The 32-bit item counter can hold the declared length of a container.
  predicate CountFits(x: Item) {
    match x
    case Array(indef, xs) => indef || |xs| < 0xFFFF_FFFF
    case Map(indef, xs) => indef || |xs| / 2 <= 0x7FFF_FFFF
    case _ => true
  }

  // So it can for every container in an item.
  predicate Fits(x: Item)
    decreases x, 0
  {
    && CountFits(x)
    && match x
       case Array(_, xs) => AllFit(xs)
       case Map(_, xs) => AllFit(xs)
       case Tagged(_, y) => Fits(y)
       case _ => true
  }

  predicate AllFit(xs: seq<Item>)
    decreases xs, 1
  {
    |xs| == 0 || (Fits(xs[0]) && AllFit(xs[1..]))
  }

  // How many containers are open at the deepest point of an item.
  function Nesting(x: Item): nat
    decreases x, 0
  {
    match x
    case Array(_, xs) => 1 + MaxNesting(xs)
    case Map(_, xs) => 1 + MaxNesting(xs)
    case Tagged(_, y) => Nesting(y)
    case _ => 0
  }

  function MaxNesting(xs: seq<Item>): nat
    decreases xs, 1
  {
    if |xs| == 0 then 0
    else
      var a, b := Nesting(xs[0]), MaxNesting(xs[1..]);
      if a < b then b else a
  }

  // The step that leaves an untagged item ending at q.
  function After(data: bytes, it: Cursor, q: nat): (r: Step)
    requires q <= |data| && 0 < it.remaining <= UINT32_MAX
    ensures r.err.NoError? ==> Inv(data, r.it)
  {
    PreparseNext(data, it.(ptr := q, typ := INTEGER_TYPE))
  }

  // Equal steps, up to the leftovers of the last item in an exhausted cursor.
  predicate SameStep(r: Step, s: Step) {
    && r.err == s.err
    && (r.err.NoError? ==> r.it.ptr == s.it.ptr && r.it.remaining == s.it.remaining && r.it.typ == s.it.typ)
  }

  // The members from rec to the end of its container are xs, and the container ends at q.
  ghost predicate Members(data: bytes, rec: Cursor, xs: seq<Item>, q: nat)
    requires Inv(data, rec)
  {
    if rec.remaining == 0 then xs == [] && q == rec.ptr
    else if rec.remaining == UINT32_MAX then ParseUntilBreak(data, rec.ptr) == Parsed(xs, q)
    else ParseCount(data, rec.ptr, rec.remaining) == Parsed(xs, q)
  }

  // ---------- one item, seen by the cursor ----------

  // A well-formed item is always accepted by preparse_value.
  lemma PreparseItem(data: bytes, it: Cursor)
    requires it.ptr <= |data| && ParseItem(data, it.ptr).Parsed?
    ensures Preparse(data, it).err.NoError?
    ensures Valid(data, it) ==> (it.typ == TAG_TYPE <==> ParseItem(data, it.ptr).value.Tagged?)
    ensures Valid(data, it) ==>
              (IsContainer(it.typ) <==> ParseItem(data, it.ptr).value.Array? || ParseItem(data, it.ptr).value.Map?)
    ensures Valid(data, it) ==> (IsString(it.typ) <==> ParseItem(data, it.ptr).value.Str?)
  {
    ItemIsPreparsed(data, it);
    MajorOfItem(data, it.ptr);
    hide ParseItem, Preparse;
    if Valid(data, it) { MajorOfType(data, it); }
  }

  lemma ItemIsPreparsed(data: bytes, it: Cursor)
    requires it.ptr <= |data| && ParseItem(data, it.ptr).Parsed?
    ensures Preparse(data, it).err.NoError?
  {
    hide ParseCount, ParseUntilBreak, ParseChunks;
  }

  // The kind of an item is the major type of its initial byte, and so is the iterator's type.
  lemma MajorOfItem(data: bytes, p: nat)
    requires p <= |data| && ParseItem(data, p).Parsed?
    ensures var x := ParseItem(data, p).value;
            && p < |data| && (x.Tagged? <==> data[p] / 32 == TAG)
            && (x.Array? || x.Map? <==> data[p] / 32 == ARRAY || data[p] / 32 == MAP)
            && (x.Str? <==> data[p] / 32 == BYTE_STRING || data[p] / 32 == TEXT_STRING)
  {
    hide ParseCount, ParseUntilBreak, ParseChunks;
  }

  lemma MajorOfType(data: bytes, it: Cursor)
    requires Valid(data, it)
    ensures var m := data[it.ptr] / 32;
            && (it.typ == TAG_TYPE <==> m == TAG) && (IsContainer(it.typ) <==> m == ARRAY || m == MAP)
            && (IsString(it.typ) <==> m == BYTE_STRING || m == TEXT_STRING)
  {
  }

  // The content of a tagged item, after advancing over the tag.
  lemma AdvanceTag(data: bytes, it: Cursor)
    requires Valid(data, it) && it.typ == TAG_TYPE && ParseItem(data, it.ptr).Parsed?
    ensures AdvanceInternal(data, it).err.NoError?
    ensures var c := AdvanceInternal(data, it).it;
            var x := ParseItem(data, it.ptr);
            && Valid(data, c) && c.remaining == it.remaining
            && x.value.Tagged? && x.value.tag == ExtractInt64(data, it)
            && ParseItem(data, c.ptr) == Parsed(x.value.content, x.next)
  {
    hide ParseCount, ParseUntilBreak, ParseChunks;
    var n := ExtractNumber(data, it.ptr, |data|);
    assert ParseItem(data, n.next).Parsed?;
    PreparseItem(data, it.(ptr := n.next));
  }

  lemma ScanMatchesChunks(data: bytes, p: nat, typ: nat, total: nat)
    requires p <= |data| && |data| <= SIZE_MAX && total <= p && (typ == BYTE_STRING_TYPE || typ == TEXT_STRING_TYPE)
    ensures ScanChunks(data, p, typ, total).err.NoError? <==> ParseChunks(data, p, typ / 32).Parsed?
    ensures ScanChunks(data, p, typ, total).err.NoError? ==>
              ParseChunks(data, p, typ / 32) == Parsed(ScanChunks(data, p, typ, total).s, ScanChunks(data, p, typ, total).next)
    decreases |data| - p
  {
    hide ChunkAt, ParseChunks;
    var c := ChunkAt(data, p, typ, total);
    ChunkMatches(data, p, typ, total);
    if c.Chunk? {
      ScanMatchesChunks(data, c.start + c.len, typ, total + c.len);
    }
  }

  lemma ChunkMatches(data: bytes, p: nat, typ: nat, total: nat)
    requires p <= |data| && |data| <= SIZE_MAX && total <= p && (typ == BYTE_STRING_TYPE || typ == TEXT_STRING_TYPE)
    ensures var c, r := ChunkAt(data, p, typ, total), ParseChunks(data, p, typ / 32);
            match c
            case BadChunk(_) => r.Malformed?
            case LastChunk => r == Parsed([], p + 1)
            case Chunk(start, len) =>
              var r' := ParseChunks(data, start + len, typ / 32);
              && total + len <= start + len
              && r == if r'.Parsed? then Parsed(data[start..start + len] + r'.value, r'.next) else Malformed
  {
  }

  // A string, in one piece or in chunks, is scanned exactly when it is well-formed.
  lemma ScanMatchesGrammar(data: bytes, it: Cursor)
    requires |data| <= SIZE_MAX && Valid(data, it) && IsString(it.typ)
    ensures ScanString(data, it).err.NoError? <==> ParseItem(data, it.ptr).Parsed?
    ensures ScanString(data, it).err.NoError? ==>
              ParseItem(data, it.ptr) == Parsed(Str(it.typ == TEXT_STRING_TYPE, ScanString(data, it).s), ScanString(data, it).next)
  {
    hide Preparse, ParseItem, ParseChunks, ScanChunks, ExtractNumber, Valid, Inv;
    StringHead(data, it);
    ParseString(data, it.ptr);
    if it.flags.unknownLength {
      ScanMatchesChunks(data, it.ptr + 1, it.typ, 0);
    }
  }

  // The grammar's rule for strings, on its own.
  lemma ParseString(data: bytes, p: nat)
    requires p < |data| && (data[p] / 32 == BYTE_STRING || data[p] / 32 == TEXT_STRING)
    ensures data[p] % 32 == INDEFINITE ==>
              var r := ParseChunks(data, p + 1, data[p] / 32);
              ParseItem(data, p) == if r.Parsed? then Parsed(Str(data[p] / 32 == TEXT_STRING, r.value), r.next) else Malformed
    ensures data[p] % 32 != INDEFINITE ==>
              var n := ExtractNumber(data, p, |data|);
              ParseItem(data, p) ==
              if n.err.NoError? && n.value <= |data| - n.next
              then Parsed(Str(data[p] / 32 == TEXT_STRING, data[n.next..n.next + n.value]), n.next + n.value) else Malformed
  {
    hide ParseChunks, ParseCount, ParseUntilBreak;
  }

  lemma StringHead(data: bytes, it: Cursor)
    requires Valid(data, it) && IsString(it.typ)
    ensures it.ptr < |data| && data[it.ptr] / 32 * 32 == it.typ
    ensures it.flags.unknownLength <==> data[it.ptr] % 32 == INDEFINITE
    ensures !it.flags.unknownLength ==> ExtractNumber(data, it.ptr, |data|).err.NoError?
  {
  }

  // Entering a well-formed container whose length fits stands on its first member, or at its end;
  // otherwise it is refused.
  lemma EnterItem(data: bytes, it: Cursor)
    requires Valid(data, it) && IsContainer(it.typ) && ParseItem(data, it.ptr).Parsed?
    ensures var x := ParseItem(data, it.ptr).value;
            && (x == Array(it.flags.unknownLength, MembersOf(x)) || x == Map(it.flags.unknownLength, MembersOf(x)))
            && (x.Array? <==> it.typ == ARRAY_TYPE)
    ensures var x := ParseItem(data, it.ptr);
            var e := EnterContainer(data, it);
            if CountFits(x.value) then e.err.NoError? && Inv(data, e.it) && Members(data, e.it, MembersOf(x.value), x.next)
            else e.err == DataTooLarge
  {
    hide ParseChunks;
    if CountFits(ParseItem(data, it.ptr).value) { EnterFits(data, it); } else { EnterTooLarge(data, it); }
  }

  lemma EnterTooLarge(data: bytes, it: Cursor)
    requires Valid(data, it) && IsContainer(it.typ)
    requires ParseItem(data, it.ptr).Parsed? && !CountFits(ParseItem(data, it.ptr).value)
    ensures var x := ParseItem(data, it.ptr).value;
            && (x == Array(false, MembersOf(x)) || x == Map(false, MembersOf(x)))
            && (x.Array? <==> it.typ == ARRAY_TYPE) && !it.flags.unknownLength
    ensures EnterContainer(data, it).err == DataTooLarge
  {
    hide ParseChunks, ParseUntilBreak, ParseCount;
  }

  lemma EnterFits(data: bytes, it: Cursor)
    requires Valid(data, it) && IsContainer(it.typ)
    requires ParseItem(data, it.ptr).Parsed? && CountFits(ParseItem(data, it.ptr).value)
    ensures var x := ParseItem(data, it.ptr).value;
            && (x == Array(it.flags.unknownLength, MembersOf(x)) || x == Map(it.flags.unknownLength, MembersOf(x)))
            && (x.Array? <==> it.typ == ARRAY_TYPE)
    ensures var x := ParseItem(data, it.ptr);
            var e := EnterContainer(data, it);
            e.err.NoError? && Inv(data, e.it) && Members(data, e.it, MembersOf(x.value), x.next)
  {
    ContainerHead(data, it);
    ParseContainer(data, it.ptr);
    HeadCompleteIf(data, it);
    var x := ParseItem(data, it.ptr);
    hide ParseItem, Preparse, ParseChunks, ParseCount, ParseUntilBreak, EnterContainer, Members, Inv;
    if it.flags.unknownLength {
      EnterIndefinite(data, it, MembersOf(x.value), x.next);
    } else {
      EnterDefinite(data, it, MembersOf(x.value), x.next);
    }
  }

  lemma EnterIndefinite(data: bytes, it: Cursor, xs: seq<Item>, q: nat)
    requires Valid(data, it) && IsContainer(it.typ) && it.flags.unknownLength
    requires ParseUntilBreak(data, it.ptr + 1) == Parsed(xs, q)
    ensures var e := EnterContainer(data, it);
            e.err.NoError? && Inv(data, e.it) && Members(data, e.it, xs, q)
  {
    hide ParseItem, Preparse;
    if data[it.ptr + 1] != BREAK_BYTE {
      assert ParseItem(data, it.ptr + 1).Parsed?;
      PreparseItem(data, it.(remaining := UINT32_MAX, ptr := it.ptr + 1));
    }
  }

  lemma EnterDefinite(data: bytes, it: Cursor, xs: seq<Item>, q: nat)
    requires Valid(data, it) && IsContainer(it.typ) && !it.flags.unknownLength
    requires ExtractNumber(data, it.ptr, |data|).err.NoError?
    requires var n := ExtractNumber(data, it.ptr, |data|).value;
             n < UINT32_MAX && (it.typ == MAP_TYPE ==> n <= UINT32_MAX / 2)
    requires var n := ExtractNumber(data, it.ptr, |data|);
             ParseCount(data, n.next, if it.typ == MAP_TYPE then 2 * n.value else n.value) == Parsed(xs, q)
    ensures var e := EnterContainer(data, it);
            e.err.NoError? && Inv(data, e.it) && Members(data, e.it, xs, q)
  {
    hide ParseItem, Preparse, ParseUntilBreak;
    var n := ExtractNumber(data, it.ptr, |data|);
    var count := if it.typ == MAP_TYPE then 2 * n.value else n.value;
    if n.value > 0 {
      assert ParseItem(data, n.next).Parsed?;
      PreparseItem(data, it.(ptr := n.next, remaining := count));
    }
  }

  function MembersOf(x: Item): seq<Item> {
    match x
    case Array(_, xs) => xs
    case Map(_, xs) => xs
    case _ => []
  }

  // ---------- walking the members of a container ----------

  // The first member, and the members that remain after it.
  lemma FirstMember(data: bytes, rec: Cursor, xs: seq<Item>, q: nat)
    requires Valid(data, rec) && Members(data, rec, xs, q)
    ensures |xs| > 0 && ParseItem(data, rec.ptr).Parsed? && ParseItem(data, rec.ptr).value == xs[0]
    ensures var s := After(data, rec, ParseItem(data, rec.ptr).next);
            s.err.NoError? && Members(data, s.it, xs[1..], q)
  {
    hide ParseItem;
    var x := ParseItem(data, rec.ptr);
    assert x.Parsed? && xs[0] == x.value;
    if rec.remaining == UINT32_MAX {
      assert ParseUntilBreak(data, x.next) == Parsed(xs[1..], q);
      if data[x.next] != BREAK_BYTE {
        PreparseItem(data, rec.(ptr := x.next, typ := INTEGER_TYPE));
      }
    } else {
      assert ParseCount(data, x.next, rec.remaining - 1) == Parsed(xs[1..], q);
      if rec.remaining > 1 {
        PreparseItem(data, rec.(ptr := x.next, typ := INTEGER_TYPE, remaining := rec.remaining - 1));
      }
    }
  }

  // Advancing over a tag leaves the tagged content as the first member: tags do not count as items.
  lemma TaggedMember(data: bytes, rec: Cursor, xs: seq<Item>, q: nat)
    requires Valid(data, rec) && Members(data, rec, xs, q) && rec.typ == TAG_TYPE
    ensures |xs| > 0 && xs[0].Tagged?
    ensures var s := AdvanceInternal(data, rec);
            && s.err.NoError? && Valid(data, s.it) && rec.ptr < s.it.ptr
            && Members(data, s.it, [xs[0].content] + xs[1..], q)
  {
    hide ParseItem, Preparse;
    FirstMember(data, rec, xs, q);
    AdvanceTag(data, rec);
    hide AdvanceInternal;
    var s := AdvanceInternal(data, rec);
    var x := ParseItem(data, rec.ptr);
    assert ParseItem(data, s.it.ptr) == Parsed(xs[0].content, x.next);
    if rec.remaining == UINT32_MAX {
      assert ParseUntilBreak(data, x.next) == Parsed(xs[1..], q);
      ItemIsNotBreak(data, s.it.ptr);
      assert ParseUntilBreak(data, s.it.ptr) == Parsed([xs[0].content] + xs[1..], q);
    } else {
      assert ParseCount(data, x.next, rec.remaining - 1) == Parsed(xs[1..], q);
      assert ParseCount(data, s.it.ptr, rec.remaining) == Parsed([xs[0].content] + xs[1..], q);
    }
  }

  lemma ItemIsNotBreak(data: bytes, p: nat)
    requires p <= |data| && ParseItem(data, p).Parsed?
    ensures p < |data| && data[p] != BREAK_BYTE
  {
    hide ParseChunks, ParseCount, ParseUntilBreak;
  }

  // Leaving a container whose members ended at q is the step that leaves it as an item ending at q.
  lemma LeaveIsAfter(data: bytes, it: Cursor, recursed: Cursor)
    requires Valid(data, it) && IsContainer(it.typ)
    requires Inv(data, recursed) && recursed.typ == INVALID_TYPE && it.ptr < recursed.ptr
    ensures SameStep(LeaveContainer(data, it, recursed), After(data, it, recursed.ptr))
  {
    NextIgnoresType(data, it.(ptr := recursed.ptr));
  }

  lemma NextIgnoresType(data: bytes, it: Cursor)
    requires it.ptr <= |data| && 0 < it.remaining <= UINT32_MAX && it.typ != TAG_TYPE
    ensures SameStep(PreparseNext(data, it), PreparseNext(data, it.(typ := INTEGER_TYPE)))
  {
  }

  lemma AfterIgnoresDecoded(data: bytes, it: Cursor, it': Cursor, q: nat)
    requires q <= |data| && 0 < it.remaining == it'.remaining <= UINT32_MAX
    ensures SameStep(After(data, it, q), After(data, it', q))
  {
  }

  // ---------- cbor_value_advance ----------

  predicate LimitError(err: Error) { err.NestingTooDeep? || err.DataTooLarge? }

  // Advancing over an untagged well-formed item moves exactly to its end, whatever its shape,
  // unless it is nested deeper, or counts more items, than the limits allow.
  lemma {:induction false} AdvanceReads(data: bytes, it: Cursor, level: nat)
    requires |data| <= SIZE_MAX && Valid(data, it) && it.typ != TAG_TYPE && level <= MAX_RECURSIONS
    requires ParseItem(data, it.ptr).Parsed?
    ensures var x := ParseItem(data, it.ptr);
            if Fits(x.value) && level + Nesting(x.value) <= MAX_RECURSIONS
            then SameStep(AdvanceRecursive(data, it, level), After(data, it, x.next))
            else LimitError(AdvanceRecursive(data, it, level).err)
    decreases |data| - it.ptr, 0
  {
    hide ParseItem, Preparse, AdvanceToEnd;
    PreparseItem(data, it);
    var x := ParseItem(data, it.ptr);
    if IsString(it.typ) {
      ScanMatchesGrammar(data, it);
      hide ScanString;
      NextIgnoresType(data, it.(ptr := x.next));
    } else if IsContainer(it.typ) {
      EnterItem(data, it);
      hide EnterContainer;
      var e := EnterContainer(data, it);
      if level < MAX_RECURSIONS && e.err.NoError? {
        AdvanceToEndReads(data, e.it, level, MembersOf(x.value), x.next);
        var m := AdvanceToEnd(data, e.it, level);
        if m.err.NoError? { LeaveIsAfter(data, it, m.it); }
      }
    } else {
      FixedReads(data, it);
    }
  }

  // An item that is neither a string nor a container is one head long.
  lemma FixedReads(data: bytes, it: Cursor)
    requires Valid(data, it) && IsFixed(it.typ) && it.typ != TAG_TYPE
    requires ParseItem(data, it.ptr).Parsed?
    ensures SameStep(AdvanceInternal(data, it), After(data, it, ParseItem(data, it.ptr).next))
    ensures Nesting(ParseItem(data, it.ptr).value) == 0
  {
    PreparseItem(data, it);
    FixedIsOneHead(data, it);
    NextIgnoresType(data, it.(ptr := ExtractNumber(data, it.ptr, |data|).next));
  }

  lemma FixedIsOneHead(data: bytes, it: Cursor)
    requires Valid(data, it) && IsFixed(it.typ) && it.typ != TAG_TYPE && ParseItem(data, it.ptr).Parsed?
    ensures ExtractNumber(data, it.ptr, |data|).err.NoError?
    ensures ParseItem(data, it.ptr).next == ExtractNumber(data, it.ptr, |data|).next
    ensures var x := ParseItem(data, it.ptr).value; x.Integer? || x.Simple? || x.Float?
  {
    hide ParseChunks, ParseCount, ParseUntilBreak;
  }

  lemma {:induction false} AdvanceToEndReads(data: bytes, rec: Cursor, level: nat, xs: seq<Item>, q: nat)
    requires |data| <= SIZE_MAX && Inv(data, rec) && level < MAX_RECURSIONS
    requires Members(data, rec, xs, q)
    ensures var r := AdvanceToEnd(data, rec, level);
            if AllFit(xs) && level + 1 + MaxNesting(xs) <= MAX_RECURSIONS
            then r.err.NoError? && r.it.ptr == q && r.it.typ == INVALID_TYPE
            else LimitError(r.err)
    decreases |data| - rec.ptr, 1
  {
    hide ParseItem, Preparse, After;
    if rec.remaining > 0 {
      FirstMember(data, rec, xs, q);
      PreparseItem(data, rec);
      if rec.typ == TAG_TYPE {
        TaggedMember(data, rec, xs, q);
        hide Members;
        var s := AdvanceInternal(data, rec);
        var ys := [xs[0].content] + xs[1..];
        assert ys[1..] == xs[1..] && (Fits(xs[0]) <==> Fits(ys[0]));
        AdvanceToEndReads(data, s.it, level, ys, q);
      } else {
        hide Members;
        var x := ParseItem(data, rec.ptr);
        AdvanceReads(data, rec, level + 1);
        hide AdvanceRecursive;
        var s := After(data, rec, x.next);
        if Fits(x.value) && level + 1 + Nesting(x.value) <= MAX_RECURSIONS {
          var s' := AdvanceRecursive(data, rec, level + 1);
          SameMembers(data, s.it, s'.it, xs[1..], q);
          AdvanceToEndReads(data, s'.it, level, xs[1..], q);
        }
      }
    }
  }

  lemma SameMembers(data: bytes, rec: Cursor, rec': Cursor, xs: seq<Item>, q: nat)
    requires Inv(data, rec) && Inv(data, rec')
    requires rec.ptr == rec'.ptr && rec.remaining == rec'.remaining && Members(data, rec, xs, q)
    ensures Members(data, rec', xs, q)
  {
  }

  // ---------- reading an item back through the getters ----------

  datatype Read = Read(err: Error, item: Item, it: Cursor)
  datatype ReadAll = ReadAll(err: Error, items: seq<Item>, it: Cursor)

  // The item a fixed-size cursor stands on, from the type and the matching getter.
  function GetFixed(data: bytes, it: Cursor): (x: Item)
    requires Valid(data, it) && IsFixed(it.typ) && it.typ != TAG_TYPE
  {
    if it.typ == INTEGER_TYPE then Integer(it.flags.negative, ExtractInt64(data, it))
    else if it.typ == BOOLEAN_TYPE then Simple(if it.extra != 0 then 21 else 20)
    else if it.typ == NULL_TYPE then Simple(22)
    else if it.typ == UNDEFINED_TYPE then Simple(23)
    else if it.typ == SIMPLE_TYPE then Simple(it.extra)
    else if it.typ == HALF_FLOAT_TYPE then
      HeadComplete(data, it);
      Float(25, FromBE(data[it.ptr + 1..ExtractNumber(data, it.ptr, |data|).next]))
    else Float(if it.typ == FLOAT_TYPE then 26 else 27, ExtractInt64(data, it))
  }

  // A caller that reads one item of any shape with the public operations: tags with
  // get_tag and advance_fixed, strings with copy_string, containers with enter, a loop
  // until at_end, and leave.  A tag with nothing behind it is its own error.
  function ReadItem(data: bytes, it: Cursor): (r: Read)
    requires Valid(data, it)
    ensures r.err.NoError? ==> Inv(data, r.it) && it.ptr < r.it.ptr
    decreases |data| - it.ptr, 0
  {
    if it.typ == TAG_TYPE then
      var s := AdvanceInternal(data, it);
      if !s.err.NoError? then Read(s.err, Simple(22), it)
      else if s.it.typ == INVALID_TYPE then Read(UnexpectedBreak, Simple(22), it)
      else
        var r := ReadItem(data, s.it);
        Read(r.err, Tagged(ExtractInt64(data, it), r.item), r.it)
    else if IsString(it.typ) then
      var c := ScanString(data, it);
      if !c.err.NoError? then Read(c.err, Simple(22), it)
      else
        var s := PreparseNext(data, it.(ptr := c.next));
        Read(s.err, Str(it.typ == TEXT_STRING_TYPE, c.s), s.it)
    else if IsContainer(it.typ) then
      var e := EnterContainer(data, it);
      if !e.err.NoError? then Read(e.err, Simple(22), it)
      else
        var m := ReadToEnd(data, e.it);
        if !m.err.NoError? then Read(m.err, Simple(22), it)
        else
          var s := LeaveContainer(data, it, m.it);
          var indef := it.flags.unknownLength;
          Read(s.err, if it.typ == ARRAY_TYPE then Array(indef, m.items) else Map(indef, m.items), s.it)
    else
      var s := AdvanceInternal(data, it);
      Read(s.err, GetFixed(data, it), s.it)
  }

  function ReadToEnd(data: bytes, rec: Cursor): (r: ReadAll)
    requires Inv(data, rec)
    ensures r.err.NoError? ==> Inv(data, r.it) && r.it.typ == INVALID_TYPE && rec.ptr <= r.it.ptr
    decreases |data| - rec.ptr, 1
  {
    if rec.remaining == 0 then ReadAll(NoError, [], rec)
    else
      var x := ReadItem(data, rec);
      if !x.err.NoError? then ReadAll(x.err, [], rec)
      else
        var r := ReadToEnd(data, x.it);
        ReadAll(r.err, [x.item] + r.items, r.it)
  }

  lemma GetFixedReads(data: bytes, it: Cursor)
    requires Valid(data, it) && IsFixed(it.typ) && it.typ != TAG_TYPE
    ensures ParseItem(data, it.ptr).Parsed? && ParseItem(data, it.ptr).value == GetFixed(data, it)
  {
    hide ParseChunks, ParseCount, ParseUntilBreak;
  }

  // Reading a well-formed item within the limits gives that item and moves to its end.
  lemma {:induction false} ReadItemReads(data: bytes, it: Cursor)
    requires |data| <= SIZE_MAX && Valid(data, it)
    requires ParseItem(data, it.ptr).Parsed? && Fits(ParseItem(data, it.ptr).value)
    ensures var x, r := ParseItem(data, it.ptr), ReadItem(data, it);
            r.item == x.value && SameStep(Step(r.err, r.it), After(data, it, x.next))
    decreases |data| - it.ptr, 0
  {
    hide ParseItem, Preparse, ReadToEnd;
    PreparseItem(data, it);
    var x := ParseItem(data, it.ptr);
    if it.typ == TAG_TYPE {
      AdvanceTag(data, it);
      var c := AdvanceInternal(data, it).it;
      ReadItemReads(data, c);
      AfterIgnoresDecoded(data, it, c, x.next);
    } else if IsString(it.typ) {
      ScanMatchesGrammar(data, it);
      hide ScanString;
      NextIgnoresType(data, it.(ptr := x.next));
    } else if IsContainer(it.typ) {
      EnterItem(data, it);
      hide EnterContainer;
      var e := EnterContainer(data, it);
      ReadToEndReads(data, e.it, MembersOf(x.value), x.next);
      LeaveIsAfter(data, it, ReadToEnd(data, e.it).it);
    } else {
      FixedReads(data, it);
      GetFixedReads(data, it);
    }
  }

  lemma {:induction false} ReadToEndReads(data: bytes, rec: Cursor, xs: seq<Item>, q: nat)
    requires |data| <= SIZE_MAX && Inv(data, rec) && Members(data, rec, xs, q) && AllFit(xs)
    ensures var r := ReadToEnd(data, rec);
            r.err.NoError? && r.items == xs && r.it.ptr == q && r.it.typ == INVALID_TYPE
    decreases |data| - rec.ptr, 1
  {
    hide ParseItem, Preparse, After;
    if rec.remaining > 0 {
      FirstMember(data, rec, xs, q);
      hide Members;
      ReadItemReads(data, rec);
      hide ReadItem;
      var s, r := After(data, rec, ParseItem(data, rec.ptr).next), ReadItem(data, rec);
      SameMembers(data, s.it, r.it, xs[1..], q);
      ReadToEndReads(data, r.it, xs[1..], q);
      assert [xs[0]] + xs[1..] == xs;
    }
  }

  // Encoding an item and reading it back gives the item and ends exactly at the last octet.
  lemma RoundTrip(x: Item)
    requires Encodable(x) && Fits(x) && |Enc(x)| <= SIZE_MAX
    ensures var data := Enc(x);
            var s := ParserInit(data);
            && s.err.NoError?
            && var r := ReadItem(data, s.it);
               r.err.NoError? && r.item == x && r.it.ptr == |data| && r.it.remaining == 0
  {
    var data := Enc(x);
    assert At(data, 0, Enc(x));
    ParseUndoesEnc(data, 0, x);
    hide ParseItem, Enc;
    PreparseItem(data, Cursor(0, 1, 0, INVALID_TYPE, NO_FLAGS));
    ReadItemReads(data, ParserInit(data).it);
  }

  // ---------- the converse: what the reader accepts ----------

  // Indefinite-length maps need not have a value for their last key to be accepted by the cursor.
  predicate EvenMaps(x: Item)
    decreases x, 0
  {
    match x
    case Array(_, xs) => AllEvenMaps(xs)
    case Map(_, xs) => |xs| % 2 == 0 && AllEvenMaps(xs)
    case Tagged(_, y) => EvenMaps(y)
    case _ => true
  }

  predicate AllEvenMaps(xs: seq<Item>)
    decreases xs, 1
  {
    |xs| == 0 || (EvenMaps(xs[0]) && AllEvenMaps(xs[1..]))
  }

  // The rules of the grammar for tags and containers, read upwards.
  lemma GrammarOfTag(data: bytes, it: Cursor)
    requires Valid(data, it) && it.typ == TAG_TYPE
    requires ParseItem(data, ExtractNumber(data, it.ptr, |data|).next).Parsed?
    ensures var y := ParseItem(data, ExtractNumber(data, it.ptr, |data|).next);
            ParseItem(data, it.ptr) == Parsed(Tagged(ExtractInt64(data, it), y.value), y.next)
  {
    MajorOfType(data, it);
    HeadOfTag(data, it);
    ExtractInt64IsArgument(data, it);
    hide ParseCount, ParseUntilBreak, ParseChunks, ExtractInt64, ExtractNumber, Preparse;
  }

  lemma HeadOfTag(data: bytes, it: Cursor)
    requires Valid(data, it) && it.typ == TAG_TYPE
    ensures !it.flags.unknownLength && it.ptr < |data| && data[it.ptr] % 32 != INDEFINITE
  {
  }

  lemma TagContent(data: bytes, it: Cursor)
    requires Valid(data, it) && it.typ == TAG_TYPE && AdvanceInternal(data, it).err.NoError?
    requires AdvanceInternal(data, it).it.typ != INVALID_TYPE
    ensures AdvanceInternal(data, it).it.ptr == ExtractNumber(data, it.ptr, |data|).next
  {
  }

  lemma GrammarOfContainer(data: bytes, it: Cursor, xs: seq<Item>, q: nat)
    requires Valid(data, it) && IsContainer(it.typ) && (it.typ == MAP_TYPE ==> |xs| % 2 == 0)
    requires EnterContainer(data, it).err.NoError? && Members(data, EnterContainer(data, it).it, xs, q)
    ensures ParseItem(data, it.ptr) ==
            Parsed(if it.typ == ARRAY_TYPE then Array(it.flags.unknownLength, xs) else Map(it.flags.unknownLength, xs), q)
    ensures !it.flags.unknownLength ==> |xs| < UINT32_MAX
  {
    EnteredMembers(data, it, xs, q);
    ContainerHead(data, it);
    ParseContainer(data, it.ptr);
    hide Preparse, ParseItem, EnterContainer, Members, ParseCount, ParseUntilBreak;
  }

  // Where the members of an entered container are, and how they are counted.
  lemma EnteredMembers(data: bytes, it: Cursor, xs: seq<Item>, q: nat)
    requires Valid(data, it) && IsContainer(it.typ)
    requires EnterContainer(data, it).err.NoError? && Members(data, EnterContainer(data, it).it, xs, q)
    ensures it.flags.unknownLength ==> ParseUntilBreak(data, it.ptr + 1) == Parsed(xs, q)
    ensures !it.flags.unknownLength ==>
              var n := ExtractNumber(data, it.ptr, |data|);
              && n.err.NoError? && n.value < UINT32_MAX && |xs| < UINT32_MAX
              && ParseCount(data, n.next, if it.typ == MAP_TYPE then 2 * n.value else n.value) == Parsed(xs, q)
  {
    hide ParseItem, ParseChunks;
    HeadCompleteIf(data, it);
  }

  lemma ContainerHead(data: bytes, it: Cursor)
    requires Valid(data, it) && IsContainer(it.typ)
    ensures it.ptr < |data| && data[it.ptr] / 32 == (if it.typ == ARRAY_TYPE then ARRAY else MAP)
    ensures it.flags.unknownLength <==> data[it.ptr] % 32 == INDEFINITE
  {
  }

  // Whatever bytes it is given, when the reader succeeds it has read a well-formed item of
  // the grammar, that item, and nothing else.
  lemma {:induction false} ReadItemIsSound(data: bytes, it: Cursor)
    requires |data| <= SIZE_MAX && Valid(data, it)
    requires ReadItem(data, it).err.NoError? && EvenMaps(ReadItem(data, it).item)
    ensures ParseItem(data, it.ptr).Parsed? && ParseItem(data, it.ptr).value == ReadItem(data, it).item
    ensures Fits(ReadItem(data, it).item)
    ensures SameStep(Step(NoError, ReadItem(data, it).it), After(data, it, ParseItem(data, it.ptr).next))
    decreases |data| - it.ptr, 0
  {
    hide ParseItem, Preparse, ReadToEnd, After;
    if it.typ == TAG_TYPE {
      var c := AdvanceInternal(data, it).it;
      ReadItemIsSound(data, c);
      TagContent(data, it);
      GrammarOfTag(data, it);
      TagKeepsCount(data, it);
      AfterIgnoresDecoded(data, it, c, ParseItem(data, it.ptr).next);
    } else if IsString(it.typ) {
      ScanMatchesGrammar(data, it);
      StringIsAfter(data, it, ScanString(data, it).next);
    } else if IsContainer(it.typ) {
      var e := EnterContainer(data, it);
      var m := ReadToEnd(data, e.it);
      ReadToEndIsSound(data, e.it);
      GrammarOfContainer(data, it, m.items, m.it.ptr);
      LeaveIsAfter(data, it, m.it);
    } else {
      GetFixedReads(data, it);
      FixedReads(data, it);
    }
  }

  lemma TagKeepsCount(data: bytes, it: Cursor)
    requires Valid(data, it) && it.typ == TAG_TYPE && AdvanceInternal(data, it).err.NoError?
    requires AdvanceInternal(data, it).it.typ != INVALID_TYPE
    ensures AdvanceInternal(data, it).it.remaining == it.remaining
  {
  }

  lemma StringIsAfter(data: bytes, it: Cursor, q: nat)
    requires Valid(data, it) && it.typ != TAG_TYPE && q <= |data|
    ensures SameStep(PreparseNext(data, it.(ptr := q)), After(data, it, q))
  {
    NextIgnoresType(data, it.(ptr := q));
  }

  lemma {:induction false} ReadToEndIsSound(data: bytes, rec: Cursor)
    requires |data| <= SIZE_MAX && Inv(data, rec)
    requires ReadToEnd(data, rec).err.NoError? && AllEvenMaps(ReadToEnd(data, rec).items)
    ensures Members(data, rec, ReadToEnd(data, rec).items, ReadToEnd(data, rec).it.ptr)
    ensures AllFit(ReadToEnd(data, rec).items)
    decreases |data| - rec.ptr, 1
  {
    hide ParseItem, Preparse, ReadItem;
    if rec.remaining > 0 {
      var x := ReadItem(data, rec);
      var r := ReadToEnd(data, x.it);
      assert ([x.item] + r.items)[0] == x.item && ([x.item] + r.items)[1..] == r.items;
      ReadItemIsSound(data, rec);
      ReadToEndIsSound(data, x.it);
      var s := After(data, rec, ParseItem(data, rec.ptr).next);
      SameMembers(data, x.it, s.it, r.items, r.it.ptr);
      PrependMember(data, rec, x.item, r.items, r.it.ptr);
    }
  }

  lemma PrependMember(data: bytes, rec: Cursor, x: Item, xs: seq<Item>, q: nat)
    requires Valid(data, rec) && ParseItem(data, rec.ptr).Parsed? && ParseItem(data, rec.ptr).value == x
    requires After(data, rec, ParseItem(data, rec.ptr).next).err.NoError?
    requires Members(data, After(data, rec, ParseItem(data, rec.ptr).next).it, xs, q)
    ensures Members(data, rec, [x] + xs, q)
  {
    ItemIsNotBreak(data, rec.ptr);
    hide ParseItem;
    var p := ParseItem(data, rec.ptr);
    if rec.remaining == UINT32_MAX {
      assert ParseUntilBreak(data, p.next) == Parsed(xs, q);
    } else {
      assert ParseCount(data, p.next, rec.remaining - 1) == Parsed(xs, q);
    }
  }

  // A buffer read from its start is accepted exactly when it begins with a well-formed item
  // within the counter limits, and the item is then the one in the buffer.
  lemma ReaderAcceptsExactlyTheGrammar(data: bytes, x: Item)
    requires |data| <= SIZE_MAX && EvenMaps(x)
    ensures (ParserInit(data).err.NoError? && ReadItem(data, ParserInit(data).it).err.NoError? && ReadItem(data, ParserInit(data).it).item == x)
       <==> (ParseItem(data, 0).Parsed? && ParseItem(data, 0).value == x && Fits(x))
  {
    hide ParseItem, Preparse, ReadItem;
    var s := ParserInit(data);
    if ParseItem(data, 0).Parsed? && ParseItem(data, 0).value == x && Fits(x) {
      PreparseItem(data, Cursor(0, 1, 0, INVALID_TYPE, NO_FLAGS));
      ReadItemReads(data, s.it);
    }
    if s.err.NoError? && ReadItem(data, s.it).err.NoError? && ReadItem(data, s.it).item == x {
      ReadItemIsSound(data, s.it);
    }
  }

  // Two inputs outside the grammar: a map of one key and no value, which the reader takes, and a tag
  // in front of a break, which cbor_value_advance takes and the reader refuses.
  lemma LenientInputs()
    ensures var odd := [0xBF, 0x00, 0xFF];
            ParseItem(odd, 0).Malformed? && ReadItem(odd, ParserInit(odd).it) ==
                                            Read(NoError, Map(true, [Integer(false, 0)]), ReadItem(odd, ParserInit(odd).it).it)
    ensures var dangling := [0x9F, 0xC1, 0xFF];
            ParseItem(dangling, 0).Malformed? && Advance(dangling, ParserInit(dangling).it).err.NoError?
            && ReadItem(dangling, ParserInit(dangling).it).err.UnexpectedBreak?
  {
    OddMap([0xBF, 0x00, 0xFF]);
    DanglingTag([0x9F, 0xC1, 0xFF]);
  }

  lemma OddMap(data: bytes)
    requires data == [0xBF, 0x00, 0xFF]
    ensures ParseItem(data, 0).Malformed?
    ensures ReadItem(data, ParserInit(data).it) == Read(NoError, Map(true, [Integer(false, 0)]), ReadItem(data, ParserInit(data).it).it)
  {
    OddMapIsMalformed(data);
    var it := ParserInit(data).it;
    assert it.typ == MAP_TYPE && it.flags.unknownLength;
    var rec := EnterContainer(data, it).it;
    assert EnterContainer(data, it).err.NoError? && rec.ptr == 1 && rec.remaining == UINT32_MAX && rec.typ == INTEGER_TYPE;
    OddMapMembers(data, rec);
    hide ReadToEnd, EnterContainer, ParseItem;
  }

  lemma OddMapIsMalformed(data: bytes)
    requires data == [0xBF, 0x00, 0xFF]
    ensures ParseItem(data, 0).Malformed?
  {
    assert ParseUntilBreak(data, 2) == Parsed([], 3);
    assert ParseItem(data, 1) == Parsed(Integer(false, 0), 2);
    assert data[1] != BREAK_BYTE && [Integer(false, 0)] + [] == [Integer(false, 0)];
    assert ParseUntilBreak(data, 1) == Parsed([Integer(false, 0)], 3);
  }

  lemma OddMapMembers(data: bytes, rec: Cursor)
    requires data == [0xBF, 0x00, 0xFF] && Valid(data, rec) && rec.ptr == 1 && rec.remaining == UINT32_MAX && rec.typ == INTEGER_TYPE
    ensures ReadToEnd(data, rec).err.NoError? && ReadToEnd(data, rec).items == [Integer(false, 0)] && ReadToEnd(data, rec).it.ptr == 3
  {
    var x := ReadItem(data, rec);
    assert x.err.NoError? && x.item == Integer(false, 0) && x.it.remaining == 0 && x.it.ptr == 3;
    assert ReadToEnd(data, x.it) == ReadAll(NoError, [], x.it);
    assert [x.item] + [] == [x.item];
  }

  lemma DanglingTag(data: bytes)
    requires data == [0x9F, 0xC1, 0xFF]
    ensures ParseItem(data, 0).Malformed? && Advance(data, ParserInit(data).it).err.NoError?
    ensures ReadItem(data, ParserInit(data).it).err.UnexpectedBreak?
  {
    assert ParseItem(data, 2).Malformed?;
    assert ParseItem(data, 1).Malformed?;
    assert ParseUntilBreak(data, 1).Malformed?;
    var it := ParserInit(data).it;
    var rec := EnterContainer(data, it).it;
    var s := AdvanceInternal(data, rec);
    assert s.it.remaining == 0 && s.it.ptr == 3;
    assert AdvanceRecursive(data, rec, 1) == s;
    assert AdvanceToEnd(data, s.it, 0) == Step(NoError, s.it);
    assert AdvanceToEnd(data, rec, 0) == Step(NoError, s.it);
    assert ReadItem(data, rec).err.UnexpectedBreak?;
    assert ReadToEnd(data, rec).err.UnexpectedBreak?;
  }
}
