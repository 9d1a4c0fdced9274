/**
 The state of a CborValue iterator and the specification of every operation that
 moves it, as functions from one state to the next.  The methods of CborParser
 are proved to compute these functions in place.
 */
module CborCursor {
  import opened Bytes
  import opened CborNumber
  import opened CborGrammar

  const INTEGER_TYPE := 0x00
  const BYTE_STRING_TYPE := 0x40
  const TEXT_STRING_TYPE := 0x60
  const ARRAY_TYPE := 0x80
  const MAP_TYPE := 0xA0
  const TAG_TYPE := 0xC0
  const SIMPLE_TYPE := 0xE0
  const BOOLEAN_TYPE := 0xF5
  const NULL_TYPE := 0xF6
  const UNDEFINED_TYPE := 0xF7
  const HALF_FLOAT_TYPE := 0xF9
  const FLOAT_TYPE := 0xFA
  const DOUBLE_TYPE := 0xFB
  const INVALID_TYPE := 0xFF

  const MAX_RECURSIONS := 1024

  datatype Flags = Flags(tooLarge: bool, negative: bool, unknownLength: bool)

  const NO_FLAGS := Flags(false, false, false)

  datatype Cursor = Cursor(ptr: nat, remaining: nat, extra: nat, typ: nat, flags: Flags)

  datatype Step = Step(err: Error, it: Cursor)

  predicate IsString(typ: nat) { typ == BYTE_STRING_TYPE || typ == TEXT_STRING_TYPE }

  predicate IsContainer(typ: nat) { typ == ARRAY_TYPE || typ == MAP_TYPE }

  predicate IsFixed(typ: nat) { !IsString(typ) && !IsContainer(typ) }

  // preparse_value: decodes the initial byte under the cursor.
  function Preparse(data: bytes, it: Cursor): (r: Step)
    requires it.ptr <= |data|
    ensures r.it.ptr == it.ptr && r.it.remaining == it.remaining
    ensures r.err.NoError? ==> it.ptr < |data| && r.it.typ != INVALID_TYPE && data[it.ptr] != BREAK_BYTE
    ensures it.ptr == |data| <==> r == Step(UnexpectedEOF, it.(typ := INVALID_TYPE))
    ensures r.err.UnexpectedBreak? <==> it.ptr < |data| && data[it.ptr] == BREAK_BYTE
  {
    if it.ptr == |data| then Step(UnexpectedEOF, it.(typ := INVALID_TYPE))
    else
      var major, info := data[it.ptr] / 32, data[it.ptr] % 32;
      var head := it.(typ := 32 * major, flags := NO_FLAGS, extra := info);
      if info > VALUE_64BIT then
        if info != INDEFINITE then Step(if major == SIMPLE then UnknownType else IllegalNumber, head)
        else if BYTE_STRING <= major <= MAP then Step(NoError, head.(flags := NO_FLAGS.(unknownLength := true)))
        else Step(if major == SIMPLE then UnexpectedBreak else IllegalNumber, head)
      else if ArgBytes(info) + 1 > |data| - it.ptr then Step(UnexpectedEOF, head)
      else if major == SIMPLE then PreparseSimple(data, it.ptr, head)
      else
        var neg := major == NEGATIVE;
        var typ := if neg then INTEGER_TYPE else 32 * major;
        if info <= 25 then
          Step(NoError, head.(typ := typ, flags := Flags(false, neg, false), extra := ExtractNumber(data, it.ptr, |data|).value))
        else
          Step(NoError, head.(typ := typ, flags := Flags(true, neg, false)))
  }

  function PreparseSimple(data: bytes, p: nat, head: Cursor): (r: Step)
    requires p < |data| && data[p] / 32 == SIMPLE && data[p] % 32 <= VALUE_64BIT
    requires p + 1 + ArgBytes(data[p] % 32) <= |data|
    requires head.typ == SIMPLE_TYPE
    ensures r.it.ptr == head.ptr && r.it.remaining == head.remaining
    ensures r.err.NoError? || r.err.IllegalSimpleType?
    ensures r.err.NoError? ==> r.it.typ != INVALID_TYPE
  {
    var info := data[p] % 32;
    if info < 20 then Step(NoError, head)
    else if info == 20 then Step(NoError, head.(extra := 0, typ := BOOLEAN_TYPE))
    else if info == 24 then
      if data[p + 1] < 32 then Step(IllegalSimpleType, head.(extra := data[p + 1], typ := INVALID_TYPE))
      else Step(NoError, head.(extra := data[p + 1]))
    else Step(NoError, head.(typ := data[p], flags := NO_FLAGS.(tooLarge := info > 25)))
  }

  // What every successful operation leaves behind: an iterator is exhausted exactly when its
  // type is invalid, and otherwise holds the complete, decoded initial byte it points at.
  ghost predicate Inv(data: bytes, it: Cursor) {
    && it.ptr <= |data|
    && it.remaining <= UINT32_MAX
    && (it.remaining == 0 <==> it.typ == INVALID_TYPE)
    && (it.typ != INVALID_TYPE ==> Preparse(data, it) == Step(NoError, it))
  }

  ghost predicate Valid(data: bytes, it: Cursor) {
    Inv(data, it) && it.typ != INVALID_TYPE
  }

  // A valid cursor is determined by its position and count.
  lemma PreparseIgnoresDecoded(data: bytes, it: Cursor, it': Cursor)
    requires it.ptr == it'.ptr <= |data| && it.remaining == it'.remaining
    requires it.ptr < |data|
    ensures Preparse(data, it) == Preparse(data, it')
  {
  }

  lemma ValidUnique(data: bytes, it: Cursor, it': Cursor)
    requires Valid(data, it) && Valid(data, it') && it.ptr == it'.ptr && it.remaining == it'.remaining
    ensures it == it'
  {
    PreparseIgnoresDecoded(data, it, it');
  }

  // preparse_next_value: the current item ends at it.ptr.
  function PreparseNext(data: bytes, it: Cursor): (r: Step)
    requires it.ptr <= |data| && 0 < it.remaining <= UINT32_MAX
    ensures r.err.NoError? ==> Inv(data, r.it) && it.ptr <= r.it.ptr <= it.ptr + 1
  {
    if it.remaining != UINT32_MAX then
      if it.typ != TAG_TYPE && it.remaining == 1 then Step(NoError, it.(remaining := 0, typ := INVALID_TYPE))
      else Preparse(data, if it.typ == TAG_TYPE then it else it.(remaining := it.remaining - 1))
    else if it.ptr < |data| && data[it.ptr] == BREAK_BYTE then
      Step(NoError, it.(ptr := it.ptr + 1, typ := INVALID_TYPE, remaining := 0))
    else Preparse(data, it)
  }

  // cbor_parser_init
  function ParserInit(data: bytes): (r: Step)
    ensures r.err.NoError? ==> Valid(data, r.it) && r.it.ptr == 0 && r.it.remaining == 1
  {
    Preparse(data, Cursor(0, 1, 0, INVALID_TYPE, NO_FLAGS))
  }

  // The initial byte of a valid item of definite form has its whole argument in the buffer.
  lemma HeadComplete(data: bytes, it: Cursor)
    requires Valid(data, it) && !it.flags.unknownLength
    ensures ExtractNumber(data, it.ptr, |data|).err.NoError?
  {
  }

  lemma HeadCompleteIf(data: bytes, it: Cursor)
    requires Valid(data, it)
    ensures !it.flags.unknownLength ==> ExtractNumber(data, it.ptr, |data|).err.NoError?
  {
    if !it.flags.unknownLength { HeadComplete(data, it); }
  }

  // advance_internal, on the fixed types its callers pass.
  function AdvanceInternal(data: bytes, it: Cursor): (r: Step)
    requires Valid(data, it) && IsFixed(it.typ)
    ensures r.err.NoError? ==> Inv(data, r.it) && it.ptr < r.it.ptr
  {
    HeadComplete(data, it);
    PreparseNext(data, it.(ptr := ExtractNumber(data, it.ptr, |data|).next))
  }

  // cbor_value_enter_container
  function EnterContainer(data: bytes, it: Cursor): (r: Step)
    requires Valid(data, it) && IsContainer(it.typ)
    ensures r.err.NoError? ==> Inv(data, r.it) && it.ptr < r.it.ptr
  {
    if it.flags.unknownLength then
      var s := Preparse(data, it.(remaining := UINT32_MAX, ptr := it.ptr + 1));
      if s.err.UnexpectedBreak? then Step(NoError, s.it.(ptr := it.ptr + 2, typ := INVALID_TYPE, remaining := 0))
      else s
    else
      var n := ExtractNumber(data, it.ptr, |data|);
      HeadComplete(data, it);
      if n.value >= UINT32_MAX || (it.typ == MAP_TYPE && n.value > UINT32_MAX / 2) then
        Step(DataTooLarge, it.(remaining := n.value % 0x1_0000_0000))
      else
        var count := if it.typ == MAP_TYPE then 2 * n.value else n.value;
        var rec := it.(ptr := n.next, remaining := count);
        if n.value != 0 then Preparse(data, rec) else Step(NoError, rec.(typ := INVALID_TYPE, remaining := 0))
  }

  lemma EnterCases(data: bytes, it: Cursor)
    requires Valid(data, it) && IsContainer(it.typ)
    ensures var r := EnterContainer(data, it);
            if it.flags.unknownLength then
              && it.ptr < |data|
              && var s := Preparse(data, it.(remaining := UINT32_MAX, ptr := it.ptr + 1));
                 r == if s.err.UnexpectedBreak? then Step(NoError, s.it.(ptr := it.ptr + 2, typ := INVALID_TYPE, remaining := 0)) else s
            else
              && it.ptr < |data| && ExtractNumber(data, it.ptr, |data|).err == NoError
              && var n := ExtractNumber(data, it.ptr, |data|);
                 var rec := it.(ptr := n.next, remaining := if it.typ == MAP_TYPE then 2 * n.value else n.value);
                 r == if n.value >= UINT32_MAX || (it.typ == MAP_TYPE && n.value > UINT32_MAX / 2) then
                        Step(DataTooLarge, it.(remaining := n.value % 0x1_0000_0000))
                      else if n.value != 0 then Preparse(data, rec)
                      else Step(NoError, rec.(typ := INVALID_TYPE, remaining := 0))
  {
    HeadCompleteIf(data, it);
    hide Preparse, ExtractNumber;
  }

  // cbor_value_leave_container
  function LeaveContainer(data: bytes, it: Cursor, recursed: Cursor): (r: Step)
    requires Valid(data, it) && IsContainer(it.typ)
    requires Inv(data, recursed) && recursed.typ == INVALID_TYPE && it.ptr < recursed.ptr
    ensures r.err.NoError? ==> Inv(data, r.it) && it.ptr < r.it.ptr
  {
    PreparseNext(data, it.(ptr := recursed.ptr))
  }

  datatype Scan = Scan(err: Error, s: bytes, next: nat)

  datatype Chunk = BadChunk(err: Error) | LastChunk | Chunk(start: nat, len: nat)

  // The chunk at p of an indefinite-length string, `total` octets having been seen before.
  function ChunkAt(data: bytes, p: nat, typ: nat, total: nat): (r: Chunk)
    requires p <= |data|
    ensures r.BadChunk? ==> !r.err.NoError?
    ensures r.LastChunk? <==> p < |data| && data[p] == BREAK_BYTE
    ensures r.Chunk? ==> p < r.start && r.start + r.len <= |data| && total + r.len <= SIZE_MAX
  {
    if p == |data| then BadChunk(UnexpectedEOF)
    else if data[p] == BREAK_BYTE then LastChunk
    else if data[p] / 32 * 32 != typ then BadChunk(IllegalType)
    else
      var n := ExtractNumber(data, p, |data|);
      if !n.err.NoError? then BadChunk(n.err)
      else if total + n.value > SIZE_MAX then BadChunk(DataTooLarge)
      else if n.value > |data| - n.next then BadChunk(UnexpectedEOF)
      else Chunk(n.next, n.value)
  }

  // All chunks from p on: their concatenation and the position after the break.
  function ScanChunks(data: bytes, p: nat, typ: nat, total: nat): (r: Scan)
    requires p <= |data|
    ensures r.err.NoError? ==> p < r.next <= |data| && total + |r.s| <= (if total <= SIZE_MAX then SIZE_MAX else total)
    decreases |data| - p
  {
    match ChunkAt(data, p, typ, total)
    case BadChunk(err) => Scan(err, [], p)
    case LastChunk => Scan(NoError, [], p + 1)
    case Chunk(start, len) =>
      var r := ScanChunks(data, start + len, typ, total + len);
      if r.err.NoError? then Scan(NoError, data[start..start + len] + r.s, r.next) else r
  }

  // The contents of the string under the cursor and the position after it.
  function ScanString(data: bytes, it: Cursor): (r: Scan)
    requires Valid(data, it) && IsString(it.typ)
    ensures r.err.NoError? ==> it.ptr < r.next <= |data| && |r.s| <= SIZE_MAX
  {
    if it.flags.unknownLength then ScanChunks(data, it.ptr + 1, it.typ, 0)
    else
      HeadComplete(data, it);
      var n := ExtractNumber(data, it.ptr, |data|);
      if n.value > |data| - n.next then Scan(UnexpectedEOF, [], it.ptr)
      else Scan(NoError, data[n.next..n.next + n.value], n.next + n.value)
  }

  lemma ScanFixed(data: bytes, it: Cursor)
    requires Valid(data, it) && IsString(it.typ) && !it.flags.unknownLength
    ensures it.ptr < |data| && ExtractNumber(data, it.ptr, |data|).err.NoError?
    ensures var n := ExtractNumber(data, it.ptr, |data|);
            ScanString(data, it) ==
            if n.value > |data| - n.next then Scan(UnexpectedEOF, [], it.ptr)
            else Scan(NoError, data[n.next..n.next + n.value], n.next + n.value)
  {
    HeadComplete(data, it);
    hide Preparse, ExtractNumber;
  }

  // Moving past a string: _cbor_value_copy_string with no buffer.
  function SkipString(data: bytes, it: Cursor): (r: Step)
    requires Valid(data, it) && IsString(it.typ)
    ensures r.err.NoError? ==> Inv(data, r.it) && it.ptr < r.it.ptr
  {
    var s := ScanString(data, it);
    if s.err.NoError? then PreparseNext(data, it.(ptr := s.next)) else Step(s.err, it)
  }

  // advance_recursive
  function AdvanceRecursive(data: bytes, it: Cursor, level: nat): (r: Step)
    requires Valid(data, it)
    ensures r.err.NoError? ==> Inv(data, r.it) && it.ptr < r.it.ptr
    decreases |data| - it.ptr, 0
  {
    if IsFixed(it.typ) then AdvanceInternal(data, it)
    else if IsString(it.typ) then SkipString(data, it)
    else if level == MAX_RECURSIONS then Step(NestingTooDeep, it)
    else
      var e := EnterContainer(data, it);
      if !e.err.NoError? then Step(e.err, it)
      else
        var m := AdvanceToEnd(data, e.it, level);
        if !m.err.NoError? then Step(m.err, it) else LeaveContainer(data, it, m.it)
  }

  // The loop of advance_recursive: moves past every item left in a container.
  function AdvanceToEnd(data: bytes, rec: Cursor, level: nat): (r: Step)
    requires Inv(data, rec)
    ensures r.err.NoError? ==> Inv(data, r.it) && r.it.typ == INVALID_TYPE && rec.ptr <= r.it.ptr
    decreases |data| - rec.ptr, 1
  {
    if rec.remaining == 0 then Step(NoError, rec)
    else
      var s := AdvanceRecursive(data, rec, level + 1);
      if s.err.NoError? then AdvanceToEnd(data, s.it, level) else s
  }

  // cbor_value_advance
  function Advance(data: bytes, it: Cursor): (r: Step)
    requires Valid(data, it)
    ensures r.err.NoError? ==> Inv(data, r.it) && it.ptr < r.it.ptr
  {
    AdvanceRecursive(data, it, 0)
  }

  // cbor_value_skip_tag
  function SkipTag(data: bytes, it: Cursor): (r: Step)
    requires Inv(data, it)
    ensures r.err.NoError? ==> Inv(data, r.it) && it.ptr <= r.it.ptr && r.it.typ != TAG_TYPE
    decreases |data| - it.ptr
  {
    if it.typ != TAG_TYPE then Step(NoError, it)
    else
      var s := AdvanceInternal(data, it);
      if s.err.NoError? then SkipTag(data, s.it) else s
  }

  // _cbor_value_extract_int64_helper: the argument, cached in 16 bits or decoded again.
  function ExtractInt64(data: bytes, it: Cursor): (v: nat)
    requires Valid(data, it) && !it.flags.unknownLength
    ensures v <= UINT64_MAX
  {
    HeadComplete(data, it);
    if it.flags.tooLarge then ExtractNumber(data, it.ptr, |data|).value else it.extra
  }

  // Whatever its width, the argument the getters return is the one in the stream.
  lemma ExtractInt64IsArgument(data: bytes, it: Cursor)
    requires Valid(data, it) && !it.flags.unknownLength && data[it.ptr] / 32 != SIMPLE
    ensures ExtractNumber(data, it.ptr, |data|).err.NoError?
    ensures ExtractInt64(data, it) == ExtractNumber(data, it.ptr, |data|).value
  {
  }
}
