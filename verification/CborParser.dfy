/**
 The CborValue iterator as the parser mutates it, every method proved against the
 state functions of CborCursor.
 */
module CborParser {
  import opened Bytes
  import opened CborNumber
  import opened CborCursor
  import opened CborStrings

  datatype IterateFunction = Noop | Copy | Compare

  // The memory `func` may touch: room for buflen octets, or a NUL-terminated string of that length.
  ghost predicate Window(func: IterateFunction, dst: array?<byte>, base: nat, buflen: nat)
    reads dst
  {
    match func
    case Noop => true
    case Copy => dst != null && base + buflen <= dst.Length
    case Compare =>
      && dst != null && base + buflen < dst.Length && dst[base + buflen] == 0
      && forall k :: base <= k < base + buflen ==> dst[k] != 0
  }

  lemma SplitEqual(s: bytes, base: nat, a: bytes, b: bytes)
    requires base + |a| + |b| <= |s|
    ensures s[base..base + |a| + |b|] == a + b <==> s[base..base + |a|] == a && s[base + |a|..base + |a| + |b|] == b
  {
    var w := s[base..base + |a| + |b|];
    assert w[..|a|] == s[base..base + |a|] && w[|a|..] == s[base + |a|..base + |a| + |b|];
    if w == a + b {
      assert w[..|a|] == a && w[|a|..] == b;
    }
  }

  class CborValue {
    var buffer: bytes
    var ptr: nat
    var remaining: nat
    var extra: nat
    var typ: nat
    var flags: Flags

    constructor ()
      ensures fresh(this)
    {
      buffer, ptr, remaining, extra, typ, flags := [], 0, 0, 0, INVALID_TYPE, NO_FLAGS;
    }

    ghost function State(): Cursor
      reads this
    {
      Cursor(ptr, remaining, extra, typ, flags)
    }

    predicate AtEnd()
      reads this
    {
      remaining == 0
    }

    // *this = *other
    method CopyFrom(other: CborValue)
      modifies this
      ensures State() == old(other.State()) && buffer == old(other.buffer)
    {
      buffer, ptr, remaining := other.buffer, other.ptr, other.remaining;
      extra, typ, flags := other.extra, other.typ, other.flags;
    }

    // cbor_parser_init
    method ParserInit(data: bytes) returns (err: Error)
      modifies this
      ensures buffer == data
      ensures err == CborCursor.ParserInit(data).err
      ensures err.NoError? ==> State() == CborCursor.ParserInit(data).it
    {
      buffer := data;
      ptr := 0;
      remaining := 1;
      err := PreparseValue();
      if err.NoError? {
        PreparseIgnoresDecoded(data, old(State()).(ptr := 0, remaining := 1), Cursor(0, 1, 0, INVALID_TYPE, NO_FLAGS));
      }
    }

    // preparse_value
    method PreparseValue() returns (err: Error)
      requires ptr <= |buffer|
      modifies this`typ, this`flags, this`extra
      ensures Step(err, State()) == Preparse(buffer, old(State()))
    {
      hide ExtractNumber, FromBE, Octets, PreparseSimple;
      if ptr < |buffer| { OctetsBehind(buffer, ptr, |buffer|); }
      if ptr + 3 <= |buffer| { SliceOctets(buffer, ptr + 1, 2); }
      typ := INVALID_TYPE;
      if ptr == |buffer| { return UnexpectedEOF; }

      var descriptor := buffer[ptr];
      var major := descriptor / 32;
      typ := 32 * major;
      flags := NO_FLAGS;
      descriptor := descriptor % 32;
      extra := descriptor;

      if descriptor > VALUE_64BIT {
        if descriptor != INDEFINITE {
          return if typ == SIMPLE_TYPE then UnknownType else IllegalNumber;
        }
        if !IsFixed(typ) {
          flags := flags.(unknownLength := true);
          return NoError;
        }
        return if typ == SIMPLE_TYPE then UnexpectedBreak else IllegalNumber;
      }

      var bytesNeeded := ArgBytes(descriptor);
      if bytesNeeded + 1 > |buffer| - ptr { return UnexpectedEOF; }

      if major == NEGATIVE {
        flags := flags.(negative := true);
        typ := INTEGER_TYPE;
      } else if major == SIMPLE {
        err := PreparseSimpleValue(descriptor);
        return;
      }

      // try to decode up to 16 bits
      if descriptor < VALUE_8BIT { return NoError; }
      if descriptor == VALUE_8BIT {
        extra := buffer[ptr + 1];
      } else if descriptor == 25 {
        extra := FromBE(buffer[ptr + 1..ptr + 3]);
      } else {
        flags := flags.(tooLarge := true);
      }
      return NoError;
    }

    // Its branch for simple values and floating-point numbers.
    method PreparseSimpleValue(descriptor: nat) returns (err: Error)
      requires ptr < |buffer| && buffer[ptr] / 32 == SIMPLE && descriptor == buffer[ptr] % 32 <= VALUE_64BIT
      requires ptr + 1 + ArgBytes(descriptor) <= |buffer| && typ == SIMPLE_TYPE && flags == NO_FLAGS && extra == descriptor
      modifies this`typ, this`flags, this`extra
      ensures Step(err, State()) == PreparseSimple(buffer, ptr, old(State()))
    {
      if descriptor == 20 {
        extra := 0;
        typ := BOOLEAN_TYPE;
      } else if descriptor == 26 || descriptor == 27 {
        flags := flags.(tooLarge := true);
        typ := buffer[ptr];
      } else if 21 <= descriptor <= 23 || descriptor == 25 {
        typ := buffer[ptr];
      } else if descriptor == 24 {
        extra := buffer[ptr + 1];
        if extra < 32 {
          typ := INVALID_TYPE;
          return IllegalSimpleType;
        }
      }
      return NoError;
    }

    // preparse_next_value
    method PreparseNextValue() returns (err: Error)
      requires ptr <= |buffer| && 0 < remaining <= UINT32_MAX
      modifies this
      ensures buffer == old(buffer)
      ensures Step(err, State()) == PreparseNext(buffer, old(State()))
    {
      if remaining != UINT32_MAX {
        if typ != TAG_TYPE {
          remaining := remaining - 1;
          if remaining == 0 {
            typ := INVALID_TYPE;
            return NoError;
          }
        }
      } else if ptr != |buffer| && buffer[ptr] == BREAK_BYTE {
        ptr := ptr + 1;
        typ := INVALID_TYPE;
        remaining := 0;
        return NoError;
      }
      err := PreparseValue();
    }

    // advance_internal
    method AdvanceInternal() returns (err: Error)
      requires Valid(buffer, State()) && IsFixed(typ)
      modifies this
      ensures buffer == old(buffer)
      ensures Step(err, State()) == CborCursor.AdvanceInternal(buffer, old(State()))
    {
      HeadComplete(buffer, State());
      var n := ExtractNumber(buffer, ptr, |buffer|);
      assert n.err == NoError;
      ptr := n.next;
      err := PreparseNextValue();
    }

    // cbor_value_advance_fixed
    method AdvanceFixed() returns (err: Error)
      requires Valid(buffer, State()) && IsFixed(typ)
      modifies this
      ensures buffer == old(buffer)
      ensures Step(err, State()) == CborCursor.AdvanceInternal(buffer, old(State()))
    {
      if remaining == 0 { return AdvancePastEOF; }
      err := AdvanceInternal();
    }

    // cbor_value_skip_tag
    method SkipTag() returns (err: Error)
      requires Inv(buffer, State())
      modifies this
      ensures buffer == old(buffer)
      ensures Step(err, State()) == CborCursor.SkipTag(buffer, old(State()))
    {
      while typ == TAG_TYPE
        invariant buffer == old(buffer) && Inv(buffer, State())
        invariant CborCursor.SkipTag(buffer, State()) == CborCursor.SkipTag(buffer, old(State()))
        decreases |buffer| - ptr
      {
        err := AdvanceFixed();
        if !err.NoError? { return; }
      }
      err := NoError;
    }

    // The declared length, for a copy of the container's iterator: it moves behind the head and
    // counts the members, or stays where it is because they are too many.
    method ReadCount() returns (ok: bool)
      requires ptr < |buffer| && ExtractNumber(buffer, ptr, |buffer|).err == NoError
      modifies this`ptr, this`remaining
      ensures var n := ExtractNumber(buffer, old(ptr), |buffer|);
              && (ok <==> n.value < UINT32_MAX && (typ == MAP_TYPE ==> n.value <= UINT32_MAX / 2))
              && if ok then ptr == n.next && remaining == (if typ == MAP_TYPE then 2 * n.value else n.value)
                 else ptr == old(ptr) && remaining == n.value % 0x1_0000_0000
    {
      hide ExtractNumber;
      var start := ptr;
      var len := ExtractNumber(buffer, ptr, |buffer|);
      ptr := len.next;
      remaining := len.value % 0x1_0000_0000;
      if remaining != len.value || len.value == UINT32_MAX {
        ptr := start;
        return false;
      }
      if typ == MAP_TYPE {
        if remaining > UINT32_MAX / 2 {
          ptr := start;
          return false;
        }
        remaining := remaining * 2;
      }
      ok := true;
    }

    // cbor_value_enter_container
    method EnterContainer(recursed: CborValue) returns (err: Error)
      requires recursed != this
      requires Valid(buffer, State()) && IsContainer(typ)
      modifies recursed
      ensures Step(err, recursed.State()) == CborCursor.EnterContainer(buffer, State()) && recursed.buffer == buffer
    {
      EnterCases(buffer, State());
      hide Preparse, ExtractNumber, CborCursor.EnterContainer, Valid, Inv;
      recursed.CopyFrom(this);
      if flags.unknownLength {
        recursed.remaining := UINT32_MAX;
        recursed.ptr := recursed.ptr + 1;
        err := recursed.PreparseValue();
        if !err.UnexpectedBreak? { return; }
        // a break is expected here: the container is just empty
        recursed.ptr := recursed.ptr + 1;
      } else {
        var ok := recursed.ReadCount();
        if !ok { return DataTooLarge; }
        if recursed.remaining != 0 {
          err := recursed.PreparseValue();
          return;
        }
      }
      recursed.typ := INVALID_TYPE;
      recursed.remaining := 0;
      return NoError;
    }

    // cbor_value_leave_container
    method LeaveContainer(recursed: CborValue) returns (err: Error)
      requires recursed != this
      requires Valid(buffer, State()) && IsContainer(typ)
      requires recursed.buffer == buffer && Inv(buffer, recursed.State())
      requires recursed.typ == INVALID_TYPE && ptr < recursed.ptr
      modifies this
      ensures buffer == old(buffer)
      ensures Step(err, State()) == CborCursor.LeaveContainer(buffer, old(State()), recursed.State())
    {
      ptr := recursed.ptr;
      err := PreparseNextValue();
    }

    // The function handed every piece of a string: nothing, memcpy or memcmp.
    static method Visit(func: IterateFunction, dst: array?<byte>, off: nat, src: bytes) returns (ok: bool)
      requires !func.Noop? ==> dst != null && off + |src| <= dst.Length
      modifies if func.Copy? then {dst} else {}
      ensures func.Copy? ==> dst[..] == Overwrite(old(dst[..]), off, src)
      ensures ok == (func.Compare? ==> dst[off..off + |src|] == src)
    {
      match func
      case Noop => ok := true;
      case Copy =>
        forall k | 0 <= k < |src| { dst[off + k] := src[k]; }
        ok := true;
      case Compare => ok := dst[off..off + |src|] == src;
    }

    // One chunk behind the `total` octets in `seen`: visited only when all so far was, and it fits.
    static method VisitChunk(func: IterateFunction, dst: array?<byte>, base: nat, buflen: nat, total: nat, result: bool,
                             chunk: bytes, ghost seen: bytes)
      returns (r: bool)
      requires Window(func, dst, base, buflen) && total == |seen|
      requires result <==> total <= buflen && (func.Compare? ==> dst[base..base + total] == seen)
      modifies if func.Copy? then {dst} else {}
      ensures r <==> total + |chunk| <= buflen && (func.Compare? ==> dst[base..base + total + |chunk|] == seen + chunk)
      ensures func.Copy? ==> dst[..] == if r then Overwrite(old(dst[..]), base + total, chunk) else old(dst[..])
    {
      hide Overwrite;
      if func.Compare? && total + |chunk| <= buflen { SplitEqual(dst[..], base, seen, chunk); }
      if result && buflen >= total + |chunk| {
        r := Visit(func, dst, base + total, chunk);
      } else {
        r := false;
      }
    }

    // The chunked branch of iterate_string_chunks, up to and including the break.
    method VisitChunks(func: IterateFunction, dst: array?<byte>, base: nat, buflen: nat)
      returns (err: Error, total: nat, result: bool, p: nat)
      requires Valid(buffer, State()) && IsString(typ) && flags.unknownLength && buflen <= SIZE_MAX
      requires Window(func, dst, base, buflen)
      modifies if func.Copy? then {dst} else {}
      ensures var sc := ScanChunks(buffer, ptr + 1, typ, 0);
              if sc.err.NoError? then
                && err == NoError && total == |sc.s| && p == sc.next
                && (result <==> total <= buflen && (func.Compare? ==> dst[base..base + total] == sc.s))
              else err == sc.err
      ensures func.Copy? ==> dst[..] == Overwrite(old(dst[..]), base, Fitting(buffer, ptr + 1, typ, 0, buflen))
    {
      hide Preparse, ChunkAt, ScanChunks, Fitting, FittingFrom, Scanned, Overwrite;
      ghost var start, before := ptr + 1, if func.Copy? then dst[..] else [];
      ScannedStarts(buffer, start, typ, buflen);
      if func.Copy? { OverwriteNothing(before, base); }
      total, result, p := 0, true, ptr + 1;
      ghost var seen: bytes, done: bytes := [], [];
      while true
        invariant p <= |buffer| && total == |seen| && |done| <= buflen && (total <= buflen ==> done == seen)
        invariant Scanned(buffer, start, typ, buflen, p, seen, done)
        invariant result <==> total <= buflen && (func.Compare? ==> dst[base..base + total] == seen)
        invariant func.Copy? ==> dst[..] == Overwrite(before, base, done)
        decreases |buffer| - p
      {
        var c := ChunkAt(buffer, p, typ, total);
        if !c.Chunk? {
          ScannedStops(buffer, start, typ, buflen, p, seen, done);
          return if c.LastChunk? then NoError else c.err, total, result, p + 1;
        }
        var chunk := buffer[c.start..c.start + c.len];
        ScannedStep(buffer, start, typ, buflen, p, seen, done);
        if func.Copy? && total + c.len <= buflen { OverwriteTwice(before, base, seen, chunk); }
        result := VisitChunk(func, dst, base, buflen, total, result, chunk, seen);
        if total + c.len <= buflen { done := done + chunk; }
        seen := seen + chunk;
        p, total := c.start + c.len, total + c.len;
      }
    }

    // The fixed-length branch of iterate_string_chunks.
    method VisitFixed(func: IterateFunction, dst: array?<byte>, base: nat, buflen: nat)
      returns (err: Error, total: nat, result: bool, p: nat)
      requires Valid(buffer, State()) && IsString(typ) && !flags.unknownLength && buflen <= SIZE_MAX
      requires Window(func, dst, base, buflen)
      modifies if func.Copy? then {dst} else {}
      ensures var sc := ScanString(buffer, State());
              if sc.err.NoError? then
                && err == NoError && total == |sc.s| && p == sc.next
                && (result <==> total <= buflen && (func.Compare? ==> dst[base..base + total] == sc.s))
              else err == sc.err
      ensures func.Copy? ==> dst[..] == Overwrite(old(dst[..]), base, Stored(buffer, State(), buflen))
    {
      HeadComplete(buffer, State());
      ScanFixed(buffer, State());
      hide Preparse, ExtractNumber, Overwrite, ScanString, Valid, Inv;
      var n := ExtractNumber(buffer, ptr, |buffer|);
      err, total, p, result := NoError, n.value, n.next, false;
      if total > |buffer| - p { return UnexpectedEOF, total, result, p; }
      if total <= buflen { result := Visit(func, dst, base, buffer[p..p + total]); }
      p := p + total;
    }

    // Is there enough room for the ending NUL byte?
    static method VisitNul(func: IterateFunction, dst: array?<byte>, base: nat, buflen: nat, total: nat, result: bool, ghost s: bytes)
      returns (r: bool)
      requires Window(func, dst, base, buflen) && total == |s|
      requires result <==> total <= buflen && (func.Compare? ==> dst[base..base + total] == s)
      modifies if func.Copy? then {dst} else {}
      ensures r <==> if func.Compare? then dst[base..base + buflen] == s else total <= buflen
      ensures func.Copy? ==> dst[..] == if total < buflen then Overwrite(old(dst[..]), base + total, [0]) else old(dst[..])
    {
      hide Overwrite;
      r := result;
      if result && buflen > total {
        r := Visit(func, dst, base + total, [0]);
      }
    }

    // All of the string.
    method VisitContents(func: IterateFunction, dst: array?<byte>, base: nat, buflen: nat)
      returns (err: Error, total: nat, result: bool, p: nat)
      requires Valid(buffer, State()) && IsString(typ) && buflen <= SIZE_MAX
      requires Window(func, dst, base, buflen)
      modifies if func.Copy? then {dst} else {}
      ensures var sc := ScanString(buffer, State());
              if sc.err.NoError? then
                && err == NoError && total == |sc.s| && p == sc.next
                && (result <==> total <= buflen && (func.Compare? ==> dst[base..base + total] == sc.s))
              else err == sc.err
      ensures func.Copy? ==> dst[..] == Overwrite(old(dst[..]), base, Stored(buffer, State(), buflen))
    {
      hide Inv, Preparse, Overwrite, ScanString, ScanChunks, Stored, Fitting;
      if !flags.unknownLength {
        err, total, result, p := VisitFixed(func, dst, base, buflen);
      } else {
        StoredChunks(buffer, State(), buflen);
        err, total, result, p := VisitChunks(func, dst, base, buflen);
      }
    }

    // All of the string, and the NUL behind it if there is room for one.
    method VisitString(func: IterateFunction, dst: array?<byte>, base: nat, buflen: nat)
      returns (err: Error, total: nat, result: bool, p: nat)
      requires Valid(buffer, State()) && IsString(typ) && buflen <= SIZE_MAX
      requires Window(func, dst, base, buflen)
      modifies if func.Copy? then {dst} else {}
      ensures var sc := ScanString(buffer, State());
              if sc.err.NoError? then
                && err == NoError && total == |sc.s| && p == sc.next
                && (result <==> if func.Compare? then dst[base..base + buflen] == sc.s else |sc.s| <= buflen)
              else err == sc.err
      ensures func.Copy? ==> dst[..] == Overwrite(old(dst[..]), base, Written(buffer, State(), buflen))
    {
      hide Inv, Preparse, Overwrite, ScanString, Stored;
      ghost var before := if func.Copy? then dst[..] else [];
      err, total, result, p := VisitContents(func, dst, base, buflen);
      if err.NoError? {
        ghost var stored := Stored(buffer, State(), buflen);
        if func.Copy? && total < buflen { OverwriteTwice(before, base, stored, [0]); }
        result := VisitNul(func, dst, base, buflen, total, result, ScanString(buffer, State()).s);
      }
    }

    // *next = *this, moved to the item that starts at p
    method MoveTo(next: CborValue, p: nat) returns (err: Error)
      requires p <= |buffer| && 0 < remaining <= UINT32_MAX
      modifies next
      ensures next.buffer == old(buffer)
      ensures Step(err, next.State()) == PreparseNext(old(buffer), old(State()).(ptr := p))
    {
      next.CopyFrom(this);
      next.ptr := p;
      err := next.PreparseNextValue();
    }

    // iterate_string_chunks: visits the contents of a string, in one piece or in chunks, and
    // hands every piece that still fits to `func`.  The capacity comes in as buflen and the
    // length of the string goes out as total.
    method IterateStringChunks(func: IterateFunction, dst: array?<byte>, base: nat, buflen: nat, next: CborValue?)
      returns (err: Error, total: nat, result: bool)
      requires Valid(buffer, State()) && IsString(typ) && buflen <= SIZE_MAX
      requires Window(func, dst, base, buflen)
      modifies next, if func.Copy? then {dst} else {}
      ensures var sc := old(ScanString(buffer, State()));
              if sc.err.NoError? then
                && total == |sc.s|
                && (next == null ==> err == NoError)
                && (next != null ==>
                      && next.buffer == old(buffer)
                      && Step(err, next.State()) == PreparseNext(old(buffer), old(State()).(ptr := sc.next)))
                && (result <==> if func.Compare? then dst[base..base + buflen] == sc.s else |sc.s| <= buflen)
              else
                err == sc.err && (next != null ==> next.buffer == old(next.buffer) && next.State() == old(next.State()))
      ensures func.Copy? ==> dst[..] == Overwrite(old(dst[..]), base, old(Written(buffer, State(), buflen)))
    {
      hide Preparse, Overwrite, ScanString, Written, PreparseNext;
      var p;
      err, total, result, p := VisitString(func, dst, base, buflen);
      if err.NoError? && next != null {
        err := MoveTo(next, p);
      }
    }

    // _cbor_value_copy_string
    method CopyString(dst: array?<byte>, base: nat, buflen: nat, next: CborValue?) returns (err: Error, total: nat)
      requires Valid(buffer, State()) && IsString(typ) && buflen <= SIZE_MAX
      requires dst != null ==> base + buflen <= dst.Length
      modifies next, dst
      ensures var sc := old(ScanString(buffer, State()));
              if !sc.err.NoError? then
                err == sc.err && (next != null ==> next.buffer == old(next.buffer) && next.State() == old(next.State()))
              else
                && total == |sc.s|
                && (next != null ==>
                      && next.buffer == old(buffer)
                      && next.State() == PreparseNext(old(buffer), old(State()).(ptr := sc.next)).it)
                && var e := if next == null then NoError else PreparseNext(old(buffer), old(State()).(ptr := sc.next)).err;
                   err == if !e.NoError? then e else if |sc.s| <= buflen then NoError else OutOfMemory
      ensures dst != null ==> dst[..] == Overwrite(old(dst[..]), base, old(Written(buffer, State(), buflen)))
    {
      var copiedAll;
      err, total, copiedAll := IterateStringChunks(if dst == null then Noop else Copy, dst, base, buflen, next);
      if err.NoError? && !copiedAll { err := OutOfMemory; }
    }

    // advance_recursive
    method AdvanceRecursive(level: nat) returns (err: Error)
      requires Valid(buffer, State()) && level <= MAX_RECURSIONS
      modifies this
      ensures buffer == old(buffer)
      ensures Step(err, State()) == CborCursor.AdvanceRecursive(buffer, old(State()), level)
      decreases |buffer| - ptr, 0
    {
      hide Preparse, CborCursor.AdvanceToEnd;
      if IsFixed(typ) {
        err := AdvanceInternal();
        return;
      }
      if !IsContainer(typ) {
        ghost var it := State();
        var len := SIZE_MAX;
        err, len := CopyString(null, 0, len, this);
        return;
      }

      // map or array
      if level == MAX_RECURSIONS { return NestingTooDeep; }

      var recursed := new CborValue();
      err := EnterContainer(recursed);
      if !err.NoError? { return; }
      err := recursed.AdvanceToEnd(level);
      if !err.NoError? { return; }
      err := LeaveContainer(recursed);
    }

    // the loop of advance_recursive
    method AdvanceToEnd(level: nat) returns (err: Error)
      requires Inv(buffer, State()) && level < MAX_RECURSIONS
      modifies this
      ensures buffer == old(buffer) && err == CborCursor.AdvanceToEnd(buffer, old(State()), level).err
      ensures err.NoError? ==> State() == CborCursor.AdvanceToEnd(buffer, old(State()), level).it
      decreases |buffer| - ptr, 1
    {
      hide Preparse, CborCursor.AdvanceRecursive;
      while !AtEnd()
        invariant buffer == old(buffer) && Inv(buffer, State()) && old(ptr) <= ptr
        invariant CborCursor.AdvanceToEnd(buffer, State(), level) == CborCursor.AdvanceToEnd(buffer, old(State()), level)
        decreases |buffer| - ptr
      {
        err := AdvanceRecursive(level + 1);
        if !err.NoError? { return; }
      }
      err := NoError;
    }

    // cbor_value_advance
    method Advance() returns (err: Error)
      requires Valid(buffer, State())
      modifies this
      ensures buffer == old(buffer)
      ensures Step(err, State()) == CborCursor.Advance(buffer, old(State()))
    {
      if remaining == 0 { return AdvancePastEOF; }
      err := AdvanceRecursive(0);
    }

    // cbor_value_text_string_equals
    method TextStringEquals(str: array<byte>, len: nat) returns (err: Error, equals: bool)
      requires Inv(buffer, State()) && len <= SIZE_MAX && Window(Compare, str, 0, len)
      ensures var key := CborCursor.SkipTag(buffer, State());
              if !key.err.NoError? then err == key.err
              else if key.it.typ != TEXT_STRING_TYPE then err == NoError && !equals
              else
                var t := ScanString(buffer, key.it);
                err == t.err && (err.NoError? ==> (equals <==> t.s == str[..len]))
    {
      var copy := new CborValue();
      copy.CopyFrom(this);
      equals := false;
      err := copy.SkipTag();
      if !err.NoError? || copy.typ != TEXT_STRING_TYPE { return; }
      var total;
      err, total, equals := copy.IterateStringChunks(Compare, str, 0, len, null);
      assert str[0..0 + len] == str[..len];
    }
  }
}
