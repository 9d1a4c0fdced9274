/**
 What visiting a string chunk by chunk leaves in the caller's buffer.
 */
module CborStrings {
  import opened Bytes
  import opened CborNumber
  import opened CborCursor

  lemma OverwriteTwice(s: bytes, base: nat, w: bytes, v: bytes)
    requires base + |w| + |v| <= |s|
    ensures Overwrite(Overwrite(s, base, w), base + |w|, v) == Overwrite(s, base, w + v)
  {
  }

  // The leading chunks from p on that fit in cap octets, `total` octets having been stored before;
  // after the first chunk that does not fit nothing more is stored.
  function Fitting(data: bytes, p: nat, typ: nat, total: nat, cap: nat): (r: bytes)
    requires p <= |data| && total <= cap
    ensures total + |r| <= cap
    decreases |data| - p
  {
    var c := ChunkAt(data, p, typ, total);
    if !c.Chunk? || total + c.len > cap then []
    else data[c.start..c.start + c.len] + Fitting(data, c.start + c.len, typ, total + c.len, cap)
  }

  // The part of the string copy mode stores into a buffer of cap octets.
  function Stored(data: bytes, it: Cursor, cap: nat): (w: bytes)
    requires Valid(data, it) && IsString(it.typ)
    ensures |w| <= cap
    ensures ScanString(data, it).err.NoError? ==> w <= ScanString(data, it).s
    ensures ScanString(data, it).err.NoError? ==> (w == ScanString(data, it).s <==> |ScanString(data, it).s| <= cap)
  {
    var sc := ScanString(data, it);
    if it.flags.unknownLength then
      var f := Fitting(data, it.ptr + 1, it.typ, 0, cap);
      if sc.err.NoError? then FittingIsPrefix(data, it.ptr + 1, it.typ, 0, cap); f else f
    else if !sc.err.NoError? || |sc.s| > cap then []
    else sc.s
  }

  // Everything it stores, with the NUL that ends a string that leaves room for it.
  function Written(data: bytes, it: Cursor, cap: nat): (w: bytes)
    requires Valid(data, it) && IsString(it.typ)
    ensures |w| <= cap
  {
    var sc := ScanString(data, it);
    if sc.err.NoError? && |sc.s| < cap then Stored(data, it, cap) + [0] else Stored(data, it, cap)
  }

  lemma StoredChunks(data: bytes, it: Cursor, cap: nat)
    requires Valid(data, it) && IsString(it.typ) && it.flags.unknownLength
    ensures Stored(data, it, cap) == Fitting(data, it.ptr + 1, it.typ, 0, cap)
    ensures ScanString(data, it) == ScanChunks(data, it.ptr + 1, it.typ, 0)
  {
  }

  lemma {:induction false} FittingIsPrefix(data: bytes, p: nat, typ: nat, total: nat, cap: nat)
    requires p <= |data| && total <= cap
    requires ScanChunks(data, p, typ, total).err.NoError?
    ensures Fitting(data, p, typ, total, cap) <= ScanChunks(data, p, typ, total).s
    ensures Fitting(data, p, typ, total, cap) == ScanChunks(data, p, typ, total).s <==> total + |ScanChunks(data, p, typ, total).s| <= cap
    decreases |data| - p
  {
    hide ChunkAt, Fitting, ScanChunks;
    var c := ChunkAt(data, p, typ, total);
    OneChunk(data, p, typ, total, cap);
    if c.Chunk? && total + c.len <= cap {
      var f, r := Fitting(data, c.start + c.len, typ, total + c.len, cap), ScanChunks(data, c.start + c.len, typ, total + c.len);
      FittingIsPrefix(data, c.start + c.len, typ, total + c.len, cap);
      PrefixBehind(data[c.start..c.start + c.len], f, r.s);
    }
  }

  // The first chunk, and what is scanned and stored behind it.
  lemma OneChunk(data: bytes, p: nat, typ: nat, total: nat, cap: nat)
    requires p <= |data| && total <= cap && ScanChunks(data, p, typ, total).err.NoError?
    ensures var c, s := ChunkAt(data, p, typ, total), ScanChunks(data, p, typ, total).s;
            if !c.Chunk? then s == [] && Fitting(data, p, typ, total, cap) == []
            else
              var chunk, r := data[c.start..c.start + c.len], ScanChunks(data, c.start + c.len, typ, total + c.len);
              && r.err.NoError? && s == chunk + r.s
              && Fitting(data, p, typ, total, cap) ==
                 if total + c.len > cap then [] else chunk + Fitting(data, c.start + c.len, typ, total + c.len, cap)
  {
    hide ChunkAt;
  }

  lemma PrefixBehind(c: bytes, f: bytes, s: bytes)
    requires f <= s
    ensures c + f <= c + s && (c + f == c + s <==> f == s)
  {
    assert (c + f)[|c|..] == f && (c + s)[|c|..] == s;
  }

  // What a scan from the current chunk contributes to the scan of the whole string.
  function Extend(seen: bytes, r: Scan): Scan {
    if r.err.NoError? then Scan(NoError, seen + r.s, r.next) else r
  }

  // The scan of a string whose first part is `seen`, over one more chunk.
  lemma ScanStep(data: bytes, p: nat, typ: nat, seen: bytes)
    requires p <= |data| && ChunkAt(data, p, typ, |seen|).Chunk?
    ensures var c := ChunkAt(data, p, typ, |seen|);
            Extend(seen, ScanChunks(data, p, typ, |seen|)) ==
            Extend(seen + data[c.start..c.start + c.len], ScanChunks(data, c.start + c.len, typ, |seen| + c.len))
  {
    hide ChunkAt;
    var c := ChunkAt(data, p, typ, |seen|);
    var r := ScanChunks(data, c.start + c.len, typ, |seen| + c.len);
    assert seen + (data[c.start..c.start + c.len] + r.s) == seen + data[c.start..c.start + c.len] + r.s;
  }

  // What is stored in all, when `done` is stored already and the scan stands at p.
  function FittingFrom(done: bytes, data: bytes, p: nat, typ: nat, total: nat, cap: nat): bytes
    requires p <= |data|
  {
    if total <= cap then done + Fitting(data, p, typ, total, cap) else done
  }

  lemma FittingStep(data: bytes, p: nat, typ: nat, done: bytes, total: nat, cap: nat)
    requires p <= |data| && ChunkAt(data, p, typ, total).Chunk?
    ensures var c := ChunkAt(data, p, typ, total);
            FittingFrom(done, data, p, typ, total, cap) ==
            FittingFrom(if total + c.len > cap then done else done + data[c.start..c.start + c.len],
                        data, c.start + c.len, typ, total + c.len, cap)
  {
    hide ChunkAt;
    var c := ChunkAt(data, p, typ, total);
    if total + c.len <= cap {
      var f := Fitting(data, c.start + c.len, typ, total + c.len, cap);
      assert done + (data[c.start..c.start + c.len] + f) == done + data[c.start..c.start + c.len] + f;
    }
  }

  // The scan that began at `start` stands at p, with `seen` behind it, of which `done` was stored.
  ghost predicate Scanned(data: bytes, start: nat, typ: nat, cap: nat, p: nat, seen: bytes, done: bytes)
    requires start <= |data| && p <= |data|
  {
    && ScanChunks(data, start, typ, 0) == Extend(seen, ScanChunks(data, p, typ, |seen|))
    && Fitting(data, start, typ, 0, cap) == FittingFrom(done, data, p, typ, |seen|, cap)
    && |seen| <= SIZE_MAX && |done| <= cap
    && (|seen| <= cap ==> done == seen)
  }

  lemma ScannedStarts(data: bytes, start: nat, typ: nat, cap: nat)
    requires start <= |data|
    ensures Scanned(data, start, typ, cap, start, [], [])
  {
    hide ChunkAt, ScanChunks, Fitting;
  }

  lemma ScannedStep(data: bytes, start: nat, typ: nat, cap: nat, p: nat, seen: bytes, done: bytes)
    requires start <= |data| && p <= |data| && Scanned(data, start, typ, cap, p, seen, done)
    requires ChunkAt(data, p, typ, |seen|).Chunk?
    ensures var c := ChunkAt(data, p, typ, |seen|);
            var chunk := data[c.start..c.start + c.len];
            Scanned(data, start, typ, cap, c.start + c.len, seen + chunk, if |seen| + c.len <= cap then done + chunk else done)
  {
    hide ChunkAt, ScanChunks, Fitting, FittingFrom;
    ScanStep(data, p, typ, seen);
    FittingStep(data, p, typ, done, |seen|, cap);
  }

  lemma ScannedStops(data: bytes, start: nat, typ: nat, cap: nat, p: nat, seen: bytes, done: bytes)
    requires start <= |data| && p <= |data| && Scanned(data, start, typ, cap, p, seen, done)
    requires !ChunkAt(data, p, typ, |seen|).Chunk?
    ensures var c, r := ChunkAt(data, p, typ, |seen|), ScanChunks(data, start, typ, 0);
            if c.LastChunk? then r == Scan(NoError, seen, p + 1) else r.err == c.err
    ensures Fitting(data, start, typ, 0, cap) == done
  {
    hide ChunkAt;
  }

  lemma OverwriteNothing(s: bytes, base: nat)
    requires base <= |s|
    ensures Overwrite(s, base, []) == s
  {
  }
}
