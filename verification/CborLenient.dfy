/**
 What the parser takes of arbitrary bytes: the grammar with two rules relaxed, against
 advancing, walking and reading, and against the grammar of RFC 7049.
 */
module CborLenient {
  import opened Bytes
  import opened CborNumber
  import opened CborGrammar
  import opened CborCursor
  import opened CborReading

  // Where an item, or a run of them, ends; how many there are, how deeply containers are
  // nested in them, whether every declared count fits the iterator, and whether one of the
  // relaxed rules was used: an indefinite map closed after a key, a tag in front of a break.
  datatype Extent =
    | NoItem
    | Extent(next: nat, items: nat, depth: nat, fits: bool, oddMap: bool, bareTag: bool)

  predicate Regular(x: Extent) {
    x.Extent? && !x.oddMap && !x.bareTag
  }

  // One item in front of others.
  function Join(x: Extent, y: Extent): Extent {
    if x.NoItem? || y.NoItem? then NoItem
    else Extent(y.next, x.items + y.items, if x.depth < y.depth then y.depth else x.depth, x.fits && y.fits,
                x.oddMap || y.oddMap, x.bareTag || y.bareTag)
  }

  // The members xs, in a container whose count fits or not.
  function Wrap(xs: Extent, fits: bool, oddMap: bool): Extent {
    if xs.NoItem? then NoItem
    else Extent(xs.next, 1, 1 + xs.depth, fits && xs.fits, oddMap || xs.oddMap, xs.bareTag)
  }

  // The end of the tag at p.
  datatype Tag = NoTag | Tag(next: nat)

  function TagAt(data: bytes, p: nat): (t: Tag)
    requires p <= |data|
    ensures t.Tag? ==> p < t.next <= |data|
  {
    if p < |data| && data[p] / 32 == TAG && data[p] % 32 != INDEFINITE && ExtractNumber(data, p, |data|).err.NoError? then
      Tag(ExtractNumber(data, p, |data|).next)
    else NoTag
  }

  predicate IsBreak(data: bytes, p: nat) {
    p < |data| && data[p] == BREAK_BYTE
  }

  // Nothing but tags from p up to a break, which is consumed.
  function TagsToBreak(data: bytes, p: nat): (x: Extent)
    requires p <= |data|
    ensures x.Extent? ==> p < x.next <= |data| && x.bareTag
    decreases |data| - p
  {
    match TagAt(data, p)
    case NoTag => NoItem
    case Tag(q) => if IsBreak(data, q) then Extent(q + 1, 0, 0, true, false, true) else TagsToBreak(data, q)
  }

  // An item: tags and containers by the relaxed rules, all else as in the grammar.
  function LenientItem(data: bytes, p: nat): (x: Extent)
    requires p <= |data|
    ensures x.Extent? ==> p < x.next <= |data| && x.items == 1
    decreases |data| - p, 0
  {
    if p == |data| then NoItem
    else
      var major, info := data[p] / 32, data[p] % 32;
      if major == TAG then
        match TagAt(data, p)
        case NoTag => NoItem
        case Tag(q) => LenientItem(data, q)
      else if major == ARRAY || major == MAP then
        if info == INDEFINITE then
          var xs := LenientUntilBreak(data, p + 1);
          Wrap(xs, true, major == MAP && xs.Extent? && xs.items % 2 != 0)
        else
          var n := ExtractNumber(data, p, |data|);
          if !n.err.NoError? then NoItem
          else if major == ARRAY then Wrap(LenientCount(data, n.next, n.value), n.value < 0xFFFF_FFFF, false)
          else Wrap(LenientCount(data, n.next, 2 * n.value), n.value <= 0x7FFF_FFFF, false)
      else
        match ParseItem(data, p)
        case Malformed => NoItem
        case Parsed(_, next) => Extent(next, 1, 0, true, false, false)
  }

  // Exactly n items from p.
  function LenientCount(data: bytes, p: nat, n: nat): (x: Extent)
    requires p <= |data|
    ensures x.Extent? ==> p <= x.next <= |data| && x.items == n
    decreases |data| - p, 1
  {
    if n == 0 then Extent(p, 0, 0, true, false, false)
    else
      var x := LenientItem(data, p);
      if x.NoItem? then NoItem else Join(x, LenientCount(data, x.next, n - 1))
  }

  // Items, and then perhaps tags, up to the break, which is consumed.
  function LenientUntilBreak(data: bytes, p: nat): (x: Extent)
    requires p <= |data|
    ensures x.Extent? ==> p < x.next <= |data|
    decreases |data| - p, 1
  {
    if IsBreak(data, p) then Extent(p + 1, 0, 0, true, false, false)
    else
      var x := LenientItem(data, p);
      if x.NoItem? then TagsToBreak(data, p) else Join(x, LenientUntilBreak(data, x.next))
  }

  // ---------- against the grammar ----------

  lemma ParseTag(data: bytes, p: nat)
    requires p < |data| && data[p] / 32 == TAG
    ensures TagAt(data, p).NoTag? ==> ParseItem(data, p).Malformed?
    ensures TagAt(data, p).Tag? ==>
              var y := ParseItem(data, TagAt(data, p).next);
              && (ParseItem(data, p).Parsed? <==> y.Parsed?)
              && (y.Parsed? ==> ParseItem(data, p).value.Tagged? && ParseItem(data, p).value.content == y.value
                                && ParseItem(data, p).next == y.next)
  {
    hide ParseCount, ParseUntilBreak, ParseChunks;
  }

  lemma ParseOther(data: bytes, p: nat)
    requires p < |data| && data[p] / 32 !in {TAG, ARRAY, MAP} && ParseItem(data, p).Parsed?
    ensures Fits(ParseItem(data, p).value) && Nesting(ParseItem(data, p).value) == 0
  {
    hide ParseCount, ParseUntilBreak, ParseChunks;
  }

  lemma ParseContainerHead(data: bytes, p: nat)
    requires p < |data| && (data[p] / 32 == ARRAY || data[p] / 32 == MAP) && data[p] % 32 != INDEFINITE
    ensures !ExtractNumber(data, p, |data|).err.NoError? ==> ParseItem(data, p).Malformed?
  {
  }

  // x is what the grammar says at p, if it is an item there.
  ghost predicate SameItem(x: Extent, y: Parsed<Item>) {
    && (y.Parsed? <==> Regular(x))
    && (y.Parsed? ==> x.next == y.next && x.depth == Nesting(y.value) && x.fits == Fits(y.value))
  }

  ghost predicate SameItems(x: Extent, ys: Parsed<seq<Item>>) {
    && (ys.Parsed? <==> Regular(x))
    && (ys.Parsed? ==> x.next == ys.next && x.items == |ys.value| && x.depth == MaxNesting(ys.value) && x.fits == AllFit(ys.value))
  }

  lemma JoinSame(x: Extent, y: Parsed<Item>, xs: Extent, ys: Parsed<seq<Item>>)
    requires SameItem(x, y) && SameItems(xs, ys) && y.Parsed? && x.items == 1
    ensures SameItems(Join(x, xs), if ys.Parsed? then Parsed([y.value] + ys.value, ys.next) else Malformed)
  {
    if ys.Parsed? {
      var all := [y.value] + ys.value;
      assert all[0] == y.value && all[1..] == ys.value;
    }
  }

  // The grammar finds an item exactly where the relaxed one does without using a relaxed rule,
  // and then the same one.
  lemma {:induction false} StrictExactly(data: bytes, p: nat)
    requires p <= |data|
    ensures SameItem(LenientItem(data, p), ParseItem(data, p))
    decreases |data| - p, 0
  {
    hide ParseItem, ParseCount, ParseUntilBreak, LenientCount, LenientUntilBreak, TagAt, ExtractNumber;
    if p == |data| {
      NothingThere(data);
    } else {
      var major := data[p] / 32;
      if major == TAG {
        ParseTag(data, p);
        if TagAt(data, p).Tag? { StrictExactly(data, TagAt(data, p).next); }
      } else if major == ARRAY || major == MAP {
        ParseContainer(data, p);
        if data[p] % 32 == INDEFINITE {
          StrictUntilBreak(data, p + 1);
        } else {
          ParseContainerHead(data, p);
          var n := ExtractNumber(data, p, |data|);
          if n.err.NoError? { StrictCount(data, n.next, if major == MAP then 2 * n.value else n.value); }
        }
      } else if ParseItem(data, p).Parsed? {
        ParseOther(data, p);
      }
    }
  }

  lemma NothingThere(data: bytes)
    ensures ParseItem(data, |data|).Malformed? && ParseUntilBreak(data, |data|).Malformed?
  {
  }

  lemma {:induction false} StrictCount(data: bytes, p: nat, n: nat)
    requires p <= |data|
    ensures SameItems(LenientCount(data, p, n), ParseCount(data, p, n))
    decreases |data| - p, 1
  {
    hide ParseItem, LenientItem, Join, SameItem, SameItems;
    if n == 0 {
      SameNothing(p);
    } else {
      StrictExactly(data, p);
      var x, y := LenientItem(data, p), ParseItem(data, p);
      SameItemIs(x, y);
      if y.Parsed? {
        StrictCount(data, y.next, n - 1);
        JoinSame(x, y, LenientCount(data, y.next, n - 1), ParseCount(data, y.next, n - 1));
      } else {
        JoinIrregular(x, if x.Extent? then LenientCount(data, x.next, n - 1) else NoItem);
      }
    }
  }

  lemma SameNothing(p: nat)
    ensures SameItems(Extent(p, 0, 0, true, false, false), Parsed([], p))
  {
  }

  lemma SameItemIs(x: Extent, y: Parsed<Item>)
    requires SameItem(x, y)
    ensures (y.Parsed? <==> Regular(x)) && (y.Parsed? ==> x.next == y.next)
  {
  }

  lemma JoinIrregular(x: Extent, xs: Extent)
    requires !Regular(x)
    ensures !Regular(Join(x, xs)) && SameItems(Join(x, xs), Malformed) && SameItems(NoItem, Malformed)
  {
  }

  lemma {:induction false} StrictUntilBreak(data: bytes, p: nat)
    requires p <= |data|
    ensures SameItems(LenientUntilBreak(data, p), ParseUntilBreak(data, p))
    decreases |data| - p, 1
  {
    hide ParseItem, LenientItem, Join, SameItem, SameItems, TagsToBreak;
    if p == |data| {
      NothingThere(data);
      JoinIrregular(NoItem, NoItem);
      BareTags(data, p);
      assert LenientItem(data, p).NoItem? by { NoItemThere(data); }
    } else if IsBreak(data, p) {
      SameNothing(p + 1);
    } else {
      StrictExactly(data, p);
      var x, y := LenientItem(data, p), ParseItem(data, p);
      SameItemIs(x, y);
      if y.Parsed? {
        StrictUntilBreak(data, y.next);
        JoinSame(x, y, LenientUntilBreak(data, y.next), ParseUntilBreak(data, y.next));
      } else {
        BareTags(data, p);
        JoinIrregular(x, if x.Extent? then LenientUntilBreak(data, x.next) else NoItem);
      }
    }
  }

  lemma NoItemThere(data: bytes)
    ensures LenientItem(data, |data|).NoItem?
  {
  }

  lemma BareTags(data: bytes, p: nat)
    requires p <= |data|
    ensures SameItems(TagsToBreak(data, p), Malformed)
  {
    hide TagsToBreak;
  }

  // ---------- against the cursor ----------

  // What is left of the container that rec iterates over.
  function Rest(data: bytes, rec: Cursor): Extent
    requires rec.ptr <= |data|
  {
    if rec.remaining == 0 then Extent(rec.ptr, 0, 0, true, false, false)
    else if rec.remaining == UINT32_MAX then LenientUntilBreak(data, rec.ptr)
    else LenientCount(data, rec.ptr, rec.remaining)
  }

  // Where preparse_value fails there is no item, and no tag.
  lemma PreparseFails(data: bytes, it: Cursor)
    requires it.ptr <= |data| && !Preparse(data, it).err.NoError?
    ensures LenientItem(data, it.ptr).NoItem? && TagAt(data, it.ptr).NoTag?
  {
    hide LenientCount, LenientUntilBreak, ParseItem;
    if ParseItem(data, it.ptr).Parsed? { ItemIsPreparsed(data, it); }
  }

  lemma NothingLeft(data: bytes, it: Cursor)
    requires it.ptr <= |data| && 0 < it.remaining <= UINT32_MAX && !Preparse(data, it).err.NoError?
    requires it.remaining == UINT32_MAX ==> !IsBreak(data, it.ptr)
    ensures Rest(data, it).NoItem?
  {
    PreparseFails(data, it);
    hide LenientItem, TagAt, Preparse;
  }

  lemma TagHead(data: bytes, it: Cursor)
    requires Valid(data, it) && it.typ == TAG_TYPE
    ensures ExtractNumber(data, it.ptr, |data|).err.NoError? && it.ptr < |data|
    ensures var q := ExtractNumber(data, it.ptr, |data|).next;
            TagAt(data, it.ptr) == Tag(q) && LenientItem(data, it.ptr) == LenientItem(data, q)
    ensures !IsBreak(data, it.ptr)
  {
    hide LenientCount, LenientUntilBreak, ParseItem;
  }

  lemma BreakIsNoItem(data: bytes, p: nat)
    requires IsBreak(data, p)
    ensures LenientItem(data, p).NoItem?
  {
    hide LenientCount, LenientUntilBreak, ParseItem;
    if ParseItem(data, p).Parsed? { ItemIsNotBreak(data, p); }
  }

  // A tag does not change what is left of its container, but for the note of a tag in front of a break.
  lemma TagRest(data: bytes, it: Cursor)
    requires Valid(data, it) && it.typ == TAG_TYPE
    ensures var s, l := AdvanceInternal(data, it), Rest(data, it);
            if !s.err.NoError? then l.NoItem?
            else if s.it.remaining == 0 then l == Extent(s.it.ptr, 0, 0, true, false, true) && LenientItem(data, it.ptr).NoItem?
            else Rest(data, s.it) == l && s.it.remaining == it.remaining && LenientItem(data, it.ptr) == LenientItem(data, s.it.ptr)
  {
    TagHead(data, it);
    hide LenientItem, TagAt, ExtractNumber, Preparse;
    var q := ExtractNumber(data, it.ptr, |data|).next;
    if it.remaining == UINT32_MAX && IsBreak(data, q) {
      BreakIsNoItem(data, q);
    } else if !Preparse(data, it.(ptr := q)).err.NoError? {
      PreparseFails(data, it.(ptr := q));
      assert TagsToBreak(data, q).NoItem?;
    }
  }

  // An item in front of the rest of its container, for a cursor that stands on it.
  lemma ItemRest(data: bytes, it: Cursor)
    requires Valid(data, it)
    ensures var x, l := LenientItem(data, it.ptr), Rest(data, it);
            if x.NoItem? then it.typ != TAG_TYPE ==> l.NoItem?
            else
              var s := After(data, it, x.next);
              l == if s.err.NoError? then Join(x, Rest(data, s.it)) else NoItem
  {
    hide LenientItem, TagAt, Preparse, After, Join;
    NotOnBreak(data, it);
    var x := LenientItem(data, it.ptr);
    if x.Extent? {
      AfterRest(data, it, x.next);
      FirstOfRest(data, it);
      JoinNothing(x);
    }
  }

  lemma JoinNothing(x: Extent)
    ensures Join(x, NoItem) == NoItem
  {
  }

  lemma FirstOfRest(data: bytes, it: Cursor)
    requires it.ptr <= |data| && 0 < it.remaining <= UINT32_MAX && !IsBreak(data, it.ptr) && LenientItem(data, it.ptr).Extent?
    ensures var x := LenientItem(data, it.ptr);
            var k := if it.remaining == UINT32_MAX then UINT32_MAX else it.remaining - 1;
            Rest(data, it) == Join(x, Rest(data, it.(ptr := x.next, typ := INTEGER_TYPE, remaining := k)))
  {
    hide LenientItem, TagAt, Join;
    var x := LenientItem(data, it.ptr);
    if it.remaining == 1 { assert LenientCount(data, x.next, 0) == Extent(x.next, 0, 0, true, false, false); }
  }

  // After a step past an item, what is left begins behind that item.
  lemma AfterRest(data: bytes, it: Cursor, q: nat)
    requires q <= |data| && 0 < it.remaining <= UINT32_MAX
    ensures var s, k := After(data, it, q), if it.remaining == UINT32_MAX then UINT32_MAX else it.remaining - 1;
            Rest(data, it.(ptr := q, typ := INTEGER_TYPE, remaining := k)) == if s.err.NoError? then Rest(data, s.it) else NoItem
  {
    hide LenientItem, TagAt, Preparse;
    var c := it.(ptr := q, typ := INTEGER_TYPE, remaining := if it.remaining == UINT32_MAX then UINT32_MAX else it.remaining - 1);
    if !After(data, it, q).err.NoError? { NothingLeft(data, c); }
  }

  lemma NotOnBreak(data: bytes, it: Cursor)
    requires Valid(data, it)
    ensures !IsBreak(data, it.ptr) && (it.typ != TAG_TYPE ==> TagAt(data, it.ptr).NoTag?)
  {
  }

  // Entering a container fails exactly where there is none, or its count does not fit.
  lemma EnterRest(data: bytes, it: Cursor)
    requires Valid(data, it) && IsContainer(it.typ)
    ensures var e, x := EnterContainer(data, it), LenientItem(data, it.ptr);
            if e.err.NoError? then
              var xs := Rest(data, e.it);
              x == Wrap(xs, true, it.typ == MAP_TYPE && it.flags.unknownLength && xs.Extent? && xs.items % 2 != 0)
            else x.NoItem? || (!x.fits && e.err.DataTooLarge?)
  {
    if it.flags.unknownLength { EnterIndefiniteRest(data, it); } else { EnterDefiniteRest(data, it); }
  }

  lemma EnterIndefiniteRest(data: bytes, it: Cursor)
    requires Valid(data, it) && IsContainer(it.typ) && it.flags.unknownLength
    ensures var e, x := EnterContainer(data, it), LenientItem(data, it.ptr);
            if e.err.NoError? then
              var xs := Rest(data, e.it);
              x == Wrap(xs, true, it.typ == MAP_TYPE && xs.Extent? && xs.items % 2 != 0)
            else x.NoItem?
  {
    ContainerHead(data, it);
    ContainerRule(data, it.ptr);
    hide LenientItem, LenientCount, TagAt, Preparse, ExtractNumber;
    var c := it.(remaining := UINT32_MAX, ptr := it.ptr + 1);
    if !Preparse(data, c).err.NoError? && !IsBreak(data, c.ptr) { NothingLeft(data, c); }
  }

  lemma EnterDefiniteRest(data: bytes, it: Cursor)
    requires Valid(data, it) && IsContainer(it.typ) && !it.flags.unknownLength
    ensures var e, x := EnterContainer(data, it), LenientItem(data, it.ptr);
            if e.err.NoError? then x == Wrap(Rest(data, e.it), true, false)
            else x.NoItem? || (!x.fits && e.err.DataTooLarge?)
  {
    ContainerHead(data, it);
    HeadCompleteIf(data, it);
    ContainerRule(data, it.ptr);
    hide LenientItem, LenientUntilBreak, TagAt, Preparse, ExtractNumber;
    var n := ExtractNumber(data, it.ptr, |data|);
    var c := it.(ptr := n.next, remaining := if it.typ == MAP_TYPE then 2 * n.value else n.value);
    if 0 < c.remaining < UINT32_MAX && !Preparse(data, c).err.NoError? { NothingLeft(data, c); }
  }

  lemma ContainerRule(data: bytes, p: nat)
    requires p < |data| && (data[p] / 32 == ARRAY || data[p] / 32 == MAP)
    requires data[p] % 32 != INDEFINITE ==> ExtractNumber(data, p, |data|).err.NoError?
    ensures var x, map? := LenientItem(data, p), data[p] / 32 == MAP;
            if data[p] % 32 == INDEFINITE then
              var xs := LenientUntilBreak(data, p + 1);
              x == Wrap(xs, true, map? && xs.Extent? && xs.items % 2 != 0)
            else
              var n := ExtractNumber(data, p, |data|);
              x == if map? then Wrap(LenientCount(data, n.next, 2 * n.value), n.value <= 0x7FFF_FFFF, false)
                   else Wrap(LenientCount(data, n.next, n.value), n.value < 0xFFFF_FFFF, false)
  {
    hide LenientCount, LenientUntilBreak;
  }

  // An item that is neither a tag nor a container is the grammar's.
  lemma PlainItem(data: bytes, it: Cursor)
    requires Valid(data, it) && it.typ != TAG_TYPE && !IsContainer(it.typ)
    ensures var x, y := LenientItem(data, it.ptr), ParseItem(data, it.ptr);
            x == if y.Parsed? then Extent(y.next, 1, 0, true, false, false) else NoItem
  {
    MajorOfType(data, it);
    hide LenientCount, LenientUntilBreak, ParseItem, Preparse;
  }

  predicate WithinLimits(x: Extent, level: nat) {
    x.Extent? && x.fits && level + x.depth <= 1024
  }

  // What cbor_value_advance does on any bytes, from a cursor that stands on no tag: it moves to
  // the end of the item there is within the limits, and fails on anything else.
  lemma {:induction false} AdvanceExactly(data: bytes, it: Cursor, level: nat)
    requires |data| <= SIZE_MAX && Valid(data, it) && it.typ != TAG_TYPE && level <= MAX_RECURSIONS
    ensures var x, r := LenientItem(data, it.ptr), AdvanceRecursive(data, it, level);
            if WithinLimits(x, level) then SameStep(r, After(data, it, x.next))
            else !r.err.NoError? && (x.Extent? ==> LimitError(r.err))
    decreases |data| - it.ptr, 0
  {
    hide LenientItem, ParseItem, Preparse, AdvanceToEnd, EnterContainer, ScanString;
    if IsContainer(it.typ) {
      EnterRest(data, it);
      var e := EnterContainer(data, it);
      if level < MAX_RECURSIONS && e.err.NoError? {
        AdvanceToEndExactly(data, e.it, level);
        var m := AdvanceToEnd(data, e.it, level);
        if m.err.NoError? { LeaveIsAfter(data, it, m.it); }
      }
    } else {
      PlainItem(data, it);
      if IsString(it.typ) {
        ScanMatchesGrammar(data, it);
        var s := ScanString(data, it);
        if s.err.NoError? { StringIsAfter(data, it, s.next); }
      } else {
        GetFixedReads(data, it);
        FixedReads(data, it);
      }
    }
  }

  // The same for all that is left of a container.
  lemma {:induction false} AdvanceToEndExactly(data: bytes, rec: Cursor, level: nat)
    requires |data| <= SIZE_MAX && Inv(data, rec) && level < MAX_RECURSIONS
    ensures var l, r := Rest(data, rec), AdvanceToEnd(data, rec, level);
            if WithinLimits(l, level + 1) then r.err.NoError? && r.it.ptr == l.next && r.it.typ == INVALID_TYPE
            else !r.err.NoError? && (l.Extent? ==> LimitError(r.err))
    decreases |data| - rec.ptr, 1
  {
    hide LenientItem, LenientCount, LenientUntilBreak, ParseItem, Preparse, After;
    if rec.remaining > 0 {
      if rec.typ == TAG_TYPE {
        TagRest(data, rec);
        var s := AdvanceInternal(data, rec);
        if s.err.NoError? { AdvanceToEndExactly(data, s.it, level); }
      } else {
        ItemRest(data, rec);
        AdvanceExactly(data, rec, level + 1);
        hide AdvanceRecursive;
        var s := AdvanceRecursive(data, rec, level + 1);
        if s.err.NoError? {
          SameRest(data, s.it, After(data, rec, LenientItem(data, rec.ptr).next).it);
          AdvanceToEndExactly(data, s.it, level);
        }
      }
    }
  }

  lemma SameRest(data: bytes, rec: Cursor, rec': Cursor)
    requires rec.ptr == rec'.ptr <= |data| && rec.remaining == rec'.remaining
    ensures Rest(data, rec) == Rest(data, rec')
  {
  }

  // ---------- whole buffers ----------

  // Advancing until nothing is left, which is how a caller checks a buffer: cbor_value_advance
  // takes one step over the head of a tag, and one over any other item.
  function Walk(data: bytes, it: Cursor): (r: Step)
    requires Inv(data, it)
    ensures r.err.NoError? ==> r.it.ptr <= |data|
    decreases |data| - it.ptr
  {
    if it.remaining == 0 then Step(NoError, it)
    else
      var s := Advance(data, it);
      if s.err.NoError? then Walk(data, s.it) else s
  }

  lemma {:induction false} WalkExactly(data: bytes, it: Cursor)
    requires |data| <= SIZE_MAX && Inv(data, it)
    ensures var l, r := Rest(data, it), Walk(data, it);
            if WithinLimits(l, 0) then r.err.NoError? && r.it.ptr == l.next else !r.err.NoError?
    decreases |data| - it.ptr
  {
    hide LenientItem, LenientCount, LenientUntilBreak, Preparse, After;
    if it.remaining > 0 {
      if it.typ == TAG_TYPE {
        TagRest(data, it);
        var s := AdvanceInternal(data, it);
        if s.err.NoError? { WalkExactly(data, s.it); }
      } else {
        ItemRest(data, it);
        AdvanceExactly(data, it, 0);
        hide AdvanceRecursive;
        var s := Advance(data, it);
        if s.err.NoError? {
          SameRest(data, s.it, After(data, it, LenientItem(data, it.ptr).next).it);
          WalkExactly(data, s.it);
        }
      }
    }
  }

  // Whatever the bytes, walking a buffer from its start succeeds exactly when it begins with an
  // item of the relaxed grammar within the limits, and ends behind it.
  lemma WalkAcceptsExactly(data: bytes)
    requires |data| <= SIZE_MAX
    ensures var x, s := LenientItem(data, 0), ParserInit(data);
            if WithinLimits(x, 0) then s.err.NoError? && Walk(data, s.it).err.NoError? && Walk(data, s.it).it.ptr == x.next
            else s.err.NoError? ==> !Walk(data, s.it).err.NoError?
  {
    hide LenientItem, Preparse, Walk;
    FirstItem(data);
    var s := ParserInit(data);
    if s.err.NoError? { WalkExactly(data, s.it); }
  }

  // A buffer holds one item.
  lemma FirstItem(data: bytes)
    ensures var s := ParserInit(data);
            if s.err.NoError? then Rest(data, s.it) == LenientItem(data, 0) else LenientItem(data, 0).NoItem?
  {
    hide LenientItem, Preparse;
    var c := Cursor(0, 1, 0, INVALID_TYPE, NO_FLAGS);
    if !ParserInit(data).err.NoError? { PreparseFails(data, c); }
    var x := LenientItem(data, 0);
    if x.Extent? { assert LenientCount(data, x.next, 0) == Extent(x.next, 0, 0, true, false, false); }
  }

  // The walk is wrong about a buffer, that is, takes bytes that do not begin with a well-formed
  // item, exactly when it had to use one of the relaxed rules.
  lemma WalkTakesMalformedExactly(data: bytes)
    requires |data| <= SIZE_MAX && ParserInit(data).err.NoError?
    ensures (Walk(data, ParserInit(data).it).err.NoError? && ParseItem(data, 0).Malformed?)
       <==> (WithinLimits(LenientItem(data, 0), 0) && !Regular(LenientItem(data, 0)))
  {
    hide LenientItem, ParseItem, Walk;
    WalkAcceptsExactly(data);
    StrictExactly(data, 0);
  }

  // ---------- reading ----------

  // The reader takes no tag in front of a break, and knows no limit on nesting.
  predicate Readable(x: Extent) {
    x.Extent? && x.fits && !x.bareTag
  }

  // What reading an item through the getters does on any bytes.
  lemma {:induction false} ReadExactly(data: bytes, it: Cursor)
    requires |data| <= SIZE_MAX && Valid(data, it)
    ensures var x, r := LenientItem(data, it.ptr), ReadItem(data, it);
            if Readable(x) then SameStep(Step(r.err, r.it), After(data, it, x.next)) else !r.err.NoError?
    decreases |data| - it.ptr, 0
  {
    hide LenientItem, ParseItem, Preparse, ReadToEnd, EnterContainer, ScanString;
    if it.typ == TAG_TYPE {
      TagRest(data, it);
      TagItem(data, it);
      var s := AdvanceInternal(data, it);
      if s.err.NoError? && s.it.typ != INVALID_TYPE {
        ReadExactly(data, s.it);
        var x := LenientItem(data, it.ptr);
        if x.Extent? { AfterIgnoresDecoded(data, it, s.it, x.next); }
      }
    } else if IsContainer(it.typ) {
      EnterRest(data, it);
      var e := EnterContainer(data, it);
      if e.err.NoError? {
        ReadToEndExactly(data, e.it);
        var m := ReadToEnd(data, e.it);
        if m.err.NoError? { LeaveIsAfter(data, it, m.it); }
      }
    } else {
      PlainItem(data, it);
      if IsString(it.typ) {
        ScanMatchesGrammar(data, it);
        var s := ScanString(data, it);
        if s.err.NoError? { StringIsAfter(data, it, s.next); }
      } else {
        GetFixedReads(data, it);
        FixedReads(data, it);
      }
    }
  }

  lemma TagItem(data: bytes, it: Cursor)
    requires Valid(data, it) && it.typ == TAG_TYPE
    ensures !AdvanceInternal(data, it).err.NoError? ==> LenientItem(data, it.ptr).NoItem?
  {
    TagHead(data, it);
    hide LenientItem, TagAt, ExtractNumber, Preparse;
    var q := ExtractNumber(data, it.ptr, |data|).next;
    if !AdvanceInternal(data, it).err.NoError? { PreparseFails(data, it.(ptr := q)); }
  }

  lemma {:induction false} ReadToEndExactly(data: bytes, rec: Cursor)
    requires |data| <= SIZE_MAX && Inv(data, rec)
    ensures var l, r := Rest(data, rec), ReadToEnd(data, rec);
            if Readable(l) then r.err.NoError? && r.it.ptr == l.next && r.it.typ == INVALID_TYPE else !r.err.NoError?
    decreases |data| - rec.ptr, 1
  {
    hide LenientItem, LenientCount, LenientUntilBreak, ParseItem, Preparse, After;
    if rec.remaining > 0 {
      ReadExactly(data, rec);
      ItemRest(data, rec);
      TagOnly(data, rec);
      hide ReadItem;
      var x := ReadItem(data, rec);
      if x.err.NoError? {
        SameRest(data, x.it, After(data, rec, LenientItem(data, rec.ptr).next).it);
        ReadToEndExactly(data, x.it);
      }
    }
  }

  // A tag that is not in front of an item is in front of a break, or of nothing at all.
  lemma TagOnly(data: bytes, it: Cursor)
    requires Valid(data, it)
    ensures LenientItem(data, it.ptr).NoItem? ==> !Readable(Rest(data, it))
  {
    NotOnBreak(data, it);
    hide LenientItem, TagsToBreak, Preparse;
  }

  // Reading a buffer from its start succeeds exactly on the relaxed grammar without bare tags,
  // and is right about it, exactly when no map is cut off after a key.
  lemma ReaderAcceptsExactly(data: bytes)
    requires |data| <= SIZE_MAX
    ensures var x, s := LenientItem(data, 0), ParserInit(data);
            && (s.err.NoError? && ReadItem(data, s.it).err.NoError? <==> Readable(x))
            && (Readable(x) ==>
                  var r := ReadItem(data, s.it);
                  r.it.ptr == x.next && (ParseItem(data, 0) == Parsed(r.item, r.it.ptr) <==> !x.oddMap))
  {
    hide LenientItem, Preparse, ReadItem, ParseItem;
    FirstItem(data);
    StrictExactly(data, 0);
    var s := ParserInit(data);
    if s.err.NoError? {
      ReadExactly(data, s.it);
      if Regular(LenientItem(data, 0)) && LenientItem(data, 0).fits { ReadItemReads(data, s.it); }
    }
  }
}
