/**
 Looking a text key up in a map: what cbor_value_map_find_value returns on
 well-formed maps.
 */
module CborMap {
  import opened Bytes
  import opened CborNumber
  import opened CborGrammar
  import opened CborCursor
  import opened CborReading

  // cbor_value_map_find_value, on the state of the map's cursor.
  function FindValue(data: bytes, it: Cursor, s: bytes): (r: Step)
    requires Valid(data, it) && IsContainer(it.typ)
  {
    var e := EnterContainer(data, it);
    if e.err.NoError? then Find(data, e.it, s) else Failed(e)
  }

  // Its search loop, from the key under `element`.
  function Find(data: bytes, element: Cursor, s: bytes): (r: Step)
    requires Inv(data, element)
    decreases |data| - element.ptr
  {
    if element.remaining == 0 then Step(NoError, element.(typ := INVALID_TYPE))
    else
      var key := SkipTag(data, element);
      if !key.err.NoError? then Failed(key)
      else if key.it.typ == INVALID_TYPE then Failed(Step(AdvancePastEOF, key.it))
      else
        var text := if key.it.typ == TEXT_STRING_TYPE then ScanString(data, key.it) else Scan(NoError, [], 0);
        var value := if !text.err.NoError? then Step(text.err, key.it)
                     else if key.it.typ == TEXT_STRING_TYPE then PreparseNext(data, key.it.(ptr := text.next))
                     else Advance(data, key.it);
        if !value.err.NoError? then Failed(value)
        else if key.it.typ == TEXT_STRING_TYPE && text.s == s then Preparse(data, value.it)
        else
          var next := SkipOne(data, value.it);
          if next.err.NoError? then Find(data, next.it, s) else Failed(next)
  }

  // The tags in front of a value, and the value.
  function SkipOne(data: bytes, it: Cursor): (r: Step)
    requires Inv(data, it)
    ensures r.err.NoError? ==> Inv(data, r.it) && it.ptr < r.it.ptr
  {
    var v := SkipTag(data, it);
    if !v.err.NoError? then v
    else if v.it.typ == INVALID_TYPE then Step(AdvancePastEOF, v.it)
    else Advance(data, v.it)
  }

  function Failed(s: Step): Step {
    Step(s.err, s.it.(typ := INVALID_TYPE))
  }

  // ---------- the reference lookup ----------

  function Untag(x: Item): Item {
    if x.Tagged? then Untag(x.content) else x
  }

  predicate KeyIs(x: Item, s: bytes) {
    Untag(x) == Str(true, s)
  }

  // Index of the first key that is the text string s, tags aside; |entries| when there is none.
  function FirstMatch(entries: seq<Item>, s: bytes): (i: nat)
    requires |entries| % 2 == 0
    ensures i <= |entries|
  {
    if |entries| == 0 || KeyIs(entries[0], s) then 0 else 2 + FirstMatch(entries[2..], s)
  }

  lemma {:induction false} FirstMatchIsFirst(entries: seq<Item>, s: bytes)
    requires |entries| % 2 == 0
    ensures var i := FirstMatch(entries, s);
            && i % 2 == 0 && (i < |entries| ==> KeyIs(entries[i], s))
            && forall j :: 0 <= j < i && j % 2 == 0 ==> !KeyIs(entries[j], s)
  {
    hide KeyIs;
    if |entries| > 0 && !KeyIs(entries[0], s) {
      FirstMatchIsFirst(entries[2..], s);
      var i := FirstMatch(entries, s);
      forall j | 0 < j < i && j % 2 == 0 ensures !KeyIs(entries[j], s) {
        assert entries[j] == entries[2..][j - 2];
      }
    }
  }

  // ---------- the cursor against the reference ----------

  // Skipping tags leaves the first member, stripped of its tags, as the first member.
  lemma {:induction false} SkipTagReads(data: bytes, rec: Cursor, xs: seq<Item>, q: nat)
    requires Valid(data, rec) && Members(data, rec, xs, q) && |xs| > 0
    ensures var s := SkipTag(data, rec);
            && s.err.NoError? && Valid(data, s.it) && s.it.typ != TAG_TYPE && rec.ptr <= s.it.ptr
            && Members(data, s.it, [Untag(xs[0])] + xs[1..], q)
    ensures AllFit([Untag(xs[0])] + xs[1..]) <==> AllFit(xs)
    ensures MaxNesting([Untag(xs[0])] + xs[1..]) == MaxNesting(xs)
    decreases |data| - rec.ptr
  {
    hide ParseItem, Preparse, AdvanceInternal;
    assert ([Untag(xs[0])] + xs[1..])[1..] == xs[1..];
    FirstMember(data, rec, xs, q);
    PreparseItem(data, rec);
    if rec.typ == TAG_TYPE {
      TaggedMember(data, rec, xs, q);
      hide Members;
      var ys := [xs[0].content] + xs[1..];
      assert ys[1..] == xs[1..] && ys[0] == xs[0].content;
      assert Fits(xs[0]) <==> Fits(ys[0]);
      assert [Untag(ys[0])] + ys[1..] == [Untag(xs[0])] + xs[1..];
      SkipTagReads(data, AdvanceInternal(data, rec).it, ys, q);
    } else {
      hide Members;
      assert [Untag(xs[0])] + xs[1..] == xs;
    }
  }

  predicate WithinLimits(xs: seq<Item>) {
    AllFit(xs) && MaxNesting(xs) <= MAX_RECURSIONS
  }

  // Tags and an item are skipped as one member.
  lemma SkipOneReads(data: bytes, rec: Cursor, xs: seq<Item>, q: nat)
    requires |data| <= SIZE_MAX && Valid(data, rec) && Members(data, rec, xs, q) && |xs| > 0
    ensures var s := SkipOne(data, rec);
            && (s.err.NoError? ==> Members(data, s.it, xs[1..], q))
            && (WithinLimits(xs) ==> s.err.NoError?)
  {
    SkipTagReads(data, rec, xs, q);
    hide SkipTag;
    AdvanceFirst(data, SkipTag(data, rec).it, [Untag(xs[0])] + xs[1..], q);
    assert ([Untag(xs[0])] + xs[1..])[1..] == xs[1..];
  }

  lemma AdvanceFirst(data: bytes, rec: Cursor, xs: seq<Item>, q: nat)
    requires |data| <= SIZE_MAX && Valid(data, rec) && rec.typ != TAG_TYPE && Members(data, rec, xs, q) && |xs| > 0
    ensures var s := Advance(data, rec);
            && (s.err.NoError? ==> Members(data, s.it, xs[1..], q))
            && (WithinLimits(xs) ==> s.err.NoError?)
  {
    hide ParseItem, Preparse, After;
    FirstMember(data, rec, xs, q);
    hide Members;
    AdvanceReads(data, rec, 0);
    hide AdvanceRecursive;
    if Advance(data, rec).err.NoError? {
      SameMembers(data, After(data, rec, ParseItem(data, rec.ptr).next).it, Advance(data, rec).it, xs[1..], q);
    }
  }

  // A text key is compared by its whole contents and left behind as one member.
  lemma TextKeyReads(data: bytes, rec: Cursor, xs: seq<Item>, q: nat)
    requires |data| <= SIZE_MAX && Valid(data, rec) && rec.typ == TEXT_STRING_TYPE && Members(data, rec, xs, q) && |xs| > 0
    ensures var t := ScanString(data, rec);
            && t.err.NoError? && xs[0] == Str(true, t.s)
            && var s := PreparseNext(data, rec.(ptr := t.next));
               s.err.NoError? && Members(data, s.it, xs[1..], q)
  {
    hide ParseItem, Preparse, After;
    FirstMember(data, rec, xs, q);
    hide Members;
    ScanMatchesGrammar(data, rec);
    hide ScanString;
    var t := ScanString(data, rec);
    StringIsAfter(data, rec, t.next);
    SameMembers(data, After(data, rec, t.next).it, PreparseNext(data, rec.(ptr := t.next)).it, xs[1..], q);
  }

  lemma OtherKeyReads(data: bytes, rec: Cursor, xs: seq<Item>, q: nat)
    requires Valid(data, rec) && Members(data, rec, xs, q) && |xs| > 0 && rec.typ != TEXT_STRING_TYPE
    ensures !(xs[0].Str? && xs[0].text)
  {
    FirstMember(data, rec, xs, q);
    if rec.typ == BYTE_STRING_TYPE { ParseString(data, rec.ptr); } else { PreparseItem(data, rec); }
  }

  // The step past the untagged key under `key`.
  function PastKey(data: bytes, key: Cursor): (r: Step)
    requires Valid(data, key)
    ensures r.err.NoError? ==> Inv(data, r.it) && key.ptr < r.it.ptr
  {
    if key.typ == TEXT_STRING_TYPE then SkipString(data, key) else Advance(data, key)
  }

  // It lands on the value behind the key, and compares a text key by its whole contents.
  lemma PastKeyReads(data: bytes, key: Cursor, ys: seq<Item>, q: nat)
    requires |data| <= SIZE_MAX && Valid(data, key) && key.typ != TAG_TYPE
    requires Members(data, key, ys, q) && |ys| > 1
    ensures PastKey(data, key).err.NoError? ==>
              Valid(data, PastKey(data, key).it) && Members(data, PastKey(data, key).it, ys[1..], q)
    ensures WithinLimits(ys) || key.typ == TEXT_STRING_TYPE ==> PastKey(data, key).err.NoError?
    ensures key.typ == TEXT_STRING_TYPE ==> ScanString(data, key).err.NoError? && ys[0] == Str(true, ScanString(data, key).s)
    ensures key.typ != TEXT_STRING_TYPE ==> !(ys[0].Str? && ys[0].text)
  {
    hide ParseItem;
    if key.typ == TEXT_STRING_TYPE {
      TextKeyReads(data, key, ys, q);
    } else {
      AdvanceFirst(data, key, ys, q);
      OtherKeyReads(data, key, ys, q);
    }
  }

  // One pass of the search loop, in terms of the steps it takes.
  lemma FindUnfolds(data: bytes, element: Cursor, s: bytes)
    requires Valid(data, element) && SkipTag(data, element).err.NoError? && SkipTag(data, element).it.typ != INVALID_TYPE
    ensures var key := SkipTag(data, element).it;
            var value := PastKey(data, key);
            Find(data, element, s) ==
            if !value.err.NoError? then Failed(value)
            else if key.typ == TEXT_STRING_TYPE && ScanString(data, key).s == s then Preparse(data, value.it)
            else
              var next := SkipOne(data, value.it);
              if next.err.NoError? then Find(data, next.it, s) else Failed(next)
  {
    hide SkipTag, SkipOne, Advance, ScanString, PreparseNext, Preparse;
  }

  lemma FindEnds(data: bytes, element: Cursor, s: bytes)
    requires Inv(data, element)
    ensures element.remaining == 0 ==> Find(data, element, s).err.NoError? && Find(data, element, s).it.typ == INVALID_TYPE
  {
  }

  lemma MatchNow(xs: seq<Item>, s: bytes)
    requires |xs| % 2 == 0
    ensures |xs| == 0 || KeyIs(xs[0], s) ==> FirstMatch(xs, s) == 0
  {
  }

  lemma MatchLater(xs: seq<Item>, s: bytes)
    requires |xs| % 2 == 0 && |xs| > 0 && !KeyIs(xs[0], s)
    ensures xs[1..][1..] == xs[2..] && FirstMatch(xs, s) == 2 + FirstMatch(xs[2..], s)
    ensures var i := FirstMatch(xs[2..], s); i < |xs[2..]| ==> xs[2..][i + 1..] == xs[2 + i + 1..]
  {
    hide KeyIs;
  }

  // The search finds the first matching key and stops on its value, tags included: what is left
  // of the container from there is that value and everything behind it.
  lemma {:induction false} FindReads(data: bytes, element: Cursor, xs: seq<Item>, q: nat, s: bytes)
    requires |data| <= SIZE_MAX && Inv(data, element) && Members(data, element, xs, q) && |xs| % 2 == 0
    requires WithinLimits(xs)
    ensures var i, r := FirstMatch(xs, s), Find(data, element, s);
            && r.err.NoError?
            && if i < |xs| then Valid(data, r.it) && Members(data, r.it, xs[i + 1..], q) else r.it.typ == INVALID_TYPE
    decreases |data| - element.ptr
  {
    hide Preparse, ParseItem, SkipTag, SkipOne, PastKey, ScanString, Find, FirstMatch;
    FindEnds(data, element, s);
    MatchNow(xs, s);
    if element.remaining > 0 {
      FirstMember(data, element, xs, q);
      SkipTagReads(data, element, xs, q);
      FindUnfolds(data, element, s);
      var key := SkipTag(data, element).it;
      var ys := [Untag(xs[0])] + xs[1..];
      assert ys[1..] == xs[1..];
      PastKeyReads(data, key, ys, q);
      var value := PastKey(data, key).it;
      if !KeyIs(xs[0], s) {
        SkipOneReads(data, value, xs[1..], q);
        var next := SkipOne(data, value).it;
        MatchLater(xs, s);
        FindReads(data, next, xs[2..], q, s);
      }
    }
  }

  // On every well-formed map, definite or not, within the counter and nesting limits.
  lemma FindValueReads(data: bytes, it: Cursor, s: bytes)
    requires |data| <= SIZE_MAX && Valid(data, it) && it.typ == MAP_TYPE
    requires ParseItem(data, it.ptr).Parsed? && Fits(ParseItem(data, it.ptr).value)
    requires MaxNesting(MembersOf(ParseItem(data, it.ptr).value)) <= MAX_RECURSIONS
    ensures var xs, q := MembersOf(ParseItem(data, it.ptr).value), ParseItem(data, it.ptr).next;
            && |xs| % 2 == 0
            && var i, r := FirstMatch(xs, s), FindValue(data, it, s);
               && r.err.NoError?
               && if i < |xs| then Valid(data, r.it) && Members(data, r.it, xs[i + 1..], q) else r.it.typ == INVALID_TYPE
  {
    hide ParseItem, Preparse, EnterContainer, Members, Find, FirstMatch;
    EnterItem(data, it);
    MapIsEven(data, it.ptr);
    FindReads(data, EnterContainer(data, it).it, MembersOf(ParseItem(data, it.ptr).value), ParseItem(data, it.ptr).next, s);
  }

  lemma MapIsEven(data: bytes, p: nat)
    requires p <= |data| && ParseItem(data, p).Parsed? && ParseItem(data, p).value.Map?
    ensures |MembersOf(ParseItem(data, p).value)| % 2 == 0
  {
    hide ParseChunks, ParseUntilBreak;
  }
}
