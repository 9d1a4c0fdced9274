/**
 cbor_value_map_find_value as it moves the caller's iterator, on well-formed maps.
 */
module CborMapFind {
  import opened Bytes
  import opened CborNumber
  import opened CborGrammar
  import opened CborCursor
  import opened CborStrings
  import opened CborParser
  import opened CborReading
  import CborMap

  method MapFindValue(map_: CborValue, str: array<byte>, len: nat, element: CborValue) returns (err: Error)
    requires element != map_ && len <= SIZE_MAX && Window(Compare, str, 0, len)
    requires |map_.buffer| <= SIZE_MAX && Valid(map_.buffer, map_.State()) && map_.typ == MAP_TYPE
    requires ParseItem(map_.buffer, map_.ptr).Parsed?
    modifies element
    ensures element.buffer == map_.buffer
    ensures Step(err, element.State()) == CborMap.FindValue(map_.buffer, map_.State(), str[..len])
  {
    hide Preparse, EnterContainer, ParseItem, Members, CborMap.Find;
    err := map_.EnterContainer(element);
    if !err.NoError? {
      element.typ := INVALID_TYPE;
      return;
    }
    EnterItem(map_.buffer, map_.State());
    CborMap.MapIsEven(map_.buffer, map_.ptr);
    ghost var x := ParseItem(map_.buffer, map_.ptr);
    err := Search(element, str, len, MembersOf(x.value), x.next);
  }

  // The search loop; the members left are xs.
  method Search(element: CborValue, str: array<byte>, len: nat, ghost xs: seq<Item>, ghost q: nat) returns (err: Error)
    requires len <= SIZE_MAX && Window(Compare, str, 0, len) && |element.buffer| <= SIZE_MAX
    requires Inv(element.buffer, element.State()) && Members(element.buffer, element.State(), xs, q) && |xs| % 2 == 0
    modifies element
    ensures element.buffer == old(element.buffer)
    ensures Step(err, element.State()) == CborMap.Find(element.buffer, old(element.State()), str[..len])
  {
    hide Preparse, Members, CborMap.Failed;
    ghost var data, s, it, ys := element.buffer, str[..len], element.State(), xs;
    while !element.AtEnd()
      invariant element.buffer == data && Inv(data, element.State()) && Members(data, element.State(), ys, q)
      invariant |ys| % 2 == 0
      invariant CborMap.Find(data, element.State(), s) == CborMap.Find(data, it, s)
      decreases |data| - element.ptr
    {
      hide CborMap.Find;
      var found;
      err, found := FindStep(element, str, len, ys, q);
      if !err.NoError? {
        ghost var failed := element.State();
        element.typ := INVALID_TYPE;
        FailedIs(err, failed, element.State());
        return;
      }
      if found { return; }
      ys := ys[2..];
    }
    // not found
    element.typ := INVALID_TYPE;
    err := NoError;
  }

  lemma FailedIs(err: Error, it: Cursor, it': Cursor)
    requires it' == it.(typ := INVALID_TYPE)
    ensures CborMap.Failed(Step(err, it)) == Step(err, it')
  {
  }

  // One pass of the search loop, over the pair under the cursor; the members left are xs.
  method FindStep(element: CborValue, str: array<byte>, len: nat, ghost xs: seq<Item>, ghost q: nat)
    returns (err: Error, found: bool)
    requires len <= SIZE_MAX && Window(Compare, str, 0, len) && |element.buffer| <= SIZE_MAX
    requires Valid(element.buffer, element.State()) && Members(element.buffer, element.State(), xs, q) && |xs| % 2 == 0
    modifies element
    ensures element.buffer == old(element.buffer)
    ensures var data, r := element.buffer, CborMap.Find(element.buffer, old(element.State()), str[..len]);
            if !err.NoError? then CborMap.Failed(Step(err, element.State())) == r
            else if found then Step(err, element.State()) == r
            else
              && Inv(data, element.State()) && old(element.ptr) < element.ptr
              && r == CborMap.Find(data, element.State(), str[..len])
              && |xs| >= 2 && Members(data, element.State(), xs[2..], q)
  {
    hide Preparse, SkipTag, AdvanceInternal, Advance, ScanString, PreparseNext, Members;
    ghost var data, s, it := element.buffer, str[..len], element.State();
    found := false;
    FirstMember(data, it, xs, q);
    // find the non-tag so we can compare
    err := element.SkipTag();
    if !err.NoError? { return; }
    CborMap.SkipTagReads(data, it, xs, q);
    CborMap.FindUnfolds(data, it, s);
    ghost var ys, key := [CborMap.Untag(xs[0])] + xs[1..], element.State();
    assert ys[1..] == xs[1..] && xs[1..][1..] == xs[2..];
    if element.typ == TEXT_STRING_TYPE {
      var total;
      err, total, found := element.IterateStringChunks(Compare, str, 0, len, element);
      if !err.NoError? { return; }
      CborMap.PastKeyReads(data, key, ys, q);
      assert str[0..0 + len] == s;
      if found {
        err := element.PreparseValue();
        return;
      }
    } else {
      // skip this key
      err := element.Advance();
      if !err.NoError? { return; }
      CborMap.PastKeyReads(data, key, ys, q);
    }
    // skip this value
    ghost var value := element.State();
    err := element.SkipTag();
    if !err.NoError? { return; }
    CborMap.SkipTagReads(data, value, xs[1..], q);
    err := element.Advance();
    if !err.NoError? { return; }
    CborMap.SkipOneReads(data, value, xs[1..], q);
  }
}
