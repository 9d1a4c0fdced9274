/**
 64-bit integers in and out of the stream: cbor_encode_int and the checked and
 unchecked getters, with the widths of the C types.
 */
module CborIntegers {
  import opened Bytes
  import opened CborNumber

  // The number an integer item stands for (section 2.1 of RFC 7049).
  function Meaning(negative: bool, arg: nat): int {
    if negative then -1 - arg else arg
  }

  predicate IsInt64(i: int) { -INT64_MAX - 1 <= i <= INT64_MAX }

  predicate IsInt32(i: int) { -INT32_MAX - 1 <= i <= INT32_MAX }

  // The unsigned 64-bit word with the bits of a signed one, and back.
  function Word(i: int): (w: nat)
    requires IsInt64(i)
    ensures w <= UINT64_MAX
  {
    if i < 0 then i + UINT64_MAX + 1 else i
  }

  function Signed(w: nat): (i: int)
    requires w <= UINT64_MAX
    ensures IsInt64(i) && Word(i) == w
  {
    if w > INT64_MAX then w - UINT64_MAX - 1 else w
  }

  datatype IntHead = IntHead(major: nat, ui: nat)

  // cbor_encode_int: the sign extended over the word selects the major type, and its
  // exclusive or with the value complements negatives.
  function EncodeInt(value: int): (r: IntHead)
    requires IsInt64(value)
    ensures r.major == UNSIGNED || r.major == NEGATIVE
    ensures r.ui <= INT64_MAX && Meaning(r.major == NEGATIVE, r.ui) == value
  {
    var sign := if value < 0 then UINT64_MAX else 0;
    var major := if sign == UINT64_MAX then NEGATIVE else UNSIGNED;
    var w := Word(value);
    IntHead(major, if sign == UINT64_MAX then UINT64_MAX - w else w)
  }

  datatype Got = Got(err: Error, value: int)

  // cbor_value_get_int64_checked
  function GetInt64Checked(negative: bool, v: nat): (r: Got)
    requires v <= UINT64_MAX
    ensures r.err == if IsInt64(Meaning(negative, v)) then NoError else DataTooLarge
    ensures r.err.NoError? ==> r.value == Meaning(negative, v)
  {
    if v > INT64_MAX then Got(DataTooLarge, 0)
    else
      var result := Signed(v);
      Got(NoError, if negative then -result - 1 else result)
  }

  // cbor_value_get_int_checked, for a 32-bit int
  function GetIntChecked(negative: bool, v: nat): (r: Got)
    requires v <= UINT64_MAX
    ensures r.err == if IsInt32(Meaning(negative, v)) then NoError else DataTooLarge
    ensures r.err.NoError? ==> r.value == Meaning(negative, v)
  {
    if negative then
      if v > INT32_MAX then Got(DataTooLarge, 0) else Got(NoError, -(v as int) - 1)
    else if v > INT32_MAX then Got(DataTooLarge, 0)
    else Got(NoError, v)
  }

  // cbor_value_get_int64 converts without a check.  The C negation of the most negative
  // word overflows; it is taken to wrap here.
  function GetInt64(negative: bool, v: nat): (i: int)
    requires v <= UINT64_MAX
  {
    var result := Signed(v);
    if negative then Signed(UINT64_MAX - Word(result)) else result
  }

  // Exactly the numbers the checked getter accepts are read right by the unchecked one.
  lemma UncheckedIsRightExactlyWhenChecked(negative: bool, v: nat)
    requires v <= UINT64_MAX
    ensures GetInt64(negative, v) == Meaning(negative, v) <==> GetInt64Checked(negative, v).err.NoError?
  {
    assert Word(Signed(v)) == v;
  }
}
