/**
 The CborEncoder: a writer into a caller-supplied buffer that, once the buffer is
 full, counts the octets that are missing in the cell that held its position.
 */
module CborEncoder {
  import opened Bytes
  import opened CborNumber

  datatype Pointer = Null | Ptr(i: nat)

  lemma {:induction false} ToBESuffix(n: nat, k: nat, m: nat)
    requires m <= k
    ensures ToBE(n, k)[k - m..] == ToBE(n, m)
  {
    if m > 0 {
      ToBESuffix(n / 256, k - 1, m - 1);
      assert ToBE(n, k)[k - m..] == ToBE(n / 256, k - 1)[k - m..] + [n % 256];
    }
  }

  lemma SmallHead(ui: nat, major: nat, buf: bytes)
    requires ui < VALUE_8BIT && major < 8 && |buf| == 16 && buf[8..] == ToBE(ui, 8)
    ensures buf[15] == ui && [ui + 32 * major] + buf[16..] == Head(major, ui)
  {
    assert buf[15] == buf[8..][7] == ui;
  }

  lemma LargeHead(ui: nat, major: nat, more: nat, buf: bytes, k: nat)
    requires ui <= UINT64_MAX && major < 8 && |buf| == 16 && buf[8..] == ToBE(ui, 8)
    requires VALUE_8BIT + more == ShortestInfo(ui) <= VALUE_64BIT && k == ArgBytes(VALUE_8BIT + more)
    ensures [32 * major + VALUE_8BIT + more] + buf[16 - k..] == Head(major, ui)
  {
    hide ToBE;
    ToBESuffix(ui, 8, k);
    SliceOfSlice(buf, 8, 8 - k);
  }

  lemma SliceOfSlice(s: bytes, i: nat, j: nat)
    requires i + j <= |s|
    ensures s[i..][j..] == s[i + j..]
  {
  }

  lemma UpdateInFront(s: bytes, s': bytes, i: nat, b: byte)
    requires i < |s| && s' == s[i := b]
    ensures s'[i..] == [b] + s[i + 1..]
  {
  }

  class Encoder {
    const memory: array<byte>  // what the caller owns; the encoder may use the first cap octets
    var cell: int              // the union: position in memory, or octets missing
    var end: Pointer
    var added: nat
    var containerIsMap: bool
    var unknownLength: bool

    ghost const cap: nat
    ghost const nullStart: bool  // initialised with a null buffer
    ghost var log: bytes       // everything encoded so far, stored or not
    ghost var kept: nat        // how much of it is in memory

    ghost predicate Valid()
      reads this, memory
    {
      && kept <= cap <= memory.Length && kept <= |log|
      && memory[..kept] == log[..kept]
      && (end.Ptr? ==> end.i == cap && cell == |log| == kept)
      && (end.Null? ==> |log| >= cap && cell == |log| - cap)
      && (end.Null? && |log| == cap ==> nullStart && cap == 0)
    }

    // A call that encoded exactly s: it wrote nothing past the capacity and dropped nothing it had stored.
    twostate predicate Appended(s: bytes)
      reads this, memory
    {
      && Valid() && log == old(log) + s
      && memory[cap..] == old(memory[cap..])
      && old(kept) <= kept && (old(end).Null? ==> end.Null?)
    }

    // The state `parent` will take over when this encoder is closed.
    ghost predicate Extends(parent: Encoder)
      reads this, parent
    {
      && memory == parent.memory && cap == parent.cap && nullStart == parent.nullStart
      && parent.log <= log && parent.kept <= kept && (parent.end.Null? ==> end.Null?)
    }

    // The error every appending call ends with: the encoding so far does not fit.
    ghost function Status(): Error
      reads this
    {
      if |log| > cap then OutOfMemory else NoError
    }

    // cbor_encoder_init on the first `size` octets of memory
    constructor Init(memory: array<byte>, size: nat)
      requires size <= memory.Length
      ensures Valid() && this.memory == memory && cap == size && !nullStart && log == [] && end == Ptr(size) && added == 0
    {
      this.memory := memory;
      cell, end, added := 0, Ptr(size), 0;
      containerIsMap, unknownLength := false, false;
      cap, nullStart, log, kept := size, false, [], 0;
    }

    // cbor_encoder_init with a null buffer: counts from the start
    constructor InitNull(memory: array<byte>)
      ensures Valid() && this.memory == memory && cap == 0 && log == [] && end == Null && added == 0
    {
      this.memory := memory;
      cell, end, added := 0, Null, 0;
      containerIsMap, unknownLength := false, false;
      cap, nullStart, log, kept := 0, true, [], 0;
    }

    // An encoder over the same buffer as `parent`, to be filled in by CreateContainer.
    constructor Nested(parent: Encoder)
      ensures memory == parent.memory && cap == parent.cap && nullStart == parent.nullStart
    {
      memory := parent.memory;
      cell, end, added := 0, Null, 0;
      containerIsMap, unknownLength := false, false;
      cap, nullStart, log, kept := parent.cap, parent.nullStart, [], 0;
    }

    // would_overflow: both readings of the cell, each measured from the address `end`
    predicate WouldOverflow(len: nat)
      reads this
    {
      var remaining := (if end.Ptr? then end.i else 0) - cell - len;
      remaining < 0
    }

    // append_to_buffer
    method Append(data: bytes) returns (err: Error)
      requires Valid()
      modifies this`cell, this`end, this`log, this`kept, memory
      ensures Appended(data) && err == Status()
    {
      var len := |data|;
      if WouldOverflow(len) {
        if end.Ptr? {
          len := len - (end.i - cell);
          end := Null;
          cell := 0;
        }
        cell := cell + len;
        log := log + data;
        return OutOfMemory;
      }
      ghost var before := memory[..];
      forall k | 0 <= k < |data| { memory[cell + k] := data[k]; }
      cell := cell + |data|;
      log := log + data;
      kept := if end.Ptr? then |log| else kept;
      assert end.Ptr? ==> memory[..kept] == before[..old(kept)] + data;
      return NoError;
    }

    // The head of encode_number_no_update: the number is laid out at the end of 16 octets, then
    // the initial byte is written in front of its significant octets.
    static method LayOutHead(ui: nat, major: nat) returns (s: bytes)
      requires ui <= UINT64_MAX && major < 8
      ensures s == Head(major, ui)
    {
      hide ToBE, Head;
      var buf := new byte[16](_ => 0);
      Put64(buf, 8, ui);
      ghost var laid := buf[..];
      var bufstart := 15;
      if ui < VALUE_8BIT {
        SmallHead(ui, major, laid);
        buf[bufstart] := buf[bufstart] + 32 * major;
        UpdateInFront(laid, buf[..], 15, ui + 32 * major);
      } else {
        var more := 0;
        if ui > 0xFF { more := more + 1; }
        if ui > 0xFFFF { more := more + 1; }
        if ui > 0xFFFF_FFFF { more := more + 1; }
        bufstart := bufstart - (if more == 0 then 1 else if more == 1 then 2 else if more == 2 then 4 else 8);
        LargeHead(ui, major, more, laid, 15 - bufstart);
        buf[bufstart] := 32 * major + VALUE_8BIT + more;
        UpdateInFront(laid, buf[..], bufstart, 32 * major + VALUE_8BIT + more);
      }
      assert buf[bufstart..] == buf[..][bufstart..];
      s := buf[bufstart..];
    }

    // put64
    static method Put64(a: array<byte>, at: nat, v: nat)
      requires at + 8 <= a.Length
      modifies a
      ensures a[at..at + 8] == ToBE(v, 8)
      ensures at + 8 == a.Length ==> a[..][at..] == ToBE(v, 8)
    {
      hide ToBE;
      var be := ToBE(v, 8);
      forall k | 0 <= k < 8 { a[at + k] := be[k]; }
    }

    // encode_number_no_update
    method EncodeNumberNoUpdate(ui: nat, major: nat) returns (err: Error)
      requires Valid() && ui <= UINT64_MAX && major < 8
      modifies this`cell, this`end, this`log, this`kept, memory
      ensures Appended(Head(major, ui)) && err == Status()
    {
      var head := LayOutHead(ui, major);
      err := Append(head);
    }

    // encode_number
    method EncodeNumber(ui: nat, major: nat) returns (err: Error)
      requires Valid() && ui <= UINT64_MAX && major < 8
      modifies this`cell, this`end, this`added, this`log, this`kept, memory
      ensures Appended(Head(major, ui)) && err == Status() && added == old(added) + 1
    {
      added := added + 1;
      err := EncodeNumberNoUpdate(ui, major);
    }

    // cbor_encode_simple_value
    method EncodeSimpleValue(value: byte) returns (err: Error)
      requires Valid()
      modifies this`cell, this`end, this`added, this`log, this`kept, memory
      ensures 25 <= value <= 31 ==> err == IllegalSimpleType && Appended([]) && added == old(added)
      ensures !(25 <= value <= 31) ==> Appended(Head(7, value)) && err == Status() && added == old(added) + 1
    {
      // check if this is a valid simple type
      if 25 <= value <= 31 { return IllegalSimpleType; }
      err := EncodeNumber(value, SIMPLE);
    }

    // cbor_encode_floating_point: info is 25, 26 or 27
    method EncodeFloatingPoint(info: nat, bits: nat) returns (err: Error)
      requires Valid() && 25 <= info <= 27
      modifies this`cell, this`end, this`added, this`log, this`kept, memory
      ensures Appended([if info == 25 then 0xF9 else if info == 26 then 0xFA else 0xFB]
                       + ToBE(bits, if info == 25 then 2 else if info == 26 then 4 else 8)) && err == Status() && added == old(added) + 1
    {
      added := added + 1;
      err := Append([32 * SIMPLE + info] + ToBE(bits, ArgBytes(info)));
    }

    // cbor_encode_tag: tags do not count towards the number of elements
    method EncodeTag(tag: nat) returns (err: Error)
      requires Valid() && tag <= UINT64_MAX
      modifies this`cell, this`end, this`log, this`kept, memory
      ensures Appended(Head(6, tag)) && err == Status()
    {
      err := EncodeNumberNoUpdate(tag, TAG);
    }

    // encode_string: the contents are appended even when the head already did not fit
    method EncodeString(text: bool, s: bytes) returns (err: Error)
      requires Valid() && |s| <= SIZE_MAX
      modifies this`cell, this`end, this`added, this`log, this`kept, memory
      ensures Appended(Head(if text then 3 else 2, |s|) + s)
      ensures err == Status() && added == old(added) + 1
    {
      err := EncodeNumber(|s|, if text then TEXT_STRING else BYTE_STRING);
      err := Append(s);
    }

    // create_container, and the length check of cbor_encoder_create_map
    method CreateContainer(container: Encoder, isMap: bool, length: Length) returns (err: Error)
      requires Valid() && container != this && container.memory == memory && container.cap == cap && container.nullStart == nullStart
      requires length.Items? ==> length.n < SIZE_MAX
      modifies this`added, container, memory
      ensures Valid() && memory[cap..] == old(memory[cap..]) && (end.Ptr? ==> cell == |log|)
      ensures Refused(isMap, length) ==> err == DataTooLarge && added == old(added)
      ensures !Refused(isMap, length) ==>
                && added == old(added) + 1
                && container.Valid() && container.Extends(this) && container.log == log + ContainerHead(isMap, length)
                && ContainerHead(isMap, length) == (if length.Indefinite? then [if isMap then 0xBF else 0x9F] else Head(if isMap then 5 else 4, length.n))
                && container.added == 0 && container.containerIsMap == isMap
                && container.unknownLength == length.Indefinite? && err == container.Status()
    {
      if Refused(isMap, length) { return DataTooLarge; }
      container.cell := cell;
      container.end := end;
      container.log := log;
      container.kept := kept;
      added := added + 1;
      container.added := 0;
      container.containerIsMap := isMap;
      container.unknownLength := length.Indefinite?;
      var major := if isMap then MAP else ARRAY;
      if length.Indefinite? {
        err := container.Append([32 * major + INDEFINITE]);
      } else {
        err := container.EncodeNumberNoUpdate(length.n, major);
      }
      StillStored(memory[..], log, kept, container.log, container.kept);
    }

    // cbor_encoder_close_container
    method CloseContainer(container: Encoder) returns (err: Error)
      requires container != this && container.Valid() && container.Extends(this)
      modifies this`cell, this`end, this`log, this`kept, memory
      ensures Valid() && memory[cap..] == old(memory[cap..])
      ensures log == old(container.log) + (if container.unknownLength then [0xFF] else [])
      ensures old(kept) <= kept && (old(end).Null? ==> end.Null?)
      ensures err == if container.unknownLength then Status() else NoError
    {
      // one union is copied into the other, whichever reading applies
      if end.Ptr? {
        cell := container.cell;
      } else {
        cell := container.cell;
      }
      end := container.end;
      log, kept := container.log, container.kept;
      if container.unknownLength {
        err := Append([BREAK_BYTE]);
      } else {
        err := NoError;
      }
    }

    // cbor_encoder_close_container_checked: re-reads the head at the position the parent still
    // has, and compares the declared length with the items added.  `n` is the declared length.
    method CloseContainerChecked(container: Encoder, ghost length: Length) returns (err: Error)
      requires container != this && container.Valid() && container.Extends(this) && (end.Ptr? ==> cell == |log|)
      requires length.Items? ==> length.n < SIZE_MAX
      requires log + ContainerHead(container.containerIsMap, length) <= container.log
      requires container.unknownLength <==> length.Indefinite?
      modifies this`cell, this`end, this`log, this`kept, memory
      ensures Valid() && memory[cap..] == old(memory[cap..])
      ensures log == old(container.log) + (if container.unknownLength then [0xFF] else [])
      ensures old(kept) <= kept && (old(end).Null? ==> end.Null?)
      ensures length.Indefinite? ==> err == Status()
      ensures length.Items? && |log| > cap ==> err == NoError
      ensures length.Items? && |log| <= cap ==>
                err == if container.containerIsMap && length.n > SIZE_MAX / 2 then DataTooLarge
                       else
                         var declared := if container.containerIsMap then 2 * length.n else length.n;
                         if declared == container.added then NoError
                         else if declared < container.added then TooManyItems else TooFewItems
    {
      hide ExtractNumber;
      ghost var before := log;
      var ptr := cell;
      err := CloseContainer(container);
      if container.unknownLength || end.Null? { return; }

      // check what the original length was
      ghost var head := ContainerHead(container.containerIsMap, length);
      HeadIsStored(memory[..], log, kept, before, head);
      var n := ExtractNumber(memory[..], ptr, cell);
      ExtractUndoesHead(memory[..], ptr, cell, if container.containerIsMap then MAP else ARRAY, length.n);
      assert n.err == NoError;
      var actuallyAdded := n.value;
      if container.containerIsMap {
        if actuallyAdded > SIZE_MAX / 2 { return DataTooLarge; }
        actuallyAdded := actuallyAdded * 2;
      }
      return if actuallyAdded == container.added then NoError
             else if actuallyAdded < container.added then TooManyItems else TooFewItems;
    }

    // cbor_encoder_get_extra_bytes_needed
    function GetExtraBytesNeeded(): (n: int)
      requires Valid()
      reads this, memory
      ensures n == if |log| > cap then |log| - cap else 0
    {
      if end.Ptr? then 0 else cell
    }
  }

  datatype Length = Indefinite | Items(n: nat)

  predicate Refused(isMap: bool, length: Length) {
    isMap && length.Items? && length.n > SIZE_MAX / 2
  }

  function ContainerHead(isMap: bool, length: Length): (s: bytes) {
    var major := if isMap then MAP else ARRAY;
    if length.Indefinite? then [32 * major + INDEFINITE] else Head(major, length.n)
  }

  lemma StillStored(memory: bytes, log: bytes, kept: nat, log': bytes, kept': nat)
    requires kept <= kept' <= |memory| && kept' <= |log'| && kept <= |log| && log <= log'
    requires memory[..kept'] == log'[..kept']
    ensures memory[..kept] == log[..kept]
  {
    assert memory[..kept] == memory[..kept'][..kept] == log'[..kept'][..kept] == log'[..kept] == log[..kept];
  }

  lemma HeadIsStored(memory: bytes, log: bytes, kept: nat, before: bytes, head: bytes)
    requires kept <= |memory| && kept == |log| && memory[..kept] == log && before + head <= log
    ensures |before| + |head| <= kept && memory[|before|..|before| + |head|] == head
  {
    assert log[|before|..|before| + |head|] == (before + head)[|before|..] == head;
    assert memory[..kept][|before|..|before| + |head|] == memory[|before|..|before| + |head|];
  }
}
