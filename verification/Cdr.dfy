/** Bounded cursors over XCDR1 PLAIN_CDR payloads, with errors that stick. */
module Cdr {
  import opened Bytes
  import opened RtpsTypes
  import opened XcdrTypes

  datatype Error = NotInitialized | Overflow | Underflow | UnsupportedEncoding | InvalidData | BoundExceeded

  /** Zero bytes up to the next multiple of the alignment, counted from the end of the header. */
  function Gap(position: nat, a: nat): (b: seq<byte>)
    requires Alignment(a)
  {
    seq(AlignUp(position, a) - position, _ => 0)
  }

  function HeaderBytes(order: ByteOrder): (b: seq<byte>)
    ensures |b| == ENCAPSULATION_SIZE
  {
    [0, if order == LittleEndian then 1 else 0, 0, 0]
  }

  // ---------------------------------------------------------------- writing

  /** A writer's value: what it has written, header included. */
  datatype Out = Out(bytes: seq<byte>, order: ByteOrder, error: Option<Error>, ready: bool)
  {
    /** Where the next byte goes, counted from the end of the header. */
    function Position(): int { |bytes| - ENCAPSULATION_SIZE }
  }

  function FailedOut(out: Out, e: Error): (r: Out)
  {
    if out.error.None? then out.(error := Some(e)) else out
  }

  /** Append an aligned block, or fail and append nothing. */
  function Put(out: Out, capacity: nat, a: nat, block: seq<byte>): (r: Out)
    requires Alignment(a) && (out.ready ==> out.Position() >= 0)
  {
    if out.error.Some? then out
    else if !out.ready then FailedOut(out, NotInitialized)
    else if ENCAPSULATION_SIZE + AlignUp(out.Position(), a) + |block| > capacity then FailedOut(out, Overflow)
    else out.(bytes := out.bytes + Gap(out.Position(), a) + block)
  }

  function TextBlock(text: seq<byte>, order: ByteOrder): (b: seq<byte>)
    ensures |b| == 4 + |text| + 1
  {
    Encode(|text| + 1, 4, order) + text + [0]
  }

  function PutText(out: Out, capacity: nat, text: seq<byte>, most: nat): (r: Out)
    requires out.ready ==> out.Position() >= 0
  {
    if |text| > most || |text| >= UINT32_MAX then FailedOut(out, BoundExceeded)
    else Put(out, capacity, 4, TextBlock(text, out.order))
  }

  class CdrWriter {
    const buffer: array<byte>
    var offset: nat
    var origin: nat
    var order: ByteOrder
    var error: Option<Error>
    var initialized: bool

    ghost predicate Valid()
      reads this
    {
      offset <= buffer.Length && (initialized ==> origin == ENCAPSULATION_SIZE <= offset)
    }

    ghost function View(): (o: Out)
      requires Valid()
      reads this, buffer
    {
      Out(buffer[..offset], order, error, initialized)
    }

    constructor (buffer: array<byte>)
      ensures Valid() && this.buffer == buffer
      ensures View() == Out([], LittleEndian, None, false)
    {
      this.buffer := buffer;
      offset, origin, order, error, initialized := 0, 0, LittleEndian, None, false;
    }

    method Fail(e: Error) returns (ok: bool)
      requires Valid()
      modifies this`error
      ensures !ok && Valid() && View() == FailedOut(old(View()), e)
    {
      if error.None? {
        error := Some(e);
      }
      ok := false;
    }

    method Begin(order: ByteOrder) returns (ok: bool)
      requires Valid()
      modifies this, buffer
      ensures Valid()
      ensures ok <==> buffer.Length >= ENCAPSULATION_SIZE
      ensures View() == if ok then Out(HeaderBytes(order), order, None, true) else Out([], order, Some(Overflow), false)
    {
      offset, origin, this.order, initialized, error := 0, 0, order, false, None;
      if buffer.Length < ENCAPSULATION_SIZE {
        ok := Fail(Overflow);
        return;
      }
      buffer[0] := 0;
      buffer[1] := if order == LittleEndian then 1 else 0;
      buffer[2] := 0;
      buffer[3] := 0;
      offset, origin, initialized := ENCAPSULATION_SIZE, ENCAPSULATION_SIZE, true;
      ok := true;
    }

    /** Find the aligned start of a block that fits, and clear the padding before it. */
    method Reserve(a: nat, width: nat) returns (ok: bool, start: nat)
      requires Valid() && Alignment(a)
      modifies this`error, buffer
      ensures Valid() && buffer[..offset] == old(buffer[..offset])
      ensures ok <==> old(error.None? && initialized &&
                          origin + AlignUp(offset - origin, a) + width <= buffer.Length)
      ensures ok ==> error.None? && start == origin + AlignUp(offset - origin, a)
      ensures ok ==> buffer[offset..start] == Gap(offset - origin, a)
      ensures !ok && old(error.None?) ==> error == Some(if initialized then Overflow else NotInitialized)
      ensures !ok && old(error.Some?) ==> error == old(error)
    {
      start := 0;
      if error.Some? {
        ok := false;
        return;
      }
      if !initialized {
        ok := Fail(NotInitialized);
        return;
      }
      start := origin + AlignUp(offset - origin, a);
      if start > buffer.Length || width > buffer.Length - start {
        ok := Fail(Overflow);
        return;
      }
      for index := offset to start
        invariant error.None? && buffer[..offset] == old(buffer[..offset])
        invariant forall k :: offset <= k < index ==> buffer[k] == 0
      {
        buffer[index] := 0;
      }
      ok := true;
    }

    method StoreIntegral(start: nat, value: nat, width: nat)
      requires Valid() && offset <= start && start + width <= buffer.Length
      modifies buffer
      ensures buffer[..start] == old(buffer[..start])
      ensures buffer[start..start + width] == Encode(value, width, order)
    {
      for index := 0 to width
        invariant buffer[..start] == old(buffer[..start])
        invariant forall k :: 0 <= k < index ==> buffer[start + k] == Encode(value, width, order)[k]
      {
        EncodeAt(value, width, order, index);
        var shift := if order == LittleEndian then index else width - 1 - index;
        buffer[start + index] := (value / Pow256(shift)) % 256;
      }
    }

    /** The writer holds its old bytes, the padding and a new block. */
    lemma Appended(before: seq<byte>, gap: seq<byte>, block: seq<byte>, start: nat, end: nat)
      requires start <= end <= buffer.Length && |before| + |gap| == start && start + |block| == end
      requires buffer[..start] == before + gap && buffer[start..end] == block
      ensures buffer[..end] == before + gap + block
    {
      assert buffer[..end] == buffer[..start] + buffer[start..end];
    }

    method WriteIntegral(value: nat, width: nat) returns (ok: bool)
      requires Valid() && Alignment(width)
      modifies this`error, this`offset, buffer
      ensures Valid() && ok == (old(error.None?) && error.None?)
      ensures View() == Put(old(View()), buffer.Length, width, Encode(value, width, order))
    {
      hide Encode, AlignUp, Gap;
      ghost var before := buffer[..offset];
      var start;
      ok, start := Reserve(width, width);
      if !ok {
        return;
      }
      ghost var gap := buffer[offset..start];
      assert buffer[..start] == before + gap;
      StoreIntegral(start, value, width);
      Appended(before, gap, Encode(value, width, order), start, start + width);
      offset := start + width;
    }

    method WriteText(text: seq<byte>, most: nat) returns (ok: bool)
      requires Valid()
      modifies this`error, this`offset, buffer
      ensures Valid() && ok == (old(error.None?) && error.None?)
      ensures View() == PutText(old(View()), buffer.Length, text, most)
    {
      if |text| > most {
        ok := Fail(BoundExceeded);
        return;
      }
      if |text| >= UINT32_MAX {
        ok := Fail(BoundExceeded);
        return;
      }
      hide Encode, AlignUp, TextBlock, Gap;
      ghost var before := buffer[..offset];
      var start;
      ok, start := Reserve(4, 4 + |text| + 1);
      if !ok {
        return;
      }
      ghost var gap := buffer[offset..start];
      assert buffer[..start] == before + gap;
      StoreText(start, text);
      var end := start + 4 + |text| + 1;
      Appended(before, gap, TextBlock(text, order), start, end);
      offset := end;
    }

    /** A text with its length, terminator included, before it. */
    method StoreText(start: nat, text: seq<byte>)
      requires Valid() && offset <= start && start + 4 + |text| + 1 <= buffer.Length
      modifies buffer
      ensures buffer[..start] == old(buffer[..start])
      ensures buffer[start..start + 4 + |text| + 1] == TextBlock(text, order)
    {
      hide Encode;
      StoreIntegral(start, |text| + 1, 4);
      ghost var size := buffer[start..start + 4];
      forall i | 0 <= i < |text| {
        buffer[start + 4 + i] := text[i];
      }
      buffer[start + 4 + |text|] := 0;
      assert buffer[start..start + 4 + |text| + 1] == size + text + [0];
    }
  }

  // ---------------------------------------------------------------- reading

  /** A reader's value over its input. */
  datatype In = In(offset: nat, order: ByteOrder, error: Option<Error>, ready: bool)

  function FailedIn(in_: In, e: Error): (r: In)
  {
    if in_.error.None? then in_.(error := Some(e)) else in_
  }

  predicate Inside(data: seq<byte>, in_: In)
  {
    in_.offset <= |data| && (in_.ready ==> in_.offset >= ENCAPSULATION_SIZE)
  }

  /** Where an aligned block starts. */
  function StartOf(in_: In, a: nat): (s: nat)
    requires Alignment(a) && in_.offset >= ENCAPSULATION_SIZE
  {
    ENCAPSULATION_SIZE + AlignUp(in_.offset - ENCAPSULATION_SIZE, a)
  }

  function Locate(data: seq<byte>, in_: In, a: nat, width: nat): (r: In)
    requires Alignment(a) && Inside(data, in_)
  {
    if in_.error.Some? then in_
    else if !in_.ready then FailedIn(in_, NotInitialized)
    else if StartOf(in_, a) + width > |data| then FailedIn(in_, Underflow)
    else in_
  }

  function GetIntegral(data: seq<byte>, in_: In, width: nat): (r: (In, nat))
    requires Alignment(width) && Inside(data, in_)
  {
    var located := Locate(data, in_, width, width);
    if located.error.Some? then (located, 0)
    else
      var start := StartOf(in_, width);
      (in_.(offset := start + width), Decode(data[start..start + width], in_.order))
  }

  /** A Boolean is a zero or a one; anything else leaves the cursor where it was. */
  function GetBoolean(data: seq<byte>, in_: In): (r: (In, nat))
    requires Inside(data, in_)
  {
    var (after, value) := GetIntegral(data, in_, 1);
    if after.error.Some? then (after, 0)
    else if value > 1 then (FailedIn(in_, InvalidData), 0)
    else (after, value)
  }

  function GetText(data: seq<byte>, in_: In, most: nat): (r: (In, seq<byte>))
    requires Inside(data, in_)
  {
    var located := Locate(data, in_, 4, 4);
    if located.error.Some? then (located, [])
    else
      var start := StartOf(in_, 4);
      var size := Decode(data[start..start + 4], in_.order);
      if size == 0 then (FailedIn(in_, InvalidData), [])
      else if size - 1 > most then (FailedIn(in_, BoundExceeded), [])
      else if start + 4 + size > |data| then (FailedIn(in_, Underflow), [])
      else if data[start + 4 + size - 1] != 0 then (FailedIn(in_, InvalidData), [])
      else (in_.(offset := start + 4 + size), data[start + 4..start + 4 + size - 1])
  }

  /** The state after reading the header; a refused header leaves the byte order as it was. */
  function Begun(data: seq<byte>, order: ByteOrder): (r: In)
  {
    if |data| < ENCAPSULATION_SIZE then In(0, order, Some(Underflow), false)
    else if data[0] != 0 || data[1] > 1 then In(0, order, Some(UnsupportedEncoding), false)
    else In(ENCAPSULATION_SIZE, if data[1] == 1 then LittleEndian else BigEndian, None, true)
  }

  class CdrReader {
    const data: seq<byte>
    var offset: nat
    var origin: nat
    var order: ByteOrder
    var error: Option<Error>
    var initialized: bool

    ghost predicate Valid()
      reads this
    {
      Inside(data, View()) && (initialized ==> origin == ENCAPSULATION_SIZE)
    }

    ghost function View(): (i: In)
      reads this
    {
      In(offset, order, error, initialized)
    }

    constructor (data: seq<byte>)
      ensures Valid() && this.data == data && View() == In(0, LittleEndian, None, false)
    {
      this.data := data;
      offset, origin, order, error, initialized := 0, 0, LittleEndian, None, false;
    }

    method Fail(e: Error) returns (ok: bool)
      requires Valid()
      modifies this`error
      ensures !ok && Valid() && View() == FailedIn(old(View()), e)
    {
      if error.None? {
        error := Some(e);
      }
      ok := false;
    }

    method Begin() returns (ok: bool)
      modifies this
      ensures Valid() && ok == error.None? && View() == Begun(data, old(order))
    {
      offset, origin, initialized, error := 0, 0, false, None;
      if |data| < ENCAPSULATION_SIZE {
        ok := Fail(Underflow);
        return;
      }
      if data[0] != 0 || (data[1] != 0 && data[1] != 1) {
        ok := Fail(UnsupportedEncoding);
        return;
      }
      order := if data[1] == 1 then LittleEndian else BigEndian;
      offset, origin, initialized := ENCAPSULATION_SIZE, ENCAPSULATION_SIZE, true;
      ok := true;
    }

    method FindBlock(a: nat, width: nat) returns (ok: bool, start: nat)
      requires Valid() && Alignment(a)
      modifies this`error
      ensures Valid() && View() == Locate(data, old(View()), a, width)
      ensures ok == error.None?
      ensures ok ==> initialized && start == StartOf(View(), a) && start + width <= |data|
    {
      start := 0;
      if error.Some? {
        ok := false;
        return;
      }
      if !initialized {
        ok := Fail(NotInitialized);
        return;
      }
      start := origin + AlignUp(offset - origin, a);
      if start > |data| || width > |data| - start {
        ok := Fail(Underflow);
        return;
      }
      ok := true;
    }

    method LoadIntegral(start: nat, width: nat) returns (value: nat)
      requires start + width <= |data|
      ensures value == Decode(data[start..start + width], order)
    {
      value := 0;
      ghost var block := data[start..start + width];
      for index := 0 to width
        invariant order == LittleEndian ==> value == Decode(block[..index], order)
        invariant order == BigEndian ==> value == Decode(block[..index], order) * Pow256(width - index)
      {
        var shift := if order == LittleEndian then index else width - 1 - index;
        DecodeAppend(block[..index], data[start + index], order);
        assert block[..index + 1] == block[..index] + [data[start + index]];
        if order == BigEndian {
          ScaleByte(Decode(block[..index], order), data[start + index], Pow256(shift));
        }
        value := value + data[start + index] * Pow256(shift);
      }
      assert block[..width] == block;
    }

    method ReadIntegral(width: nat) returns (ok: bool, value: nat)
      requires Valid() && Alignment(width)
      modifies this`error, this`offset
      ensures Valid() && ok == error.None?
      ensures (View(), if ok then value else 0) == GetIntegral(data, old(View()), width)
    {
      var start;
      value := 0;
      ok, start := FindBlock(width, width);
      if ok {
        value := LoadIntegral(start, width);
        offset := start + width;
      }
    }

    method ReadBoolean() returns (ok: bool, value: nat)
      requires Valid()
      modifies this`error, this`offset
      ensures Valid() && ok == error.None?
      ensures (View(), if ok then value else 0) == GetBoolean(data, old(View()))
    {
      var saved := offset;
      ok, value := ReadIntegral(1);
      if ok && value > 1 {
        offset := saved;
        ok := Fail(InvalidData);
      }
    }

    method ReadText(most: nat) returns (ok: bool, text: seq<byte>)
      requires Valid()
      modifies this`error, this`offset
      ensures Valid() && ok == error.None?
      ensures (View(), if ok then text else []) == GetText(data, old(View()), most)
    {
      var start;
      text := [];
      ok, start := FindBlock(4, 4);
      if !ok {
        return;
      }
      var size := LoadIntegral(start, 4);
      if size == 0 {
        ok := Fail(InvalidData);
        return;
      }
      var count := size - 1;
      if count > most {
        ok := Fail(BoundExceeded);
        return;
      }
      if size > |data| - (start + 4) {
        ok := Fail(Underflow);
        return;
      }
      if data[start + 4 + count] != 0 {
        ok := Fail(InvalidData);
        return;
      }
      text := data[start + 4..start + 4 + count];
      offset := start + 4 + size;
    }
  }

  lemma {:induction false} DecodeAppend(b: seq<byte>, x: byte, order: ByteOrder)
    ensures Decode(b + [x], order)
            == if order == LittleEndian then Decode(b, order) + x * Pow256(|b|) else 256 * Decode(b, order) + x
  {
    if order == BigEndian {
      assert (b + [x])[..|b|] == b;
    } else if b != [] {
      DecodeAppend(b[1..], x, order);
      assert (b + [x])[1..] == b[1..] + [x];
      ScaleTail(x, Pow256(|b| - 1));
    }
  }

  lemma ScaleTail(x: nat, p: nat)
    ensures 256 * (x * p) == x * (256 * p)
  {}

  lemma ScaleByte(high: nat, x: nat, p: nat)
    ensures high * (256 * p) + x * p == (256 * high + x) * p
  {}
}
