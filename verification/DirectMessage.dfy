/** Addressing a finished message to one participant by inserting an INFO_DST after its header. */
module DirectMessage {
  import opened Bytes
  import opened Layout
  import opened RtpsTypes
  import opened Router
  import opened RouterExact
  import opened BufferWriter
  import opened ReliabilityMessages
  import D = DataMessage

  const INFO_DESTINATION_SIZE := 16

  function DestinationRaw(destination: GuidPrefix): (raw: Raw)
  {
    Raw(INFO_DESTINATION, 1, destination)
  }

  function Directed(message: seq<byte>, destination: GuidPrefix): (r: seq<byte>)
    requires |message| >= HEADER_SIZE
    ensures |r| == |message| + INFO_DESTINATION_SIZE
  {
    message[..HEADER_SIZE] + EncodeRaw(DestinationRaw(destination)) + message[HEADER_SIZE..]
  }

  method Direct(message: Buffer, destination: GuidPrefix, output: array?<byte>, capacity: nat)
    returns (ok: bool, size: nat)
    requires output != null ==> capacity <= output.Length
    modifies output
    ensures ok <==> message.Memory? && output != null && |message.bytes| >= HEADER_SIZE
                    && |message.bytes| + INFO_DESTINATION_SIZE <= capacity
    ensures ok ==> message.Memory? && output != null && |message.bytes| >= HEADER_SIZE
                   && size <= output.Length && output[..size] == Directed(message.bytes, destination)
    ensures !ok ==> size == 0
  {
    if message.Null? || output == null || capacity < INFO_DESTINATION_SIZE || |message.bytes| < HEADER_SIZE ||
       |message.bytes| > capacity - INFO_DESTINATION_SIZE {
      return false, 0;
    }
    hide Starts, Encode;
    var m := message.bytes;
    ghost var raw := DestinationRaw(destination);
    ghost var size2 := Encode(12, 2, LittleEndian);
    var end := StartAt(output);
    end := PutBytes(output, [], end, m[..HEADER_SIZE]);
    ghost var b := [] + m[..HEADER_SIZE];
    end := PutBytes(output, b, end, [INFO_DESTINATION, 1]);
    b := b + [INFO_DESTINATION, 1];
    end := PutInteger(output, b, end, 12, 2, LittleEndian);
    b := b + size2;
    end := PutBytes(output, b, end, destination);
    b := b + destination;
    assert b == m[..HEADER_SIZE] + EncodeRaw(raw);
    end := PutBytes(output, b, end, m[HEADER_SIZE..]);
    StartsSlice(output, b + m[HEADER_SIZE..]);
    return true, end;
  }

  // ---------------------------------------------------------------- transparency

  function Addressed(c: Context, destination: GuidPrefix): (r: Context)
  {
    c.(destination := destination, hasDestination := destination != NO_PREFIX)
  }

  /** The same context, but for a destination the original message did not set itself. */
  ghost predicate SameContext(c: Context, d: Context, destination: GuidPrefix)
  {
    d == c || (c.destination == NO_PREFIX && !c.hasDestination && d == Addressed(c, destination))
  }

  ghost predicate SameSubmessage(s: Submessage, t: Submessage, destination: GuidPrefix)
  {
    t.id == s.id && t.flags == s.flags && t.content == s.content && t.offset == s.offset + INFO_DESTINATION_SIZE
    && SameContext(s.context, t.context, destination)
  }

  ghost predicate SameWalk(a: Outcome<seq<Submessage>>, b: Outcome<seq<Submessage>>, destination: GuidPrefix)
  {
    if a.Failure? then a == b
    else b.Success? && |b.value| == |a.value| && forall i :: 0 <= i < |a.value| ==>
        SameSubmessage(a.value[i], b.value[i], destination)
  }

  /** The second message is the first with sixteen bytes inserted before `offset`. */
  ghost predicate Shifted(m: seq<byte>, n: seq<byte>, offset: nat)
  {
    offset <= |m| && |n| == |m| + INFO_DESTINATION_SIZE && n[offset + INFO_DESTINATION_SIZE..] == m[offset..]
  }

  lemma ShiftedSlice(m: seq<byte>, n: seq<byte>, offset: nat, from: nat, to: nat)
    requires Shifted(m, n, offset) && offset <= from <= to <= |m|
    ensures n[from + INFO_DESTINATION_SIZE..to + INFO_DESTINATION_SIZE] == m[from..to]
  {
    var a, b := n[from + INFO_DESTINATION_SIZE..to + INFO_DESTINATION_SIZE], m[from..to];
    forall i | 0 <= i < to - from ensures a[i] == b[i] {
      ShiftedByte(m, n, offset, from + i);
    }
  }

  lemma ShiftedLater(m: seq<byte>, n: seq<byte>, offset: nat, later: nat)
    requires Shifted(m, n, offset) && offset <= later <= |m|
    ensures Shifted(m, n, later)
  {
    ShiftedSlice(m, n, offset, later, |m|);
    assert n[later + INFO_DESTINATION_SIZE..|m| + INFO_DESTINATION_SIZE] == n[later + INFO_DESTINATION_SIZE..];
  }

  lemma ShiftedByte(m: seq<byte>, n: seq<byte>, offset: nat, i: nat)
    requires Shifted(m, n, offset) && offset <= i < |m|
    ensures n[i + INFO_DESTINATION_SIZE] == m[i]
  {
    assert n[offset + INFO_DESTINATION_SIZE..][i - offset] == m[offset..][i - offset];
  }

  lemma ShiftedSize(m: seq<byte>, n: seq<byte>, offset: nat)
    requires Shifted(m, n, offset) && offset < |m|
    ensures ContentSize(n, offset + INFO_DESTINATION_SIZE) == ContentSize(m, offset)
  {
    hide Shifted;
    ShiftedLength(m, n, offset);
    if |m| - offset >= SUBMESSAGE_HEADER_SIZE {
      ShiftedByte(m, n, offset, offset);
      ShiftedByte(m, n, offset, offset + 1);
      ShiftedSlice(m, n, offset, offset + 2, offset + 4);
    }
  }

  lemma ShiftedLength(m: seq<byte>, n: seq<byte>, offset: nat)
    requires Shifted(m, n, offset)
    ensures |n| == |m| + INFO_DESTINATION_SIZE && offset <= |m|
  {}

  lemma InfoIsSame(id: byte, flags: byte, content: seq<byte>, c: Context, d: Context, destination: GuidPrefix)
    requires SameContext(c, d, destination)
    ensures var a, b := ApplyInfo(id, flags, content, c), ApplyInfo(id, flags, content, d);
      if a.Failure? then b == a else b.Success? && SameContext(a.value, b.value, destination)
  {}

  lemma {:induction false} WalkIsSame(m: seq<byte>, n: seq<byte>, offset: nat, c: Context, d: Context,
                                      destination: GuidPrefix)
    requires Shifted(m, n, offset) && SameContext(c, d, destination)
    ensures SameWalk(Walk(m, offset, c), Walk(n, offset + INFO_DESTINATION_SIZE, d), destination)
    decreases |m| - offset
  {
    hide Shifted, SameContext, ContentSize, ApplyInfo, Walk;
    ShiftedLength(m, n, offset);
    if offset == |m| {
      WalkEnd(m, c);
      WalkEnd(n, d);
    } else {
      ShiftedSize(m, n, offset);
      WalkStep(m, offset, c);
      WalkStep(n, offset + INFO_DESTINATION_SIZE, d);
      var size := ContentSize(m, offset);
      if size.Success? {
        var start := offset + SUBMESSAGE_HEADER_SIZE;
        var end := start + size.value;
        ShiftedByte(m, n, offset, offset);
        ShiftedByte(m, n, offset, offset + 1);
        ShiftedSlice(m, n, offset, start, end);
        InfoIsSame(m[offset], m[offset + 1], m[start..end], c, d, destination);
        var a := ApplyInfo(m[offset], m[offset + 1], m[start..end], c);
        var b := ApplyInfo(m[offset], m[offset + 1], m[start..end], d);
        if a.Success? {
          ShiftedLater(m, n, offset, end);
          WalkIsSame(m, n, end, a.value, b.value, destination);
        }
      }
    }
  }

  lemma {:induction false} MatchingIsSame(a: seq<Submessage>, b: seq<Submessage>, id: byte, destination: GuidPrefix)
    requires |b| == |a| && forall i :: 0 <= i < |a| ==> SameSubmessage(a[i], b[i], destination)
    ensures |Matching(b, id)| == |Matching(a, id)|
    ensures forall k :: 0 <= k < |Matching(a, id)| ==>
        SameSubmessage(Matching(a, id)[k], Matching(b, id)[k], destination)
  {
    hide SameContext;
    if a != [] {
      MatchingIsSame(a[1..], b[1..], id, destination);
    }
  }

  ghost predicate SameFind(a: Outcome<Submessage>, b: Outcome<Submessage>, destination: GuidPrefix)
  {
    if a.Failure? then a == b else b.Success? && SameSubmessage(a.value, b.value, destination)
  }

  lemma HeaderIsKept(message: seq<byte>, destination: GuidPrefix)
    requires |message| >= HEADER_SIZE
    ensures HeaderError(Directed(message, destination)) == HeaderError(message)
    ensures HeaderContext(Directed(message, destination)) == HeaderContext(message)
    ensures At(Directed(message, destination), HEADER_SIZE, EncodeRaw(DestinationRaw(destination)))
    ensures Shifted(message, Directed(message, destination), HEADER_SIZE)
  {
    hide EncodeRaw;
    var n := Directed(message, destination);
    var raw := EncodeRaw(DestinationRaw(destination));
    assert n[..HEADER_SIZE] == message[..HEADER_SIZE];
    assert n[0..4] == n[..HEADER_SIZE][0..4] && message[0..4] == message[..HEADER_SIZE][0..4];
    assert n[6..8] == n[..HEADER_SIZE][6..8] && message[6..8] == message[..HEADER_SIZE][6..8];
    assert n[8..20] == n[..HEADER_SIZE][8..20] && message[8..20] == message[..HEADER_SIZE][8..20];
    assert n[4] == n[..HEADER_SIZE][4] && n[5] == n[..HEADER_SIZE][5];
    assert n[HEADER_SIZE..HEADER_SIZE + |raw|] == raw;
    assert n[HEADER_SIZE + INFO_DESTINATION_SIZE..] == message[HEADER_SIZE..];
  }

  /**
   Directing a message is transparent: for every id but INFO_DST, every occurrence found before is found after,
   with the same flags, content, source and timestamp, and every error stays the same error. Only the destination
   in force may differ, and only where the message did not name one itself.
   */
  lemma DirectIsTransparent(message: seq<byte>, destination: GuidPrefix, id: byte, k: nat)
    requires |message| >= HEADER_SIZE && id != INFO_DESTINATION
    ensures SameFind(Find(Memory(message), id, k), Find(Memory(Directed(message, destination)), id, k), destination)
  {
    hide Walk, Shifted, SameContext, ContentSize, HeaderError, HeaderContext, Directed, EncodeRaw, SameSubmessage;
    var n := Directed(message, destination);
    HeaderIsKept(message, destination);
    if HeaderError(message).None? {
      var c := HeaderContext(message);
      var d := Addressed(c, destination);
      var raw := DestinationRaw(destination);
      ShiftedLength(message, n, HEADER_SIZE);
      RawIsWalked(n, HEADER_SIZE, raw);
      WalkStep(n, HEADER_SIZE, c);
      StartIsSame(message, destination);
      WalkIsSame(message, n, HEADER_SIZE, c, d, destination);
      var a, b := Walk(message, HEADER_SIZE, c), Walk(n, HEADER_SIZE + INFO_DESTINATION_SIZE, d);
      if a.Success? {
        var first := Submessage(INFO_DESTINATION, 1, destination, HEADER_SIZE, c);
        assert Walk(n, HEADER_SIZE, c) == Success([first] + b.value);
        assert ([first] + b.value)[1..] == b.value;
        MatchingIsSame(a.value, b.value, id, destination);
      }
    }
  }

  lemma StartIsSame(message: seq<byte>, destination: GuidPrefix)
    requires |message| >= HEADER_SIZE
    ensures SameContext(HeaderContext(message), Addressed(HeaderContext(message), destination), destination)
  {}

  /** A directed HEARTBEAT or ACKNACK is parsed to the same view, or refused with the same error. */
  lemma DirectedControlIsSame(message: seq<byte>, destination: GuidPrefix)
    requires |message| >= HEADER_SIZE
    ensures ParseHeartbeat(Memory(Directed(message, destination))) == ParseHeartbeat(Memory(message))
    ensures ParseAckNack(Memory(Directed(message, destination))) == ParseAckNack(Memory(message))
  {
    hide Find, Directed, ReadNumber, ReadBits, ReadCount, Load;
    DirectIsTransparent(message, destination, HEARTBEAT, 0);
    DirectIsTransparent(message, destination, ACKNACK, 0);
  }

  /** A directed DATA message carries the same sample and timestamp; it may only gain the destination. */
  lemma DirectedDataIsSame(message: seq<byte>, destination: GuidPrefix)
    requires |message| >= HEADER_SIZE
    ensures var a, b := D.ParseData(Memory(message)), D.ParseData(Memory(Directed(message, destination)));
      if a.Err? then b == a
      else b == a || b == D.Ok(a.value.(destination := destination, hasDestination := destination != NO_PREFIX))
  {
    hide Find, Directed, ReadNumber, Load;
    DirectIsTransparent(message, destination, DATA, 0);
  }
}
