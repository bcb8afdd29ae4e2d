/** HEARTBEAT and ACKNACK messages: what the builders write and the parsers read. */
module ReliabilityMessages {
  import opened Bytes
  import opened Layout
  import opened SerialCount
  import opened SequenceSet
  import opened RtpsTypes
  import opened Router
  import opened RouterExact
  import opened BufferWriter

  const HEARTBEAT_CONTENT_SIZE := 28
  const ACKNACK_FIXED_SIZE := 24

  datatype MessageError =
    | InvalidArgument | BufferOverflow | Truncated | InvalidProtocol | UnsupportedVersion
    | UnsupportedSubmessage | UnsupportedFeature | InvalidSubmessage | InvalidSequenceNumber | BitmapBoundExceeded

  datatype Parse<+T> = Wrong(error: MessageError) | Right(value: T)

  // ---------------------------------------------------------------- fields

  /** A sequence number: the high word, then the low word, each in the byte order of the submessage. */
  function EncodeNumber(s: nat, order: ByteOrder): (b: seq<byte>)
    ensures |b| == 8
  {
    Encode(s / 0x1_0000_0000, 4, order) + Encode(s % 0x1_0000_0000, 4, order)
  }

  function ReadNumber(content: seq<byte>, position: nat, order: ByteOrder, allowZero: bool): (s: Option<nat>)
    requires position + 8 <= |content|
  {
    var high := Load(content, position, 4, order);
    var low := Load(content, position + 4, 4, order);
    var candidate := high * 0x1_0000_0000 + low;
    if high >= 0x8000_0000 || (!allowZero && candidate == 0) || candidate > INT64_MAX then None else Some(candidate)
  }

  lemma NumberBack(content: seq<byte>, position: nat, s: nat, order: ByteOrder, allowZero: bool)
    requires s <= INT64_MAX && (allowZero || s != 0) && At(content, position, EncodeNumber(s, order))
    ensures position + 8 <= |content| && ReadNumber(content, position, order, allowZero) == Some(s)
  {
    hide At, Load, Encode;
    var high, low := s / 0x1_0000_0000, s % 0x1_0000_0000;
    Split(content, position, Encode(high, 4, order), Encode(low, 4, order));
    Pow256Values();
    LoadBack(content, position, high, 4, order);
    LoadBack(content, position + 4, low, 4, order);
  }

  lemma ReadNumberRange(content: seq<byte>, position: nat, order: ByteOrder, allowZero: bool)
    requires position + 8 <= |content| && ReadNumber(content, position, order, allowZero).Some?
    ensures var s := ReadNumber(content, position, order, allowZero).value; s <= INT64_MAX && (allowZero || s != 0)
  {
    hide Load;
  }

  function EncodeCount(count: i32, order: ByteOrder): (b: seq<byte>)
    ensures |b| == 4
  {
    Encode(Bits(count), 4, order)
  }

  function ReadCount(content: seq<byte>, position: nat, order: ByteOrder): (count: i32)
    requires position + 4 <= |content|
  {
    LoadU32(content, position, order);
    FromBits(Load(content, position, 4, order))
  }

  lemma CountBack(content: seq<byte>, position: nat, count: i32, order: ByteOrder)
    requires At(content, position, EncodeCount(count, order))
    ensures position + 4 <= |content| && ReadCount(content, position, order) == count
  {
    hide Load, Encode;
    Pow256Values();
    LoadBack(content, position, Bits(count), 4, order);
    BitsInverse(count, Bits(count));
  }

  /** The bitmap words of a set. */
  function EncodeWords(bits: seq<bool>, order: ByteOrder, n: nat): (b: seq<byte>)
    ensures |b| == 4 * n
  {
    if n == 0 then [] else EncodeWords(bits, order, n - 1) + Encode(WordAt(bits, n - 1), 4, order)
  }

  lemma {:induction false} WordsBack(content: seq<byte>, position: nat, bits: seq<bool>, order: ByteOrder, n: nat,
                                     i: nat)
    requires At(content, position, EncodeWords(bits, order, n)) && i < n
    ensures position + 4 * i + 4 <= |content| && Load(content, position + 4 * i, 4, order) == WordAt(bits, i)
    decreases n
  {
    hide At, Load, Encode, WordAt;
    Split(content, position, EncodeWords(bits, order, n - 1), Encode(WordAt(bits, n - 1), 4, order));
    if i < n - 1 {
      WordsBack(content, position, bits, order, n - 1, i);
    } else {
      WordAtBound(bits, i);
      Pow256Values();
      LoadBack(content, position + 4 * i, WordAt(bits, i), 4, order);
    }
  }

  lemma WordInside(k: nat, n: nat)
    requires k < n
    ensures k / 32 + 1 <= WordCount(n)
  {}

  predicate BitAt(content: seq<byte>, position: nat, order: ByteOrder, n: nat, k: nat)
    requires k < n && position + 4 * WordCount(n) <= |content|
  {
    WordInside(k, n);
    BitsOf(Load(content, position + 4 * (k / 32), 4, order), 32)[k % 32]
  }

  /** The first `n` bits of the words at a position. */
  function ReadBits(content: seq<byte>, position: nat, order: ByteOrder, n: nat): (bits: seq<bool>)
    requires position + 4 * WordCount(n) <= |content|
    ensures |bits| == n
    ensures forall k :: 0 <= k < n ==> bits[k] == BitAt(content, position, order, n, k)
  {
    seq(n, k requires 0 <= k < n => BitAt(content, position, order, n, k))
  }

  lemma BitsBack(content: seq<byte>, position: nat, bits: seq<bool>, order: ByteOrder)
    requires At(content, position, EncodeWords(bits, order, WordCount(|bits|)))
    ensures position + 4 * WordCount(|bits|) <= |content| && ReadBits(content, position, order, |bits|) == bits
  {
    hide Load, EncodeWords, WordAt, BitsOf;
    var read := ReadBits(content, position, order, |bits|);
    forall k: nat | k < |bits| ensures read[k] == bits[k] {
      WordsBack(content, position, bits, order, WordCount(|bits|), k / 32);
      WordAtBits(bits, k);
    }
  }

  // ---------------------------------------------------------------- routing

  function RouteProblem(e: RouteError): (m: MessageError)
  {
    match e
    case InvalidArgument => MessageError.InvalidArgument
    case Truncated => MessageError.Truncated
    case InvalidProtocol => MessageError.InvalidProtocol
    case UnsupportedVersion => MessageError.UnsupportedVersion
    case NotFound => UnsupportedSubmessage
    case MalformedSubmessage => InvalidSubmessage
    case InvalidInfo => InvalidSubmessage
  }

  function HeaderOf(s: Submessage): (h: Header)
  {
    Header(s.context.version, s.context.vendor, s.context.source, OrderOf(s.flags))
  }

  predicate Flag(flags: byte, mask: nat)
    requires mask > 0
  {
    (flags / mask) % 2 == 1
  }

  function EndianFlag(order: ByteOrder): (f: byte)
  {
    if order == LittleEndian then 1 else 0
  }

  // ---------------------------------------------------------------- HEARTBEAT

  predicate NumbersOk(h: Heartbeat)
  {
    ValidSequenceNumber(h.first) && h.last <= INT64_MAX && h.last >= h.first - 1
  }

  function HeartbeatFlags(h: Heartbeat): (f: byte)
    ensures f <= 7 && OrderOf(f) == h.header.order && Flag(f, 2) == h.finalFlag && Flag(f, 4) == h.livelinessFlag
  {
    EndianFlag(h.header.order) + (if h.finalFlag then 2 else 0) + (if h.livelinessFlag then 4 else 0)
  }

  function HeartbeatContent(h: Heartbeat): (b: seq<byte>)
    ensures |b| == HEARTBEAT_CONTENT_SIZE
  {
    h.readerId + (h.writerId + (EncodeNumber(h.first, h.header.order) + (EncodeNumber(h.last, h.header.order) +
    EncodeCount(h.count, h.header.order))))
  }

  function EncodeHeartbeat(h: Heartbeat): (b: seq<byte>)
    ensures |b| == 52
  {
    EncodeHeader(h.header.version, h.header.vendor, h.header.prefix) +
    EncodeRaw(Raw(HEARTBEAT, HeartbeatFlags(h), HeartbeatContent(h)))
  }

  function ReadHeartbeat(s: Submessage): (r: Parse<Heartbeat>)
  {
    if s.flags > 7 then Wrong(UnsupportedFeature)
    else if |s.content| != HEARTBEAT_CONTENT_SIZE then Wrong(InvalidSubmessage)
    else
      var order := OrderOf(s.flags);
      var first := ReadNumber(s.content, 8, order, false);
      var last := ReadNumber(s.content, 16, order, true);
      if first.None? || last.None? || last.value < first.value - 1 then Wrong(InvalidSequenceNumber)
      else Right(Heartbeat(HeaderOf(s), s.content[0..4], s.content[4..8], first.value, last.value,
                           ReadCount(s.content, 24, order), Flag(s.flags, 2), Flag(s.flags, 4)))
  }

  function ParseHeartbeat(input: Buffer): (r: Parse<Heartbeat>)
  {
    var found := Find(input, HEARTBEAT, 0);
    if found.Failure? then Wrong(RouteProblem(found.error)) else ReadHeartbeat(found.value)
  }

  lemma HeartbeatContentBack(h: Heartbeat)
    requires NumbersOk(h)
    ensures var b, order := HeartbeatContent(h), h.header.order;
      && b[0..4] == h.readerId && b[4..8] == h.writerId && ReadNumber(b, 8, order, false) == Some(h.first)
      && ReadNumber(b, 16, order, true) == Some(h.last) && ReadCount(b, 24, order) == h.count
  {
    hide At, EncodeNumber, EncodeCount, ReadNumber, ReadCount;
    var b, order := HeartbeatContent(h), h.header.order;
    var count := EncodeCount(h.count, order);
    var last := EncodeNumber(h.last, order) + count;
    var first := EncodeNumber(h.first, order) + last;
    SliceIsAt(b, 0, |b|);
    assert b[0..|b|] == b;
    Split(b, 0, h.readerId, h.writerId + first);
    Split(b, 4, h.writerId, first);
    Split(b, 8, EncodeNumber(h.first, order), last);
    Split(b, 16, EncodeNumber(h.last, order), count);
    SliceAt(b, 0, h.readerId);
    SliceAt(b, 4, h.writerId);
    NumberBack(b, 8, h.first, order, false);
    NumberBack(b, 16, h.last, order, true);
    CountBack(b, 24, h.count, order);
  }

  /** Every heartbeat the builder accepts is parsed back identically, in either byte order. */
  lemma HeartbeatRoundTrip(h: Heartbeat)
    requires NumbersOk(h) && SupportedVersion(h.header.version)
    ensures ParseHeartbeat(Memory(EncodeHeartbeat(h))) == Right(h)
  {
    hide Find, EncodeHeader, EncodeRaw, HeartbeatContent, ReadNumber, ReadCount;
    SingleIsFound(h.header.version, h.header.vendor, h.header.prefix,
                  Raw(HEARTBEAT, HeartbeatFlags(h), HeartbeatContent(h)));
    HeartbeatContentBack(h);
  }

  /** This submessage is, flag for flag and byte for byte, the heartbeat. */
  ghost predicate Encodes(s: Submessage, h: Heartbeat)
  {
    NumbersOk(h) && s.flags == HeartbeatFlags(h) && s.content == HeartbeatContent(h) && HeaderOf(s) == h.header
  }

  lemma NumberIs(content: seq<byte>, position: nat, order: ByteOrder, allowZero: bool)
    requires position + 8 <= |content| && ReadNumber(content, position, order, allowZero).Some?
    ensures At(content, position, EncodeNumber(ReadNumber(content, position, order, allowZero).value, order))
  {
    hide At, Load, Encode;
    var high, low := Load(content, position, 4, order), Load(content, position + 4, 4, order);
    LoadU32(content, position + 4, order);
    var s := high * 0x1_0000_0000 + low;
    assert s / 0x1_0000_0000 == high && s % 0x1_0000_0000 == low;
    Reencode(content, position, 4, order);
    Reencode(content, position + 4, 4, order);
    Join(content, position, Encode(high, 4, order), Encode(low, 4, order));
  }

  lemma CountIs(content: seq<byte>, position: nat, order: ByteOrder)
    requires position + 4 <= |content|
    ensures At(content, position, EncodeCount(ReadCount(content, position, order), order))
  {
    hide At, Load, Encode;
    LoadU32(content, position, order);
    BitsInverse(0, Load(content, position, 4, order));
    Reencode(content, position, 4, order);
  }

  lemma ReadHeartbeatContent(s: Submessage)
    requires ReadHeartbeat(s).Right?
    ensures s.content == HeartbeatContent(ReadHeartbeat(s).value)
  {
    hide At, EncodeNumber, EncodeCount, ReadNumber, ReadCount;
    var h, b, order := ReadHeartbeat(s).value, s.content, OrderOf(s.flags);
    NumberIs(b, 8, order, false);
    NumberIs(b, 16, order, true);
    CountIs(b, 24, order);
    SliceIsAt(b, 0, 4);
    SliceIsAt(b, 4, 8);
    var count := EncodeCount(h.count, order);
    var last := EncodeNumber(h.last, order) + count;
    var first := EncodeNumber(h.first, order) + last;
    Join(b, 16, EncodeNumber(h.last, order), count);
    Join(b, 8, EncodeNumber(h.first, order), last);
    Join(b, 4, h.writerId, first);
    Join(b, 0, h.readerId, h.writerId + first);
    SliceAt(b, 0, HeartbeatContent(h));
  }

  lemma FlagsAre(s: Submessage, h: Heartbeat)
    requires s.flags <= 7 && OrderOf(s.flags) == h.header.order
    requires Flag(s.flags, 2) == h.finalFlag && Flag(s.flags, 4) == h.livelinessFlag
    ensures s.flags == HeartbeatFlags(h)
  {}

  lemma ReadHeartbeatIsExact(s: Submessage, h: Heartbeat)
    ensures ReadHeartbeat(s) == Right(h) <==> Encodes(s, h)
  {
    hide HeartbeatContent, HeartbeatFlags, ReadNumber, ReadCount;
    if ReadHeartbeat(s) == Right(h) {
      ReadHeartbeatContent(s);
      FlagsAre(s, h);
      ReadNumberRange(s.content, 8, OrderOf(s.flags), false);
      ReadNumberRange(s.content, 16, OrderOf(s.flags), true);
    }
    if Encodes(s, h) {
      HeartbeatContentBack(h);
    }
  }

  /**
   A message is parsed as a heartbeat exactly when it is well formed and its first HEARTBEAT submessage is
   that heartbeat, flag for flag and byte for byte, in the context the submessages before it leave.
   */
  lemma HeartbeatParseIsExact(message: seq<byte>, h: Heartbeat)
    ensures ParseHeartbeat(Memory(message)) == Right(h)
       <==> exists subs, i :: IsNth(message, subs, HEARTBEAT, 0, i) && Encodes(subs[i], h)
  {
    hide Find, ReadHeartbeat, Encodes, Tiling, HeaderContext, HeaderError, Earlier;
    var found := Find(Memory(message), HEARTBEAT, 0);
    if found.Success? {
      ReadHeartbeatIsExact(found.value, h);
      FindIsExact(message, HEARTBEAT, 0, found.value);
      if ParseHeartbeat(Memory(message)) == Right(h) {
        var subs, i :| IsNth(message, subs, HEARTBEAT, 0, i) && subs[i] == found.value;
        assert Encodes(subs[i], h);
      }
    }
    forall subs: seq<Submessage>, i: nat | IsNth(message, subs, HEARTBEAT, 0, i) && Encodes(subs[i], h)
      ensures ParseHeartbeat(Memory(message)) == Right(h)
    {
      FindIsExact(message, HEARTBEAT, 0, subs[i]);
      ReadHeartbeatIsExact(subs[i], h);
    }
  }

  /** Whatever is parsed could have been built. */
  lemma ParsedHeartbeatIsBuildable(input: Buffer)
    requires ParseHeartbeat(input).Right?
    ensures NumbersOk(ParseHeartbeat(input).value)
  {
    hide Find, ReadNumber, ReadCount;
    var s := Find(input, HEARTBEAT, 0).value;
    ReadNumberRange(s.content, 8, OrderOf(s.flags), false);
    ReadNumberRange(s.content, 16, OrderOf(s.flags), true);
  }

  // ---------------------------------------------------------------- ACKNACK

  function AckNackFlags(a: AckNack): (f: byte)
    ensures f <= 3 && OrderOf(f) == a.header.order && Flag(f, 2) == a.finalFlag
  {
    EndianFlag(a.header.order) + (if a.finalFlag then 2 else 0)
  }

  function AckNackContent(a: AckNack): (b: seq<byte>)
    ensures |b| == ACKNACK_FIXED_SIZE + 4 * WordCount(|a.readerState.bits|)
  {
    var order, bits := a.header.order, a.readerState.bits;
    a.readerId + (a.writerId + (EncodeNumber(a.readerState.base, order) + (Encode(|bits|, 4, order) +
    (EncodeWords(bits, order, WordCount(|bits|)) + EncodeCount(a.count, order)))))
  }

  function EncodeAckNack(a: AckNack): (b: seq<byte>)
    ensures |b| == 48 + 4 * WordCount(|a.readerState.bits|)
  {
    EncodeHeader(a.header.version, a.header.vendor, a.header.prefix) +
    EncodeRaw(Raw(ACKNACK, AckNackFlags(a), AckNackContent(a)))
  }

  function ReadAckNack(s: Submessage): (r: Parse<AckNack>)
  {
    if s.flags > 3 then Wrong(UnsupportedFeature)
    else if |s.content| < ACKNACK_FIXED_SIZE then Wrong(InvalidSubmessage)
    else
      var order := OrderOf(s.flags);
      var base := ReadNumber(s.content, 8, order, false);
      if base.None? then Wrong(InvalidSequenceNumber)
      else
        var n := Load(s.content, 16, 4, order);
        if n > MAXIMUM_BITS then Wrong(BitmapBoundExceeded)
        else if |s.content| != ACKNACK_FIXED_SIZE + 4 * WordCount(n) then Wrong(InvalidSubmessage)
        else if !Representable(base.value, n) then Wrong(InvalidSequenceNumber)
        else Right(AckNack(HeaderOf(s), s.content[0..4], s.content[4..8],
                           NumberSet(base.value, ReadBits(s.content, 20, order, n)),
                           ReadCount(s.content, 20 + 4 * WordCount(n), order), Flag(s.flags, 2)))
  }

  function ParseAckNack(input: Buffer): (r: Parse<AckNack>)
  {
    var found := Find(input, ACKNACK, 0);
    if found.Failure? then Wrong(RouteProblem(found.error)) else ReadAckNack(found.value)
  }

  lemma AckNackContentBack(a: AckNack)
    requires ValidSequenceNumber(a.readerState.base) && |a.readerState.bits| <= MAXIMUM_BITS
    ensures var b, order, n := AckNackContent(a), a.header.order, |a.readerState.bits|;
      && b[0..4] == a.readerId && b[4..8] == a.writerId && ReadNumber(b, 8, order, false) == Some(a.readerState.base)
      && Load(b, 16, 4, order) == n && ReadBits(b, 20, order, n) == a.readerState.bits
      && ReadCount(b, 20 + 4 * WordCount(n), order) == a.count
  {
    hide At, EncodeNumber, EncodeCount, EncodeWords, ReadNumber, ReadCount, ReadBits, Load, Encode;
    var b, order, bits := AckNackContent(a), a.header.order, a.readerState.bits;
    var words, count := EncodeWords(bits, order, WordCount(|bits|)), EncodeCount(a.count, order);
    var sized := Encode(|bits|, 4, order) + (words + count);
    var based := EncodeNumber(a.readerState.base, order) + sized;
    SliceIsAt(b, 0, |b|);
    assert b[0..|b|] == b;
    Split(b, 0, a.readerId, a.writerId + based);
    Split(b, 4, a.writerId, based);
    Split(b, 8, EncodeNumber(a.readerState.base, order), sized);
    Split(b, 16, Encode(|bits|, 4, order), words + count);
    Split(b, 20, words, count);
    SliceAt(b, 0, a.readerId);
    SliceAt(b, 4, a.writerId);
    NumberBack(b, 8, a.readerState.base, order, false);
    Pow256Values();
    LoadBack(b, 16, |bits|, 4, order);
    BitsBack(b, 20, bits, order);
    CountBack(b, 20 + 4 * WordCount(|bits|), a.count, order);
  }

  /**
   Every acknowledgement the builder accepts is parsed back identically, every bit of it, in either byte order,
   exactly when all its numbers are sequence numbers; sets made with `reset` always are.
   */
  lemma AckNackRoundTrip(a: AckNack)
    requires ValidSequenceNumber(a.readerState.base) && |a.readerState.bits| <= MAXIMUM_BITS
    requires SupportedVersion(a.header.version)
    ensures ParseAckNack(Memory(EncodeAckNack(a)))
         == if Representable(a.readerState.base, |a.readerState.bits|) then Right(a) else Wrong(InvalidSequenceNumber)
  {
    hide Find, EncodeHeader, EncodeRaw, AckNackContent, ReadNumber, ReadCount, ReadBits, Load;
    SingleIsFound(a.header.version, a.header.vendor, a.header.prefix, Raw(ACKNACK, AckNackFlags(a), AckNackContent(a)));
    AckNackContentBack(a);
  }

  // ---------------------------------------------------------------- builders

  /** Which error starting a message of a given size reports, if any. */
  function BeginError(header: Header, present: bool, capacity: nat, size: nat): (e: Option<MessageError>)
  {
    if !present && capacity != 0 then Some(MessageError.InvalidArgument)
    else if !SupportedVersion(header.version) then Some(MessageError.UnsupportedVersion)
    else if size > capacity then Some(BufferOverflow)
    else None
  }

  function HeartbeatProblem(h: Heartbeat, present: bool, capacity: nat): (e: Option<MessageError>)
  {
    if !NumbersOk(h) then Some(InvalidSequenceNumber) else BeginError(h.header, present, capacity, 52)
  }

  function AckNackProblem(a: AckNack, present: bool, capacity: nat): (e: Option<MessageError>)
  {
    if !ValidSequenceNumber(a.readerState.base) then Some(InvalidSequenceNumber)
    else if |a.readerState.bits| > MAXIMUM_BITS then Some(BitmapBoundExceeded)
    else BeginError(a.header, present, capacity, 48 + 4 * WordCount(|a.readerState.bits|))
  }

  /**
   A heartbeat is built exactly when its numbers and version are valid and there is a buffer that its encoding fits.
   */
  lemma HeartbeatIsBuilt(h: Heartbeat, present: bool, capacity: nat)
    ensures HeartbeatProblem(h, present, capacity).None?
       <==> NumbersOk(h) && SupportedVersion(h.header.version) && present && |EncodeHeartbeat(h)| <= capacity
    ensures HeartbeatProblem(h, present, capacity) == Some(InvalidSequenceNumber) <==> !NumbersOk(h)
  {
    hide EncodeHeartbeat;
  }

  /**
   An ACKNACK is built exactly when its base, size and version are valid and there is a buffer that its encoding
   fits.
   */
  lemma AckNackIsBuilt(a: AckNack, present: bool, capacity: nat)
    ensures AckNackProblem(a, present, capacity).None?
       <==> && ValidSequenceNumber(a.readerState.base) && |a.readerState.bits| <= 256
            && SupportedVersion(a.header.version) && present && |EncodeAckNack(a)| <= capacity
    ensures AckNackProblem(a, present, capacity) == Some(InvalidSequenceNumber)
       <==> !ValidSequenceNumber(a.readerState.base)
  {
    hide EncodeAckNack;
  }

  class MessageBuilder {
    const buffer: array?<byte>
    const capacity: nat
    var size: nat
    var error: Option<MessageError>

    ghost predicate Valid()
    {
      buffer != null ==> capacity <= buffer.Length
    }

    constructor (buffer: array?<byte>, capacity: nat)
      requires buffer != null ==> capacity <= buffer.Length
      ensures Valid() && this.buffer == buffer && this.capacity == capacity && size == 0
      ensures error == if buffer == null && capacity != 0 then Some(MessageError.InvalidArgument) else None
    {
      this.buffer, this.capacity, size := buffer, capacity, 0;
      error := if buffer == null && capacity != 0 then Some(MessageError.InvalidArgument) else None;
    }

    method Fail(e: MessageError) returns (ok: bool)
      requires error.None?
      modifies this
      ensures !ok && error == Some(e) && size == 0
    {
      error, size := Some(e), 0;
      return false;
    }

    /** Check what every message needs, and write the RTPS header. */
    method Begin(header: Header, messageSize: nat) returns (ok: bool)
      requires Valid() && error.None? && messageSize >= HEADER_SIZE
      modifies this, buffer
      ensures error == BeginError(header, buffer != null, capacity, messageSize) && (ok <==> error.None?)
      ensures ok ==> size == old(size) && buffer != null
      ensures ok ==> Starts(buffer, EncodeHeader(header.version, header.vendor, header.prefix))
      ensures !ok ==> size == 0
    {
      if buffer == null && capacity != 0 {
        ok := Fail(MessageError.InvalidArgument);
        return;
      }
      if !SupportedVersion(header.version) {
        ok := Fail(MessageError.UnsupportedVersion);
        return;
      }
      if messageSize > capacity {
        ok := Fail(BufferOverflow);
        return;
      }
      var _ := PutHeader(buffer, header);
      return true;
    }

    method BuildHeartbeat(h: Heartbeat) returns (ok: bool)
      requires Valid()
      modifies this, buffer
      ensures error == HeartbeatProblem(h, buffer != null, capacity) && (ok <==> error.None?)
      ensures ok ==> buffer != null && size <= buffer.Length && buffer[..size] == EncodeHeartbeat(h)
      ensures !ok ==> size == 0
    {
      hide EncodeHeader, EncodeRaw, HeartbeatContent, Starts;
      size, error := 0, None;
      if !NumbersOk(h) {
        ok := Fail(InvalidSequenceNumber);
        return;
      }
      ok := Begin(h.header, 52);
      if ok {
        var end := PutRawHeader(buffer, EncodeHeader(h.header.version, h.header.vendor, h.header.prefix), HEARTBEAT,
                                HeartbeatFlags(h), HEARTBEAT_CONTENT_SIZE);
        size := PutHeartbeatContent(buffer, EncodeHeader(h.header.version, h.header.vendor, h.header.prefix), end, h);
        StartsSlice(buffer, EncodeHeartbeat(h));
      }
    }

    method BuildAckNack(a: AckNack) returns (ok: bool)
      requires Valid()
      modifies this, buffer
      ensures error == AckNackProblem(a, buffer != null, capacity) && (ok <==> error.None?)
      ensures ok ==> buffer != null && size <= buffer.Length && buffer[..size] == EncodeAckNack(a)
      ensures !ok ==> size == 0
    {
      hide EncodeHeader, EncodeRaw, AckNackContent, Starts;
      size, error := 0, None;
      if !ValidSequenceNumber(a.readerState.base) {
        ok := Fail(InvalidSequenceNumber);
        return;
      }
      if |a.readerState.bits| > MAXIMUM_BITS {
        ok := Fail(BitmapBoundExceeded);
        return;
      }
      var contentSize := ACKNACK_FIXED_SIZE + 4 * WordCount(|a.readerState.bits|);
      ok := Begin(a.header, 24 + contentSize);
      if ok {
        var end := PutRawHeader(buffer, EncodeHeader(a.header.version, a.header.vendor, a.header.prefix), ACKNACK,
                                AckNackFlags(a), contentSize);
        size := PutAckNackContent(buffer, EncodeHeader(a.header.version, a.header.vendor, a.header.prefix), end, a);
        StartsSlice(buffer, EncodeAckNack(a));
      }
    }
  }

  method PutHeader(output: array<byte>, h: Header) returns (end: nat)
    requires HEADER_SIZE <= output.Length
    modifies output
    ensures Starts(output, EncodeHeader(h.version, h.vendor, h.prefix)) && end == HEADER_SIZE
  {
    hide Starts;
    var magic: seq<byte> := ['R' as int, 'T' as int, 'P' as int, 'S' as int];
    end := StartAt(output);
    end := PutBytes(output, [], end, magic);
    end := PutBytes(output, [] + magic, end, [h.version.major, h.version.minor]);
    end := PutBytes(output, [] + magic + [h.version.major, h.version.minor], end, h.vendor);
    end := PutBytes(output, [] + magic + [h.version.major, h.version.minor] + h.vendor, end, h.prefix);
    assert [] + magic + [h.version.major, h.version.minor] + h.vendor + h.prefix ==
        EncodeHeader(h.version, h.vendor, h.prefix);
  }

  /** The four bytes that announce a submessage. */
  function RawHeader(id: byte, flags: byte, size: nat): (b: seq<byte>)
    ensures |b| == 4
  {
    [id, flags] + Encode(size, 2, OrderOf(flags))
  }

  method PutRawHeader(output: array<byte>, ghost before: seq<byte>, id: byte, flags: byte, size: nat) returns (end: nat)
    requires Starts(output, before) && |before| == HEADER_SIZE && HEADER_SIZE + 4 <= output.Length
    modifies output
    ensures Starts(output, before + RawHeader(id, flags, size)) && end == HEADER_SIZE + 4
  {
    hide Starts, Encode;
    end := PutBytes(output, before, HEADER_SIZE, [id, flags]);
    end := PutInteger(output, before + [id, flags], end, size, 2, OrderOf(flags));
    assert before + [id, flags] + Encode(size, 2, OrderOf(flags)) == before + RawHeader(id, flags, size);
  }

  method PutNumber(output: array<byte>, ghost before: seq<byte>, position: nat, s: nat, order: ByteOrder)
    returns (end: nat)
    requires Starts(output, before) && position == |before| && position + 8 <= output.Length
    modifies output
    ensures Starts(output, before + EncodeNumber(s, order)) && end == |before| + 8
  {
    hide Starts, Encode;
    var high, low := s / 0x1_0000_0000, s % 0x1_0000_0000;
    end := PutInteger(output, before, position, high, 4, order);
    end := PutInteger(output, before + Encode(high, 4, order), end, low, 4, order);
    Assoc(before, Encode(high, 4, order), Encode(low, 4, order));
  }

  method PutHeartbeatContent(output: array<byte>, ghost header: seq<byte>, position: nat, h: Heartbeat)
    returns (end: nat)
    requires |header| == HEADER_SIZE && position == 24 && 52 <= output.Length
    requires Starts(output, header + RawHeader(HEARTBEAT, HeartbeatFlags(h), HEARTBEAT_CONTENT_SIZE))
    modifies output
    ensures Starts(output, header + EncodeRaw(Raw(HEARTBEAT, HeartbeatFlags(h), HeartbeatContent(h)))) && end == 52
  {
    hide Starts, EncodeNumber, EncodeCount, Encode;
    var order := h.header.order;
    ghost var b := header + RawHeader(HEARTBEAT, HeartbeatFlags(h), HEARTBEAT_CONTENT_SIZE);
    ghost var start := b;
    end := PutBytes(output, b, position, h.readerId);
    b := b + h.readerId;
    end := PutBytes(output, b, end, h.writerId);
    b := b + h.writerId;
    end := PutNumber(output, b, end, h.first, order);
    b := b + EncodeNumber(h.first, order);
    end := PutNumber(output, b, end, h.last, order);
    b := b + EncodeNumber(h.last, order);
    end := PutCount(output, b, end, h.count, order);
    b := b + EncodeCount(h.count, order);
    assert b == start + HeartbeatContent(h);
    RawParts(header, Raw(HEARTBEAT, HeartbeatFlags(h), HeartbeatContent(h)));
  }

  lemma RawParts(header: seq<byte>, raw: Raw)
    ensures header + RawHeader(raw.id, raw.flags, |raw.content|) + raw.content == header + EncodeRaw(raw)
  {
    hide Encode;
  }

  method PutCount(output: array<byte>, ghost before: seq<byte>, position: nat, count: i32, order: ByteOrder)
    returns (end: nat)
    requires Starts(output, before) && position == |before| && position + 4 <= output.Length
    modifies output
    ensures Starts(output, before + EncodeCount(count, order)) && end == |before| + 4
  {
    end := PutInteger(output, before, position, Bits(count), 4, order);
  }

  method PutWords(output: array<byte>, ghost before: seq<byte>, position: nat, bits: seq<bool>, order: ByteOrder)
    returns (end: nat)
    requires Starts(output, before) && position == |before| && position + 4 * WordCount(|bits|) <= output.Length
    modifies output
    ensures Starts(output, before + EncodeWords(bits, order, WordCount(|bits|))) &&
        end == |before| + 4 * WordCount(|bits|)
  {
    hide Starts, Encode, WordAt;
    end := position;
    assert before + [] == before;
    for index := 0 to WordCount(|bits|)
      invariant Starts(output, before + EncodeWords(bits, order, index)) && end == |before| + 4 * index
    {
      end := PutInteger(output, before + EncodeWords(bits, order, index), end, WordAt(bits, index), 4, order);
      Assoc(before, EncodeWords(bits, order, index), Encode(WordAt(bits, index), 4, order));
    }
  }

  method PutAckNackContent(output: array<byte>, ghost header: seq<byte>, position: nat, a: AckNack) returns (end: nat)
    requires |header| == HEADER_SIZE && position == 24 && 48 + 4 * WordCount(|a.readerState.bits|) <= output.Length
    requires Starts(output, header +
                      RawHeader(ACKNACK, AckNackFlags(a), ACKNACK_FIXED_SIZE + 4 * WordCount(|a.readerState.bits|)))
    modifies output
    ensures Starts(output, header + EncodeRaw(Raw(ACKNACK, AckNackFlags(a), AckNackContent(a))))
    ensures end == 48 + 4 * WordCount(|a.readerState.bits|)
  {
    hide Starts, EncodeNumber, EncodeCount, EncodeWords, Encode;
    var order, bits := a.header.order, a.readerState.bits;
    ghost var start := header + RawHeader(ACKNACK, AckNackFlags(a), ACKNACK_FIXED_SIZE + 4 * WordCount(|bits|));
    ghost var b := start;
    end := PutBytes(output, b, position, a.readerId);
    b := b + a.readerId;
    end := PutBytes(output, b, end, a.writerId);
    b := b + a.writerId;
    end := PutNumber(output, b, end, a.readerState.base, order);
    b := b + EncodeNumber(a.readerState.base, order);
    end := PutInteger(output, b, end, |bits|, 4, order);
    b := b + Encode(|bits|, 4, order);
    end := PutWords(output, b, end, bits, order);
    b := b + EncodeWords(bits, order, WordCount(|bits|));
    end := PutCount(output, b, end, a.count, order);
    b := b + EncodeCount(a.count, order);
    assert b == start + AckNackContent(a);
    RawParts(header, Raw(ACKNACK, AckNackFlags(a), AckNackContent(a)));
  }

  // ---------------------------------------------------------------- parsers

  method ParseHeartbeatMessage(input: Buffer) returns (r: Parse<Heartbeat>)
    ensures r == ParseHeartbeat(input)
  {
    hide Find, ReadNumber, ReadCount;
    var found := FindSubmessage(input, HEARTBEAT, 0);
    if found.Failure? {
      return Wrong(RouteProblem(found.error));
    }
    var s := found.value;
    if s.flags > 7 {
      return Wrong(UnsupportedFeature);
    }
    if |s.content| != HEARTBEAT_CONTENT_SIZE {
      return Wrong(InvalidSubmessage);
    }
    var order := OrderOf(s.flags);
    var first := ReadNumber(s.content, 8, order, false);
    if first.None? {
      return Wrong(InvalidSequenceNumber);
    }
    var last := ReadNumber(s.content, 16, order, true);
    if last.None? || last.value + 1 < first.value {
      return Wrong(InvalidSequenceNumber);
    }
    var count := ReadCount(s.content, 24, order);
    return Right(Heartbeat(HeaderOf(s), s.content[0..4], s.content[4..8], first.value, last.value, count,
                           Flag(s.flags, 2), Flag(s.flags, 4)));
  }

  /** The first `k` bits as given, the others clear. */
  function Upto(bits: seq<bool>, k: nat): (r: seq<bool>)
    ensures |r| == |bits|
  {
    seq(|bits|, i requires 0 <= i < |bits| => i < k && bits[i])
  }

  lemma UptoNext(bits: seq<bool>, k: nat)
    ensures k < |bits| ==> Upto(bits, k + 1) == if bits[k] then Upto(bits, k)[k := true] else Upto(bits, k)
    ensures k >= |bits| ==> Upto(bits, k + 1) == Upto(bits, k) == bits
  {
    if k < |bits| && !bits[k] {
      assert Upto(bits, k + 1) == Upto(bits, k);
    }
  }

  /** Copy one bit into the set, if it is inside. */
  method FillBit(numbers: SequenceNumberSet, ghost bits: seq<bool>, k: nat, flagged: bool)
    requires numbers.Valid() && numbers.View().bits == Upto(bits, k) && (k < |bits| ==> bits[k] == flagged)
    modifies numbers.bitmap
    ensures numbers.Valid() && numbers.View() == NumberSet(old(numbers.View()).base, Upto(bits, k + 1))
  {
    hide MemberBits, Packed, Upto;
    UptoNext(bits, k);
    if k < numbers.numBits && flagged {
      var ok := numbers.Set(k);
      assert ok;
    }
  }

  /** Copy the bits of one word into the set. */
  method FillWord(numbers: SequenceNumberSet, ghost bits: seq<bool>, index: nat, word: nat)
    requires numbers.Valid() && numbers.View().bits == Upto(bits, 32 * index)
    requires forall j: nat :: j < 32 && 32 * index + j < |bits| ==> bits[32 * index + j] == BitsOf(word, 32)[j]
    modifies numbers.bitmap
    ensures numbers.Valid() && numbers.View() == NumberSet(old(numbers.View()).base, Upto(bits, 32 * index + 32))
  {
    hide BitsOf, MemberBits, Packed, Upto, TestBit;
    for bit := 0 to 32
      invariant numbers.Valid() && numbers.View() == NumberSet(old(numbers.View()).base, Upto(bits, 32 * index + bit))
    {
      TestBitIsBit(word, 32, bit);
      FillBit(numbers, bits, 32 * index + bit, TestBit(word, 31 - bit));
    }
  }

  method FillBits(numbers: SequenceNumberSet, content: seq<byte>, order: ByteOrder)
    requires numbers.Valid() && 20 + 4 * WordCount(|numbers.View().bits|) <= |content|
    requires numbers.View().bits == seq(|numbers.View().bits|, _ => false)
    modifies numbers.bitmap
    ensures numbers.Valid()
    ensures numbers.View() ==
        NumberSet(old(numbers.View()).base, ReadBits(content, 20, order, |old(numbers.View()).bits|))
  {
    hide BitsOf, MemberBits, Packed, Load;
    var n := numbers.numBits;
    ghost var base := numbers.View().base;
    ghost var bits := ReadBits(content, 20, order, n);
    assert numbers.View().bits == Upto(bits, 0);
    for index := 0 to WordCount(n)
      invariant numbers.Valid() && numbers.View() == NumberSet(base, Upto(bits, 32 * index))
    {
      var word := Load(content, 20 + 4 * index, 4, order);
      forall j: nat | j < 32 && 32 * index + j < n ensures bits[32 * index + j] == BitsOf(word, 32)[j] {
        assert (32 * index + j) / 32 == index && (32 * index + j) % 32 == j;
      }
      FillWord(numbers, bits, index, word);
    }
    UptoAll(bits, 32 * WordCount(n));
  }

  lemma UptoAll(bits: seq<bool>, k: nat)
    requires k >= |bits|
    ensures Upto(bits, k) == bits
  {}

  method ParseAckNackMessage(input: Buffer) returns (r: Parse<AckNack>)
    ensures r == ParseAckNack(input)
  {
    hide Find, ReadNumber, ReadBits, ReadCount, Load;
    var found := FindSubmessage(input, ACKNACK, 0);
    if found.Failure? {
      return Wrong(RouteProblem(found.error));
    }
    var s := found.value;
    if s.flags > 3 {
      return Wrong(UnsupportedFeature);
    }
    if |s.content| < ACKNACK_FIXED_SIZE {
      return Wrong(InvalidSubmessage);
    }
    var order := OrderOf(s.flags);
    var base := ReadNumber(s.content, 8, order, false);
    if base.None? {
      return Wrong(InvalidSequenceNumber);
    }
    var n := Load(s.content, 16, 4, order);
    if n > MAXIMUM_BITS {
      return Wrong(BitmapBoundExceeded);
    }
    if |s.content| != ACKNACK_FIXED_SIZE + 4 * WordCount(n) {
      return Wrong(InvalidSubmessage);
    }
    var numbers := new SequenceNumberSet();
    var ok := numbers.Reset(base.value, n);
    if !ok {
      return Wrong(InvalidSequenceNumber);
    }
    FillBits(numbers, s.content, order);
    var readerState := numbers.Copy();
    return Right(AckNack(HeaderOf(s), s.content[0..4], s.content[4..8], readerState,
                         ReadCount(s.content, 20 + 4 * WordCount(n), order), Flag(s.flags, 2)));
  }
}
