/** DATA messages: one unfragmented sample with its serialized payload. */
module DataMessage {
  import opened Bytes
  import opened Layout
  import opened SequenceSet
  import opened RtpsTypes
  import opened Router
  import opened RouterExact
  import opened BufferWriter
  import opened ReliabilityMessages

  const OVERHEAD := 44
  const FIXED_CONTENT_SIZE := 20
  const MINIMUM_PAYLOAD := 4
  const MAXIMUM_UDP_PAYLOAD := 65507
  const OCTETS_TO_INLINE_QOS := 16

  datatype DataError =
    | InvalidArgument | BufferOverflow | MessageTooLarge | Truncated | InvalidProtocol | UnsupportedVersion
    | UnsupportedSubmessage | UnsupportedFeature | InvalidSubmessage | InvalidSequenceNumber | InvalidPayload

  datatype Result<+T> = Err(error: DataError) | Ok(value: T)

  datatype Data = Data(header: Header, readerId: EntityId, writerId: EntityId, sequence: nat, payload: seq<byte>)

  /** What a receiver sees: the sample, and the destination and timestamp in force for it. */
  datatype View = View(data: Data, destination: GuidPrefix, hasDestination: bool, timestamp: Timestamp,
                       hasTimestamp: bool)

  /** An encapsulation header followed by anything; only the four CDR representations are known. */
  predicate SupportedPayload(payload: seq<byte>)
  {
    |payload| >= MINIMUM_PAYLOAD && payload[0] == 0 && payload[1] <= 3
  }

  /** Plain CDR or a parameter list, in either byte order. */
  lemma SupportedPayloads(payload: seq<byte>)
    ensures SupportedPayload(payload) <==> |payload| >= 4 && payload[..2] in {[0, 0], [0, 1], [0, 2], [0, 3]}
  {
    if |payload| >= 4 {
      assert payload[..2] == [payload[0], payload[1]];
      assert [0, 0][0] == [0, 1][0] == [0, 2][0] == [0, 3][0] == 0;
      assert [0, 0][1] == 0 && [0, 1][1] == 1 && [0, 2][1] == 2 && [0, 3][1] == 3;
    }
  }

  function RouteProblem(e: RouteError): (m: DataError)
  {
    match e
    case InvalidArgument => DataError.InvalidArgument
    case Truncated => DataError.Truncated
    case InvalidProtocol => DataError.InvalidProtocol
    case UnsupportedVersion => DataError.UnsupportedVersion
    case NotFound => DataError.UnsupportedSubmessage
    case MalformedSubmessage => DataError.InvalidSubmessage
    case InvalidInfo => DataError.InvalidSubmessage
  }

  function DataFlags(order: ByteOrder): (f: byte)
    ensures f <= 5 && OrderOf(f) == order && Flag(f, 4) && !Flag(f, 2) && !Flag(f, 8) && !Flag(f, 16)
  {
    4 + EndianFlag(order)
  }

  function DataContent(d: Data): (b: seq<byte>)
    ensures |b| == FIXED_CONTENT_SIZE + |d.payload|
  {
    var order := d.header.order;
    Encode(0, 2, order) + (Encode(OCTETS_TO_INLINE_QOS, 2, order) + (d.readerId + (d.writerId +
    (EncodeNumber(d.sequence, order) + d.payload))))
  }

  function EncodeData(d: Data): (b: seq<byte>)
    ensures |b| == OVERHEAD + |d.payload|
  {
    EncodeHeader(d.header.version, d.header.vendor, d.header.prefix) +
    EncodeRaw(Raw(DATA, DataFlags(d.header.order), DataContent(d)))
  }

  function ReadData(s: Submessage): (r: Result<View>)
  {
    if !Flag(s.flags, 4) then Err(DataError.InvalidSubmessage)
    else if Flag(s.flags, 2) || Flag(s.flags, 8) || Flag(s.flags, 16) then Err(DataError.UnsupportedFeature)
    else if |s.content| < FIXED_CONTENT_SIZE + MINIMUM_PAYLOAD then Err(DataError.InvalidSubmessage)
    else
      var order := OrderOf(s.flags);
      if Load(s.content, 0, 2, order) != 0 then Err(DataError.UnsupportedFeature)
      else
        var start := 4 + Load(s.content, 2, 2, order);
        if start < 4 + OCTETS_TO_INLINE_QOS || start + MINIMUM_PAYLOAD > |s.content|
        then Err(DataError.InvalidSubmessage)
        else
          var sequence := ReadNumber(s.content, 12, order, false);
          if sequence.None? then Err(DataError.InvalidSequenceNumber)
          else if !SupportedPayload(s.content[start..]) then Err(InvalidPayload)
          else
            var c := s.context;
            Ok(View(Data(HeaderOf(s), s.content[4..8], s.content[8..12], sequence.value, s.content[start..]),
                    c.destination, c.hasDestination, c.timestamp, c.hasTimestamp))
  }

  function ParseData(input: Buffer): (r: Result<View>)
  {
    var found := Find(input, DATA, 0);
    if found.Failure? then Err(RouteProblem(found.error)) else ReadData(found.value)
  }

  lemma DataContentBack(d: Data)
    requires ValidSequenceNumber(d.sequence)
    ensures var b, order := DataContent(d), d.header.order;
      && Load(b, 0, 2, order) == 0 && Load(b, 2, 2, order) == OCTETS_TO_INLINE_QOS
      && b[4..8] == d.readerId && b[8..12] == d.writerId
      && ReadNumber(b, 12, order, false) == Some(d.sequence) && b[20..] == d.payload
  {
    hide At, EncodeNumber, ReadNumber, Load, Encode;
    var b, order := DataContent(d), d.header.order;
    var numbered := EncodeNumber(d.sequence, order) + d.payload;
    var written := d.writerId + numbered;
    var read := d.readerId + written;
    var quality := Encode(OCTETS_TO_INLINE_QOS, 2, order);
    SliceIsAt(b, 0, |b|);
    assert b[0..|b|] == b;
    Split(b, 0, Encode(0, 2, order), quality + read);
    Split(b, 2, quality, read);
    Split(b, 4, d.readerId, written);
    Split(b, 8, d.writerId, numbered);
    Split(b, 12, EncodeNumber(d.sequence, order), d.payload);
    Pow256Values();
    LoadBack(b, 0, 0, 2, order);
    LoadBack(b, 2, OCTETS_TO_INLINE_QOS, 2, order);
    SliceAt(b, 4, d.readerId);
    SliceAt(b, 8, d.writerId);
    NumberBack(b, 12, d.sequence, order, false);
    SliceAt(b, 20, d.payload);
    assert b[20..] == b[20..20 + |d.payload|];
  }

  /** What a DATA message must satisfy to be built, apart from the buffer. */
  predicate Buildable(d: Data)
  {
    SupportedVersion(d.header.version) && ValidSequenceNumber(d.sequence) && SupportedPayload(d.payload) &&
    OVERHEAD + |d.payload| <= MAXIMUM_UDP_PAYLOAD
  }

  /** Every DATA message the builder accepts is parsed back identically, in either byte order. */
  lemma DataRoundTrip(d: Data)
    requires Buildable(d)
    ensures ParseData(Memory(EncodeData(d))) == Ok(View(d, NO_PREFIX, false, Timestamp(0, 0), false))
  {
    hide Find, EncodeHeader, EncodeRaw, DataContent, ReadNumber, Load;
    SingleIsFound(d.header.version, d.header.vendor, d.header.prefix,
                  Raw(DATA, DataFlags(d.header.order), DataContent(d)));
    DataContentBack(d);
  }

  /** Which error building reports, if any; the payload may be a null pointer. */
  function BuildProblem(header: Header, sequence: nat, payload: Buffer, present: bool, capacity: nat)
    : (e: Option<DataError>)
  {
    if !present && capacity != 0 then Some(DataError.InvalidArgument)
    else if !SupportedVersion(header.version) then Some(DataError.UnsupportedVersion)
    else if !ValidSequenceNumber(sequence) then Some(DataError.InvalidSequenceNumber)
    else if payload.Null? || !SupportedPayload(payload.bytes) then Some(InvalidPayload)
    else if OVERHEAD + |payload.bytes| > MAXIMUM_UDP_PAYLOAD then Some(MessageTooLarge)
    else if OVERHEAD + |payload.bytes| > capacity then Some(DataError.BufferOverflow)
    else None
  }

  class DataMessageBuilder {
    const buffer: array?<byte>
    const capacity: nat
    var size: nat
    var error: Option<DataError>

    ghost predicate Valid()
    {
      buffer != null ==> capacity <= buffer.Length
    }

    constructor (buffer: array?<byte>, capacity: nat)
      requires buffer != null ==> capacity <= buffer.Length
      ensures Valid() && this.buffer == buffer && this.capacity == capacity && size == 0
      ensures error == if buffer == null && capacity != 0 then Some(DataError.InvalidArgument) else None
    {
      this.buffer, this.capacity, size := buffer, capacity, 0;
      error := if buffer == null && capacity != 0 then Some(DataError.InvalidArgument) else None;
    }

    method Build(header: Header, readerId: EntityId, writerId: EntityId, sequence: nat, payload: Buffer)
      returns (ok: bool)
      requires Valid()
      modifies this, buffer
      ensures error == BuildProblem(header, sequence, payload, buffer != null, capacity) && (ok <==> error.None?)
      ensures ok ==> buffer != null && payload.Memory? && size <= buffer.Length
      ensures ok ==> buffer[..size] == EncodeData(Data(header, readerId, writerId, sequence, payload.bytes))
      ensures !ok ==> size == 0
    {
      hide EncodeHeader, EncodeRaw, DataContent, Starts;
      size := 0;
      error := BuildProblem(header, sequence, payload, buffer != null, capacity);
      if error.Some? {
        return false;
      }
      var d := Data(header, readerId, writerId, sequence, payload.bytes);
      var end := PutHeader(buffer, header);
      ghost var b := EncodeHeader(header.version, header.vendor, header.prefix);
      end := PutRawHeader(buffer, b, DATA, DataFlags(header.order), FIXED_CONTENT_SIZE + |d.payload|);
      size := PutDataContent(buffer, b, end, d);
      StartsSlice(buffer, EncodeData(d));
      return true;
    }
  }

  method PutDataContent(output: array<byte>, ghost header: seq<byte>, position: nat, d: Data) returns (end: nat)
    requires |header| == HEADER_SIZE && position == 24 && OVERHEAD + |d.payload| <= output.Length
    requires Starts(output, header + RawHeader(DATA, DataFlags(d.header.order), FIXED_CONTENT_SIZE + |d.payload|))
    modifies output
    ensures Starts(output, header + EncodeRaw(Raw(DATA, DataFlags(d.header.order), DataContent(d))))
    ensures end == OVERHEAD + |d.payload|
  {
    hide Starts, EncodeNumber, Encode;
    var order := d.header.order;
    ghost var start := header + RawHeader(DATA, DataFlags(order), FIXED_CONTENT_SIZE + |d.payload|);
    ghost var b := start;
    end := PutInteger(output, b, position, 0, 2, order);
    b := b + Encode(0, 2, order);
    end := PutInteger(output, b, end, OCTETS_TO_INLINE_QOS, 2, order);
    b := b + Encode(OCTETS_TO_INLINE_QOS, 2, order);
    end := PutBytes(output, b, end, d.readerId);
    b := b + d.readerId;
    end := PutBytes(output, b, end, d.writerId);
    b := b + d.writerId;
    end := PutNumber(output, b, end, d.sequence, order);
    b := b + EncodeNumber(d.sequence, order);
    end := PutBytes(output, b, end, d.payload);
    b := b + d.payload;
    assert b == start + DataContent(d);
    RawParts(header, Raw(DATA, DataFlags(order), DataContent(d)));
  }

  /** The builder accepts exactly the buildable messages that fit its buffer. */
  lemma BuilderAcceptsBuildable(d: Data, present: bool, capacity: nat)
    ensures BuildProblem(d.header, d.sequence, Memory(d.payload), present, capacity).None?
       <==> Buildable(d) && (present || capacity == 0) && |EncodeData(d)| <= capacity
  {
    hide EncodeData;
  }

  method ParseDataMessage(input: Buffer) returns (r: Result<View>)
    ensures r == ParseData(input)
  {
    hide Find, ReadNumber, Load;
    var found := FindSubmessage(input, DATA, 0);
    if found.Failure? {
      return Err(RouteProblem(found.error));
    }
    var s := found.value;
    if !Flag(s.flags, 4) {
      return Err(DataError.InvalidSubmessage);
    }
    if Flag(s.flags, 2) || Flag(s.flags, 8) || Flag(s.flags, 16) {
      return Err(DataError.UnsupportedFeature);
    }
    if |s.content| < FIXED_CONTENT_SIZE + MINIMUM_PAYLOAD {
      return Err(DataError.InvalidSubmessage);
    }
    var order := OrderOf(s.flags);
    if Load(s.content, 0, 2, order) != 0 {
      return Err(DataError.UnsupportedFeature);
    }
    var inlineQosOffset := Load(s.content, 2, 2, order);
    if inlineQosOffset < OCTETS_TO_INLINE_QOS {
      return Err(DataError.InvalidSubmessage);
    }
    var start := 4 + inlineQosOffset;
    if start > |s.content| || |s.content| - start < MINIMUM_PAYLOAD {
      return Err(DataError.InvalidSubmessage);
    }
    var sequence := ReadNumber(s.content, 12, order, false);
    if sequence.None? {
      return Err(DataError.InvalidSequenceNumber);
    }
    var payload := s.content[start..];
    if !SupportedPayload(payload) {
      return Err(InvalidPayload);
    }
    var data := Data(HeaderOf(s), s.content[4..8], s.content[8..12], sequence.value, payload);
    return Ok(View(data, s.context.destination, s.context.hasDestination, s.context.timestamp, s.context.hasTimestamp));
  }

  /**
   Whatever is parsed from any message, compound ones included, could have been built: sent on as a message of its
   own, it is parsed to the same sample.
   */
  lemma ParsedDataRebuilds(message: seq<byte>)
    requires ParseData(Memory(message)).Ok?
    requires OVERHEAD + |ParseData(Memory(message)).value.data.payload| <= MAXIMUM_UDP_PAYLOAD
    ensures var d := ParseData(Memory(message)).value.data;
            Buildable(d) && ParseData(Memory(EncodeData(d))) == Ok(View(d, NO_PREFIX, false, Timestamp(0, 0), false))
  {
    hide Find, ReadNumber, Load, EncodeData;
    var s := Find(Memory(message), DATA, 0).value;
    FoundVersionIsSupported(message, DATA, 0);
    ReadNumberRange(s.content, 12, OrderOf(s.flags), false);
    DataRoundTrip(ParseData(Memory(message)).value.data);
  }
}
