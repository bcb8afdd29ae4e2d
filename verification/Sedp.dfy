/** Endpoint discovery: announcements of writers and readers. */
module Sedp {
  import opened Bytes
  import opened Layout
  import opened RtpsTypes
  import opened Router
  import opened ParameterList
  import opened DataMessage
  import opened Discovery

  const PAYLOAD_CAPACITY := 1280
  const TEXT_CAPACITY := 256
  const PID_TOPIC_NAME := 0x05
  const PID_TYPE_NAME := 0x07
  const PID_RELIABILITY := 0x1A
  const PID_DURABILITY := 0x1D
  const PID_UNICAST := 0x2F
  const PID_MULTICAST := 0x30
  const PID_ENDPOINT_GUID := 0x5A
  const PUBLICATIONS_WRITER: EntityId := [0, 0, 3, 0xC2]
  const PUBLICATIONS_READER: EntityId := [0, 0, 3, 0xC7]
  const SUBSCRIPTIONS_WRITER: EntityId := [0, 0, 4, 0xC2]
  const SUBSCRIPTIONS_READER: EntityId := [0, 0, 4, 0xC7]

  datatype EndpointKind = WriterKind | ReaderKind

  datatype EndpointData = EndpointData(
    version: Version, vendor: VendorId, prefix: GuidPrefix, id: EntityId, kind: EndpointKind,
    topic: seq<byte>, typeName: seq<byte>, unicast: seq<Locator>, multicast: seq<Locator>,
    reliability: u32, durability: u32, blocking: nat, inlineQos: bool)

  /** An endpoint with the settings an announcement is sent with. */
  datatype Announcement = Announcement(endpoint: EndpointData, readerId: EntityId, sequence: nat,
                                       order: ByteOrder, parameterOrder: ByteOrder)

  /** What a receiver learns. */
  datatype EndpointView = EndpointView(endpoint: EndpointData, sequence: nat, order: ByteOrder,
                                       parameterOrder: ByteOrder)

  predicate ValidId(id: EntityId, kind: EndpointKind)
  {
    && (id[0] != 0 || id[1] != 0 || id[2] != 0)
    && (if kind == WriterKind then id[3] == 0x02 || id[3] == 0x03 else id[3] == 0x04 || id[3] == 0x07)
  }

  predicate ValidName(text: seq<byte>)
  {
    0 < |text| < TEXT_CAPACITY && forall i :: 0 <= i < |text| ==> text[i] != 0
  }

  /** The built-in endpoints that carry announcements of a kind. */
  function AnnouncingWriter(kind: EndpointKind): (id: EntityId)
  {
    if kind == WriterKind then PUBLICATIONS_WRITER else SUBSCRIPTIONS_WRITER
  }

  function AnnouncedReader(kind: EndpointKind): (id: EntityId)
  {
    if kind == WriterKind then PUBLICATIONS_READER else SUBSCRIPTIONS_READER
  }

  // ---------------------------------------------------------------- building

  predicate Configured(e: EndpointData, readerId: EntityId)
  {
    && SupportedVersion(e.version) && e.prefix != NO_PREFIX && ValidId(e.id, e.kind)
    && ValidName(e.topic) && ValidName(e.typeName)
    && (e.reliability == 1 || e.reliability == 2) && (e.durability == 0 || e.durability == 1)
    && (readerId == ENTITY_UNKNOWN || readerId == AnnouncedReader(e.kind))
    && (e.unicast != [] || e.multicast != [])
  }

  predicate LocatorsOk(e: EndpointData)
  {
    ValidLocators(e.unicast) && ValidLocators(e.multicast)
  }

  /** Everything the builder checks before the message is put together. */
  predicate Announceable(e: EndpointData, readerId: EntityId)
  {
    Configured(e, readerId) && LocatorsOk(e) && e.blocking / NANOSECONDS <= 0x7FFF_FFFF
  }

  function ReliabilityValue(e: EndpointData, order: ByteOrder): (b: seq<byte>)
    ensures |b| == 12
  {
    Encode(e.reliability, 4, order) + DurationValue(e.blocking, order)
  }

  function Singles(e: EndpointData, order: ByteOrder): (ps: seq<Parameter>)
    ensures |ps| == 7
  {
    [Parameter(PID_ENDPOINT_GUID, e.prefix + e.id),
     Parameter(PID_PARTICIPANT_GUID, e.prefix + ENTITY_PARTICIPANT),
     Parameter(PID_TOPIC_NAME, TextValue(e.topic, order)),
     Parameter(PID_TYPE_NAME, TextValue(e.typeName, order)),
     Parameter(PID_RELIABILITY, ReliabilityValue(e, order)),
     Parameter(PID_DURABILITY, Encode(e.durability, 4, order)),
     Parameter(PID_EXPECTS_INLINE_QOS, FlagValue(e.inlineQos))]
  }

  /** The parameters of an announcement, in the order they are written. */
  function Parameters(e: EndpointData, order: ByteOrder): (ps: seq<Parameter>)
  {
    Singles(e, order) + (LocatorParameters(PID_UNICAST, e.unicast, order) +
    LocatorParameters(PID_MULTICAST, e.multicast, order))
  }

  function DataOf(a: Announcement): (d: Data)
  {
    var e := a.endpoint;
    Data(Header(e.version, e.vendor, e.prefix, a.order), a.readerId, AnnouncingWriter(e.kind), a.sequence,
         EncodePayload(Parameters(e, a.parameterOrder), a.parameterOrder))
  }

  // ---------------------------------------------------------------- parsing

  /** The endpoint so far, which single parameters were seen, and whether any locator was. */
  datatype Draft = Draft(endpoint: EndpointData, seen: set<nat>, seenLocator: bool)

  function Blank(h: Header, kind: EndpointKind): (d: Draft)
  {
    Draft(EndpointData(h.version, h.vendor, h.prefix, [0, 0, 0, 0], kind, [], [], [], [], 1, 0, 100_000_000, false), {},
          false)
  }

  predicate Known(id: nat)
  {
    id in {0, SENTINEL, PID_TOPIC_NAME, PID_TYPE_NAME, PID_RELIABILITY, PID_DURABILITY, PID_UNICAST, PID_MULTICAST,
           PID_EXPECTS_INLINE_QOS, PID_PARTICIPANT_GUID, PID_ENDPOINT_GUID}
  }

  function Seen(d: Draft, id: nat, e: EndpointData): (r: Progress<Draft, DiscoveryError>)
  {
    Go(d.(endpoint := e, seen := d.seen + {id}))
  }

  function ReadEndpointGuid(d: Draft, value: seq<byte>): (r: Progress<Draft, DiscoveryError>)
  {
    if PID_ENDPOINT_GUID in d.seen then Stop(DuplicateParameter)
    else if |value| != 16 then Stop(MalformedParameter)
    else if value[..12] != d.endpoint.prefix then Stop(ParticipantMismatch)
    else Seen(d, PID_ENDPOINT_GUID, d.endpoint.(id := value[12..16]))
  }

  function ReadParticipantGuid(d: Draft, value: seq<byte>): (r: Progress<Draft, DiscoveryError>)
  {
    if PID_PARTICIPANT_GUID in d.seen then Stop(DuplicateParameter)
    else if |value| != 16 then Stop(MalformedParameter)
    else if value[..12] != d.endpoint.prefix || value[12..16] != ENTITY_PARTICIPANT then Stop(ParticipantMismatch)
    else Seen(d, PID_PARTICIPANT_GUID, d.endpoint)
  }

  /** A name with its terminator; none for anything else. */
  function ReadText(value: seq<byte>, order: ByteOrder): (t: Option<seq<byte>>)
  {
    if |value| < 8 then None
    else
      var size := Load(value, 0, 4, order);
      if size <= 1 || size > |value| - 4 || size > TEXT_CAPACITY || value[4 + size - 1] != 0 then None
      else
        var text := value[4..4 + size - 1];
        if exists i :: 0 <= i < |text| && text[i] == 0 then None else Some(text)
  }

  function ReadTopic(d: Draft, value: seq<byte>, order: ByteOrder): (r: Progress<Draft, DiscoveryError>)
  {
    var text := ReadText(value, order);
    if PID_TOPIC_NAME in d.seen then Stop(DuplicateParameter)
    else if text.None? then Stop(MalformedParameter)
    else Seen(d, PID_TOPIC_NAME, d.endpoint.(topic := text.value))
  }

  function ReadType(d: Draft, value: seq<byte>, order: ByteOrder): (r: Progress<Draft, DiscoveryError>)
  {
    var text := ReadText(value, order);
    if PID_TYPE_NAME in d.seen then Stop(DuplicateParameter)
    else if text.None? then Stop(MalformedParameter)
    else Seen(d, PID_TYPE_NAME, d.endpoint.(typeName := text.value))
  }

  function ReadReliability(d: Draft, value: seq<byte>, order: ByteOrder): (r: Progress<Draft, DiscoveryError>)
  {
    if PID_RELIABILITY in d.seen then Stop(DuplicateParameter)
    else if |value| != 12 then Stop(MalformedParameter)
    else
      var kind := Load(value, 0, 4, order);
      if kind != 1 && kind != 2 then Stop(MalformedParameter)
      else
        var blocking := ReadDuration(value, 4, order);
        if blocking.None? then Stop(InvalidDuration)
        else Seen(d, PID_RELIABILITY, d.endpoint.(reliability := kind, blocking := blocking.value))
  }

  function ReadDurability(d: Draft, value: seq<byte>, order: ByteOrder): (r: Progress<Draft, DiscoveryError>)
  {
    if PID_DURABILITY in d.seen then Stop(DuplicateParameter)
    else if |value| != 4 then Stop(MalformedParameter)
    else
      var kind := Load(value, 0, 4, order);
      if kind != 0 && kind != 1 then Stop(MalformedParameter)
      else Seen(d, PID_DURABILITY, d.endpoint.(durability := kind))
  }

  function ReadInline(d: Draft, value: seq<byte>): (r: Progress<Draft, DiscoveryError>)
  {
    if PID_EXPECTS_INLINE_QOS in d.seen then Stop(DuplicateParameter)
    else if |value| != 4 || value[0] > 1 then Stop(MalformedParameter)
    else Seen(d, PID_EXPECTS_INLINE_QOS, d.endpoint.(inlineQos := value[0] != 0))
  }

  function ReadLocator(d: Draft, id: nat, value: seq<byte>, order: ByteOrder): (r: Progress<Draft, DiscoveryError>)
  {
    if id == PID_UNICAST then
      var r := AddLocator(d.endpoint.unicast, value, order);
      if r.Stop? then Stop(r.error) else Go(d.(endpoint := d.endpoint.(unicast := r.state), seenLocator := true))
    else
      var r := AddLocator(d.endpoint.multicast, value, order);
      if r.Stop? then Stop(r.error) else Go(d.(endpoint := d.endpoint.(multicast := r.state), seenLocator := true))
  }

  /** What one parameter does to the endpoint being read. */
  function Step(d: Draft, id: nat, value: seq<byte>, order: ByteOrder): (r: Progress<Draft, DiscoveryError>)
  {
    if id == 0 then Go(d)
    else if id == PID_ENDPOINT_GUID then ReadEndpointGuid(d, value)
    else if id == PID_PARTICIPANT_GUID then ReadParticipantGuid(d, value)
    else if id == PID_TOPIC_NAME then ReadTopic(d, value, order)
    else if id == PID_TYPE_NAME then ReadType(d, value, order)
    else if id == PID_RELIABILITY then ReadReliability(d, value, order)
    else if id == PID_DURABILITY then ReadDurability(d, value, order)
    else if id == PID_EXPECTS_INLINE_QOS then ReadInline(d, value)
    else if id == PID_UNICAST || id == PID_MULTICAST then ReadLocator(d, id, value, order)
    else if MustUnderstand(id) then Stop(UnknownRequiredParameter)
    else Go(d)
  }

  /** What a finished draft must satisfy: locators may be missing altogether, but not all be unusable. */
  function Verdict(d: Draft): (e: Option<DiscoveryError>)
  {
    if PID_ENDPOINT_GUID !in d.seen || PID_TOPIC_NAME !in d.seen || PID_TYPE_NAME !in d.seen ||
       (d.seenLocator && d.endpoint.unicast == [] && d.endpoint.multicast == [])
    then Some(MissingRequiredParameter)
    else if !ValidId(d.endpoint.id, d.endpoint.kind) then Some(InvalidIdentity)
    else None
  }

  function KindOf(writerId: EntityId): (k: Option<EndpointKind>)
  {
    if writerId == PUBLICATIONS_WRITER then Some(WriterKind)
    else if writerId == SUBSCRIPTIONS_WRITER then Some(ReaderKind)
    else None
  }

  function ReadAnnouncement(data: Data, expected: GuidPrefix): (r: Learned<EndpointView>)
  {
    var kind := KindOf(data.writerId);
    if kind.None? || (data.readerId != ENTITY_UNKNOWN && data.readerId != AnnouncedReader(kind.value))
    then Failed(InvalidIdentity)
    else if data.header.prefix != expected then Failed(ParticipantMismatch)
    else if !KnownRepresentation(data.payload) then Failed(UnsupportedRepresentation)
    else
      var order := ListOrder(data.payload);
      var scanned := Scan(data.payload, 4, order, Blank(data.header, kind.value), MalformedParameter, Step);
      if scanned.Stop? then Failed(scanned.error)
      else
        var verdict := Verdict(scanned.state);
        if verdict.Some? then Failed(verdict.value)
        else Done(EndpointView(scanned.state.endpoint, data.sequence, data.header.order, order))
  }

  function Parse(input: Buffer, expected: GuidPrefix): (r: Learned<EndpointView>)
  {
    var data := ParseData(input);
    if data.Err? then Failed(Rtps(data.error)) else ReadAnnouncement(data.value.data, expected)
  }

  method ParseMessage(input: Buffer, expected: GuidPrefix) returns (r: Learned<EndpointView>)
    ensures r == Parse(input, expected)
  {
    hide ParseData, Scan, Verdict;
    var received := ParseDataMessage(input);
    if received.Err? {
      return Failed(Rtps(received.error));
    }
    var data := received.value.data;
    var kind := KindOf(data.writerId);
    if kind.None? || (data.readerId != ENTITY_UNKNOWN && data.readerId != AnnouncedReader(kind.value)) {
      return Failed(InvalidIdentity);
    }
    if data.header.prefix != expected {
      return Failed(ParticipantMismatch);
    }
    if !KnownRepresentation(data.payload) {
      return Failed(UnsupportedRepresentation);
    }
    var order := ListOrder(data.payload);
    var scanned := ScanList(data.payload, 4, order, Blank(data.header, kind.value), MalformedParameter, Step);
    if scanned.Stop? {
      return Failed(scanned.error);
    }
    var verdict := Verdict(scanned.state);
    if verdict.Some? {
      return Failed(verdict.value);
    }
    return Done(EndpointView(scanned.state.endpoint, data.sequence, data.header.order, order));
  }

  // ---------------------------------------------------------------- extensibility

  /** A parameter this version does not know and need not understand. */
  predicate Ignorable(p: Parameter)
  {
    WellFormed(p) && (p.id == 0 || (!Known(p.id) && !MustUnderstand(p.id)))
  }

  lemma IgnorableIsPassedOver(p: Parameter, order: ByteOrder)
    requires Ignorable(p)
    ensures PassedOver(Step, p, order)
  {}
}
