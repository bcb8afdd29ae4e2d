/** Participant discovery: announcements a participant builds and others parse. */
module Spdp {
  import opened Bytes
  import opened Layout
  import opened RtpsTypes
  import opened Router
  import opened ParameterList
  import opened DataMessage
  import opened Discovery

  const PAYLOAD_CAPACITY := 768
  const MAXIMUM_NAME := 63
  const PID_LEASE_DURATION := 0x02
  const PID_DOMAIN_ID := 0x0F
  const PID_PROTOCOL_VERSION := 0x15
  const PID_VENDOR_ID := 0x16
  const PID_DEFAULT_UNICAST := 0x31
  const PID_METATRAFFIC_UNICAST := 0x32
  const PID_METATRAFFIC_MULTICAST := 0x33
  const PID_DEFAULT_MULTICAST := 0x48
  const PID_BUILTIN_ENDPOINT_SET := 0x58
  const PID_ENTITY_NAME := 0x62
  const SPDP_WRITER: EntityId := [0, 1, 0, 0xC2]
  const SPDP_READER: EntityId := [0, 1, 0, 0xC7]

  datatype Participant = Participant(
    version: Version, vendor: VendorId, prefix: GuidPrefix, domain: u32, inlineQos: bool,
    metatrafficUnicast: seq<Locator>, metatrafficMulticast: seq<Locator>,
    defaultUnicast: seq<Locator>, defaultMulticast: seq<Locator>,
    endpoints: u32, lease: nat, name: seq<byte>)

  /** A participant with the settings an announcement is sent with. */
  datatype Announcement = Announcement(participant: Participant, sequence: nat, order: ByteOrder,
                                       parameterOrder: ByteOrder)

  // ---------------------------------------------------------------- building

  predicate Configured(p: Participant)
  {
    && SupportedVersion(p.version) && p.prefix != NO_PREFIX && |p.name| <= MAXIMUM_NAME && p.lease >= 2
    && p.endpoints % 4 == 3 && p.defaultUnicast != [] && (p.metatrafficUnicast != [] || p.metatrafficMulticast != [])
  }

  predicate LocatorsOk(p: Participant)
  {
    ValidLocators(p.metatrafficUnicast) && ValidLocators(p.metatrafficMulticast) &&
    ValidLocators(p.defaultUnicast) && ValidLocators(p.defaultMulticast)
  }

  /** Everything the builder checks before it writes. */
  predicate Announceable(p: Participant)
  {
    Configured(p) && LocatorsOk(p) && p.lease / NANOSECONDS <= 0x7FFF_FFFF
  }

  function VersionValue(v: Version): (b: seq<byte>)
  {
    [v.major, v.minor, 0, 0]
  }

  function Singles(p: Participant, order: ByteOrder): (ps: seq<Parameter>)
    ensures |ps| == 7
  {
    [Parameter(PID_PROTOCOL_VERSION, VersionValue(p.version)),
     Parameter(PID_VENDOR_ID, p.vendor + [0, 0]),
     Parameter(PID_DOMAIN_ID, Encode(p.domain, 4, order)),
     Parameter(PID_PARTICIPANT_GUID, p.prefix + ENTITY_PARTICIPANT),
     Parameter(PID_EXPECTS_INLINE_QOS, FlagValue(p.inlineQos)),
     Parameter(PID_BUILTIN_ENDPOINT_SET, Encode(p.endpoints, 4, order)),
     Parameter(PID_LEASE_DURATION, DurationValue(p.lease, order))]
  }

  function NameParameters(name: seq<byte>, order: ByteOrder): (ps: seq<Parameter>)
  {
    if name == [] then [] else [Parameter(PID_ENTITY_NAME, TextValue(name, order))]
  }

  /** The parameters of an announcement, in the order they are written. */
  function Parameters(p: Participant, order: ByteOrder): (ps: seq<Parameter>)
  {
    Singles(p, order) + (LocatorParameters(PID_METATRAFFIC_UNICAST, p.metatrafficUnicast, order) +
    (LocatorParameters(PID_METATRAFFIC_MULTICAST, p.metatrafficMulticast, order) +
    (LocatorParameters(PID_DEFAULT_UNICAST, p.defaultUnicast, order) +
    (LocatorParameters(PID_DEFAULT_MULTICAST, p.defaultMulticast, order) + NameParameters(p.name, order)))))
  }

  function DataOf(a: Announcement): (d: Data)
  {
    var p := a.participant;
    Data(Header(p.version, p.vendor, p.prefix, a.order), ENTITY_UNKNOWN, SPDP_WRITER, a.sequence,
         EncodePayload(Parameters(p, a.parameterOrder), a.parameterOrder))
  }

  // ---------------------------------------------------------------- parsing

  /** The participant so far, and which single parameters were seen. */
  datatype Draft = Draft(participant: Participant, seen: set<nat>)

  function Blank(domain: u32): (d: Draft)
  {
    Draft(Participant(Version(2, 5), [0, 0], NO_PREFIX, domain, false, [], [], [], [], 3, 100 * NANOSECONDS, []), {})
  }

  predicate Known(id: nat)
  {
    id in {0, SENTINEL, PID_LEASE_DURATION, PID_DOMAIN_ID, PID_PROTOCOL_VERSION, PID_VENDOR_ID, PID_DEFAULT_UNICAST,
           PID_METATRAFFIC_UNICAST, PID_METATRAFFIC_MULTICAST, PID_EXPECTS_INLINE_QOS, PID_DEFAULT_MULTICAST,
           PID_PARTICIPANT_GUID, PID_BUILTIN_ENDPOINT_SET, PID_ENTITY_NAME}
  }

  function Single(d: Draft, id: nat, ok: bool, p: Participant): (r: Progress<Draft, DiscoveryError>)
  {
    if id in d.seen then Stop(DuplicateParameter)
    else if !ok then Stop(MalformedParameter)
    else Go(Draft(p, d.seen + {id}))
  }

  function ReadGuid(d: Draft, value: seq<byte>): (r: Progress<Draft, DiscoveryError>)
  {
    if PID_PARTICIPANT_GUID in d.seen then Stop(DuplicateParameter)
    else if |value| != 16 then Stop(MalformedParameter)
    else if value[12..16] != ENTITY_PARTICIPANT then Stop(InvalidIdentity)
    else Go(Draft(d.participant.(prefix := value[..12]), d.seen + {PID_PARTICIPANT_GUID}))
  }

  function ReadLease(d: Draft, value: seq<byte>, order: ByteOrder): (r: Progress<Draft, DiscoveryError>)
  {
    if PID_LEASE_DURATION in d.seen then Stop(DuplicateParameter)
    else if |value| != 8 then Stop(MalformedParameter)
    else
      var lease := ReadDuration(value, 0, order);
      if lease.None? || lease.value == 0 then Stop(InvalidDuration)
      else Go(Draft(d.participant.(lease := lease.value), d.seen + {PID_LEASE_DURATION}))
  }

  function ReadName(d: Draft, value: seq<byte>, order: ByteOrder): (r: Progress<Draft, DiscoveryError>)
  {
    if PID_ENTITY_NAME in d.seen then Stop(DuplicateParameter)
    else if |value| < 8 then Stop(MalformedParameter)
    else
      var size := Load(value, 0, 4, order);
      if size == 0 || size > |value| - 4 || size > MAXIMUM_NAME + 1 || value[4 + size - 1] != 0
      then Stop(MalformedParameter)
      else Go(Draft(d.participant.(name := value[4..4 + size - 1]), d.seen + {PID_ENTITY_NAME}))
  }

  function ReadLocator(d: Draft, id: nat, value: seq<byte>, order: ByteOrder): (r: Progress<Draft, DiscoveryError>)
  {
    var p := d.participant;
    if id == PID_METATRAFFIC_UNICAST then
      var r := AddLocator(p.metatrafficUnicast, value, order);
      if r.Stop? then Stop(r.error) else Go(d.(participant := p.(metatrafficUnicast := r.state)))
    else if id == PID_METATRAFFIC_MULTICAST then
      var r := AddLocator(p.metatrafficMulticast, value, order);
      if r.Stop? then Stop(r.error) else Go(d.(participant := p.(metatrafficMulticast := r.state)))
    else if id == PID_DEFAULT_UNICAST then
      var r := AddLocator(p.defaultUnicast, value, order);
      if r.Stop? then Stop(r.error) else Go(d.(participant := p.(defaultUnicast := r.state)))
    else
      var r := AddLocator(p.defaultMulticast, value, order);
      if r.Stop? then Stop(r.error) else Go(d.(participant := p.(defaultMulticast := r.state)))
  }

  /** What one parameter does to the participant being read. */
  function Step(d: Draft, id: nat, value: seq<byte>, order: ByteOrder): (r: Progress<Draft, DiscoveryError>)
  {
    var p, four := d.participant, |value| == 4;
    if id == 0 then Go(d)
    else if id == PID_PROTOCOL_VERSION then
      Single(d, id, four, if four then p.(version := Version(value[0], value[1])) else p)
    else if id == PID_VENDOR_ID then Single(d, id, four, if four then p.(vendor := value[..2]) else p)
    else if id == PID_DOMAIN_ID then
      Single(d, id, four, if four then LoadU32(value, 0, order); p.(domain := Load(value, 0, 4, order)) else p)
    else if id == PID_PARTICIPANT_GUID then ReadGuid(d, value)
    else if id == PID_EXPECTS_INLINE_QOS then
      Single(d, id, four && value[0] <= 1, if four then p.(inlineQos := value[0] != 0) else p)
    else if id == PID_BUILTIN_ENDPOINT_SET then
      Single(d, id, four, if four then LoadU32(value, 0, order); p.(endpoints := Load(value, 0, 4, order)) else p)
    else if id == PID_LEASE_DURATION then ReadLease(d, value, order)
    else if id == PID_ENTITY_NAME then ReadName(d, value, order)
    else if id in {PID_METATRAFFIC_UNICAST, PID_METATRAFFIC_MULTICAST, PID_DEFAULT_UNICAST, PID_DEFAULT_MULTICAST} then
      ReadLocator(d, id, value, order)
    else if MustUnderstand(id) then Stop(UnknownRequiredParameter)
    else Go(d)
  }

  /** What a finished draft must satisfy, given the message it came in. */
  function Verdict(d: Draft, h: Header, domain: u32): (e: Option<DiscoveryError>)
  {
    var p := d.participant;
    if PID_PROTOCOL_VERSION !in d.seen || PID_VENDOR_ID !in d.seen || PID_PARTICIPANT_GUID !in d.seen ||
       PID_BUILTIN_ENDPOINT_SET !in d.seen || p.defaultUnicast == [] ||
           (p.metatrafficUnicast == [] && p.metatrafficMulticast == [])
    then Some(MissingRequiredParameter)
    else if !SupportedVersion(p.version) || p.prefix == NO_PREFIX || p.prefix != h.prefix || p.version != h.version ||
        p.vendor != h.vendor
    then Some(InvalidIdentity)
    else if p.domain != domain then Some(DomainMismatch)
    else None
  }

  function ReadAnnouncement(data: Data, domain: u32): (r: Learned<Announcement>)
  {
    if data.writerId != SPDP_WRITER || (data.readerId != ENTITY_UNKNOWN && data.readerId != SPDP_READER)
    then Failed(InvalidIdentity)
    else if !KnownRepresentation(data.payload) then Failed(UnsupportedRepresentation)
    else
      var order := ListOrder(data.payload);
      var scanned := Scan(data.payload, 4, order, Blank(domain), MalformedParameter, Step);
      if scanned.Stop? then Failed(scanned.error)
      else
        var verdict := Verdict(scanned.state, data.header, domain);
        if verdict.Some? then Failed(verdict.value)
        else Done(Announcement(scanned.state.participant, data.sequence, data.header.order, order))
  }

  function Parse(input: Buffer, domain: u32): (r: Learned<Announcement>)
  {
    var data := ParseData(input);
    if data.Err? then Failed(Rtps(data.error)) else ReadAnnouncement(data.value.data, domain)
  }

  method ParseMessage(input: Buffer, domain: u32) returns (r: Learned<Announcement>)
    ensures r == Parse(input, domain)
  {
    hide ParseData, Scan, Verdict;
    var received := ParseDataMessage(input);
    if received.Err? {
      return Failed(Rtps(received.error));
    }
    var data := received.value.data;
    if data.writerId != SPDP_WRITER || (data.readerId != ENTITY_UNKNOWN && data.readerId != SPDP_READER) {
      return Failed(InvalidIdentity);
    }
    if !KnownRepresentation(data.payload) {
      return Failed(UnsupportedRepresentation);
    }
    var order := ListOrder(data.payload);
    var scanned := ScanList(data.payload, 4, order, Blank(domain), MalformedParameter, Step);
    if scanned.Stop? {
      return Failed(scanned.error);
    }
    var verdict := Verdict(scanned.state, data.header, domain);
    if verdict.Some? {
      return Failed(verdict.value);
    }
    return Done(Announcement(scanned.state.participant, data.sequence, data.header.order, order));
  }

  // ---------------------------------------------------------------- extensibility

  /** A parameter this version does not know and need not understand. */
  predicate Ignorable(p: Parameter)
  {
    WellFormed(p) && (p.id == 0 || (!Known(p.id) && !MustUnderstand(p.id)))
  }

  lemma IgnorableIsPassedOver(p: Parameter, order: ByteOrder)
    requires Ignorable(p)
    ensures PassedOver(Step, p, order)
  {}
}
