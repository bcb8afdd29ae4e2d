/** What a parsed endpoint announcement is known to be, whoever sent it. */
module SedpSoundness {
  import opened Bytes
  import opened Layout
  import opened RtpsTypes
  import opened Router
  import opened ParameterList
  import opened ParameterScan
  import opened DataMessage
  import opened Discovery
  import opened Sedp

  // ---------------------------------------------------------------- bounds

  /** What every accepted parameter leaves true. */
  predicate DraftOk(d: Draft)
  {
    var e := d.endpoint;
    && LocatorsOk(e) && e.reliability in {1, 2} && e.durability in {0, 1} && e.blocking / NANOSECONDS < 0x8000_0000
    && (PID_TOPIC_NAME in d.seen ==> IsName(e.topic)) && (PID_TYPE_NAME in d.seen ==> IsName(e.typeName))
  }

  /** One to 255 characters, none of them zero. */
  predicate IsName(text: seq<byte>)
  {
    1 <= |text| <= 255 && 0 !in text
  }

  lemma NameIsRead(value: seq<byte>, order: ByteOrder)
    ensures var t := ReadText(value, order);
            t.Some? ==>
              && IsName(t.value) && |value| >= 5 + |t.value| && Load(value, 0, 4, order) == |t.value| + 1
              && value[4..4 + |t.value|] == t.value && value[4 + |t.value|] == 0
  {
    hide Load;
  }

  lemma LocatorKeepsOk(d: Draft, id: nat, value: seq<byte>, order: ByteOrder)
    requires DraftOk(d)
    ensures var r := ReadLocator(d, id, value, order); r.Go? ==> DraftOk(r.state)
  {
    hide AddLocator, ValidLocators, IsName;
    LocatorIsTaken(d.endpoint.unicast, value, order);
    LocatorIsTaken(d.endpoint.multicast, value, order);
  }

  lemma NameKeepsOk(d: Draft, value: seq<byte>, order: ByteOrder)
    requires DraftOk(d)
    ensures var r := ReadTopic(d, value, order); r.Go? ==> DraftOk(r.state)
    ensures var r := ReadType(d, value, order); r.Go? ==> DraftOk(r.state)
  {
    hide ReadText, ValidLocators, IsName, Load;
    NameIsRead(value, order);
  }

  lemma PolicyKeepsOk(d: Draft, value: seq<byte>, order: ByteOrder)
    requires DraftOk(d)
    ensures var r := ReadReliability(d, value, order); r.Go? ==> DraftOk(r.state)
    ensures var r := ReadDurability(d, value, order); r.Go? ==> DraftOk(r.state)
  {
    hide ReadDuration, ValidLocators, IsName, Load;
    if |value| == 12 && ReadDuration(value, 4, order).Some? {
      DurationInRange(value, 4, order);
    }
  }

  lemma OtherKeepsOk(d: Draft, value: seq<byte>)
    requires DraftOk(d)
    ensures var r := ReadEndpointGuid(d, value); r.Go? ==> DraftOk(r.state)
    ensures var r := ReadParticipantGuid(d, value); r.Go? ==> DraftOk(r.state)
    ensures var r := ReadInline(d, value); r.Go? ==> DraftOk(r.state)
  {
    hide ValidLocators, IsName;
  }

  lemma StepKeepsOk(d: Draft, id: nat, value: seq<byte>, order: ByteOrder)
    requires DraftOk(d)
    ensures var r := Step(d, id, value, order); r.Go? ==> DraftOk(r.state)
  {
    hide DraftOk, ReadLocator, ReadTopic, ReadType, ReadReliability, ReadDurability, ReadEndpointGuid,
         ReadParticipantGuid, ReadInline;
    LocatorKeepsOk(d, id, value, order);
    NameKeepsOk(d, value, order);
    PolicyKeepsOk(d, value, order);
    OtherKeepsOk(d, value);
  }

  /** Nothing a parameter says changes who announces. */
  predicate SameSender(d: Draft, h: Header, kind: EndpointKind)
  {
    var e := d.endpoint;
    e.version == h.version && e.vendor == h.vendor && e.prefix == h.prefix && e.kind == kind
  }

  lemma StepKeepsSender(d: Draft, id: nat, value: seq<byte>, order: ByteOrder, h: Header, kind: EndpointKind)
    requires SameSender(d, h, kind)
    ensures var r := Step(d, id, value, order); r.Go? ==> SameSender(r.state, h, kind)
  {
    hide ReadDuration, AddLocator, ReadText, Load;
  }

  /** The identifiers of user endpoints: a key other than zero, and a kind octet of a writer or a reader. */
  predicate IsUserEntity(id: EntityId, kind: EndpointKind)
  {
    id[..3] != [0, 0, 0] && match kind case WriterKind => id[3] in {2, 3} case ReaderKind => id[3] in {4, 7}
  }

  lemma ValidIds(id: EntityId, kind: EndpointKind)
    ensures ValidId(id, kind) <==> IsUserEntity(id, kind)
  {
    var key := id[..3];
    assert key == [id[0], id[1], id[2]];
    assert id[0] != 0 ==> key[0] != [0, 0, 0][0];
    assert id[1] != 0 ==> key[1] != [0, 0, 0][1];
    assert id[2] != 0 ==> key[2] != [0, 0, 0][2];
  }

  /** The built-in endpoints of the two announcement topics. */
  predicate Addressed(data: Data, kind: EndpointKind)
  {
    match kind
    case WriterKind => data.writerId == [0, 0, 3, 0xC2] && data.readerId in {[0, 0, 0, 0], [0, 0, 3, 0xC7]}
    case ReaderKind => data.writerId == [0, 0, 4, 0xC2] && data.readerId in {[0, 0, 0, 0], [0, 0, 4, 0xC7]}
  }

  /**
   Whoever sent it, an accepted announcement came over the topic of its kind from the participant expected, and
   describes a user endpoint of it with proper names, known policies and valid locators.
   */
  lemma ParsedIsSound(data: Data, expected: GuidPrefix)
    requires ReadAnnouncement(data, expected).Done?
    ensures var v := ReadAnnouncement(data, expected).value; var e := v.endpoint;
            && v.sequence == data.sequence && v.order == data.header.order
            && Addressed(data, e.kind) && e.prefix == expected == data.header.prefix
            && e.version == data.header.version && e.vendor == data.header.vendor
            && IsUserEntity(e.id, e.kind) && IsName(e.topic) && IsName(e.typeName)
            && e.reliability in {1, 2} && e.durability in {0, 1}
            && LocatorsOk(e) && e.blocking / NANOSECONDS < 0x8000_0000
  {
    hide Step, Scan, LocatorsOk, KnownRepresentation, ListOrder, ValidId, IsUserEntity, IsName;
    var h, kind, order := data.header, KindOf(data.writerId).value, ListOrder(data.payload);
    var kept: Draft -> bool := d => DraftOk(d) && SameSender(d, h, kind);
    BlankIsOk(h, kind);
    forall d, id, value | kept(d) && Step(d, id, value, order).Go? ensures kept(Step(d, id, value, order).state) {
      StepKeepsOk(d, id, value, order);
      StepKeepsSender(d, id, value, order, h, kind);
    }
    PayloadIsLong(data.payload);
    ScanKeeps(data.payload, 4, order, Blank(h, kind), MalformedParameter, Step, kept);
    ValidIds(ReadAnnouncement(data, expected).value.endpoint.id, kind);
  }

  lemma BlankIsOk(h: Header, kind: EndpointKind)
    ensures DraftOk(Blank(h, kind)) && SameSender(Blank(h, kind), h, kind)
  {}

  /** A parsed announcement can be announced again exactly when it names a locator and its header was a proper one. */
  lemma ParsedCanBeAnnounced(data: Data, expected: GuidPrefix)
    requires ReadAnnouncement(data, expected).Done?
    ensures var e := ReadAnnouncement(data, expected).value.endpoint;
            Announceable(e, data.readerId)
            <==> SupportedVersion(e.version) && e.prefix != NO_PREFIX && (e.unicast != [] || e.multicast != [])
  {
    hide Scan, Step, LocatorsOk, KnownRepresentation, ListOrder, ValidId, IsUserEntity;
    ParsedIsSound(data, expected);
    var e := ReadAnnouncement(data, expected).value.endpoint;
    ValidIds(e.id, e.kind);
    assert forall i :: 0 <= i < |e.topic| ==> e.topic[i] in e.topic;
    assert forall i :: 0 <= i < |e.typeName| ==> e.typeName[i] in e.typeName;
  }

  // ---------------------------------------------------------------- each parameter

  predicate IsSingle(id: nat)
  {
    id in {PID_ENDPOINT_GUID, PID_PARTICIPANT_GUID, PID_TOPIC_NAME, PID_TYPE_NAME, PID_RELIABILITY, PID_DURABILITY,
           PID_EXPECTS_INLINE_QOS}
  }

  predicate CarriesText(value: seq<byte>, text: seq<byte>, order: ByteOrder)
  {
    && |value| >= 5 + |text| && Load(value, 0, 4, order) == |text| + 1
    && value[4..4 + |text|] == text && value[4 + |text|] == 0
  }

  /** What the parameter says is what the endpoint has. */
  predicate Says(e: EndpointData, id: nat, value: seq<byte>, order: ByteOrder)
  {
    && (id == PID_ENDPOINT_GUID ==> value == e.prefix + e.id)
    && (id == PID_PARTICIPANT_GUID ==> value == e.prefix + [0, 0, 1, 0xC1])
    && (id == PID_TOPIC_NAME ==> CarriesText(value, e.topic, order))
    && (id == PID_TYPE_NAME ==> CarriesText(value, e.typeName, order))
    && (id == PID_RELIABILITY ==>
          && |value| == 12 && Load(value, 0, 4, order) == e.reliability
          && ReadDuration(value, 4, order) == Some(e.blocking))
    && (id == PID_DURABILITY ==> |value| == 4 && Load(value, 0, 4, order) == e.durability)
    && (id == PID_EXPECTS_INLINE_QOS ==> |value| == 4 && value[0] == if e.inlineQos then 1 else 0)
  }

  /** What the endpoint has where nothing was said: best effort, 100 ms of blocking, volatile, no inline QoS. */
  predicate Defaults(d: Draft)
  {
    && (PID_RELIABILITY !in d.seen ==> d.endpoint.reliability == 1 && d.endpoint.blocking == 100_000_000)
    && (PID_DURABILITY !in d.seen ==> d.endpoint.durability == 0)
    && (PID_EXPECTS_INLINE_QOS !in d.seen ==> !d.endpoint.inlineQos)
  }

  /** The parameter was the first with its identifier, and what it says is now what the endpoint has. */
  predicate Recorded(d: Draft, id: nat, value: seq<byte>, order: ByteOrder, r: Progress<Draft, DiscoveryError>)
  {
    r.Go? ==>
      && Says(r.state.endpoint, id, value, order) && Defaults(r.state) && r.state.seenLocator == d.seenLocator
      && id !in d.seen && r.state.seen == d.seen + {id}
  }

  lemma NamesRecorded(d: Draft, value: seq<byte>, order: ByteOrder)
    requires Defaults(d)
    ensures Recorded(d, PID_TOPIC_NAME, value, order, ReadTopic(d, value, order))
    ensures Recorded(d, PID_TYPE_NAME, value, order, ReadType(d, value, order))
  {
    hide ReadText, IsName, Load;
    NameIsRead(value, order);
  }

  lemma GuidsRecorded(d: Draft, value: seq<byte>, order: ByteOrder)
    requires Defaults(d)
    ensures Recorded(d, PID_ENDPOINT_GUID, value, order, ReadEndpointGuid(d, value))
    ensures Recorded(d, PID_PARTICIPANT_GUID, value, order, ReadParticipantGuid(d, value))
  {
    if |value| == 16 {
      assert value == value[..12] + value[12..16];
    }
  }

  lemma PoliciesRecorded(d: Draft, value: seq<byte>, order: ByteOrder)
    requires Defaults(d)
    ensures Recorded(d, PID_RELIABILITY, value, order, ReadReliability(d, value, order))
    ensures Recorded(d, PID_DURABILITY, value, order, ReadDurability(d, value, order))
    ensures Recorded(d, PID_EXPECTS_INLINE_QOS, value, order, ReadInline(d, value))
  {
    hide ReadDuration, Load;
  }

  lemma LocatorsRecorded(d: Draft, id: nat, value: seq<byte>, order: ByteOrder)
    requires Defaults(d) && (id == PID_UNICAST || id == PID_MULTICAST)
    ensures var r := ReadLocator(d, id, value, order);
            r.Go? ==>
              && Says(r.state.endpoint, id, value, order) && Defaults(r.state)
              && r.state.seen == d.seen && r.state.seenLocator
  {
    hide AddLocator, Load;
  }

  lemma OthersSayNothing(e: EndpointData, id: nat, value: seq<byte>, order: ByteOrder)
    requires !IsSingle(id)
    ensures Says(e, id, value, order)
  {}

  lemma StepSays(d: Draft, id: nat, value: seq<byte>, order: ByteOrder)
    requires Step(d, id, value, order).Go? && Defaults(d)
    ensures var r := Step(d, id, value, order).state;
            Says(r.endpoint, id, value, order) && Defaults(r)
            && (r.seen == if IsSingle(id) then d.seen + {id} else d.seen)
            && (IsSingle(id) ==> id !in d.seen) && (Known(id) || !MustUnderstand(id))
            && (r.seenLocator <==> d.seenLocator || id == PID_UNICAST || id == PID_MULTICAST)
  {
    hide ReadTopic, ReadType, ReadEndpointGuid, ReadParticipantGuid, ReadReliability, ReadDurability, ReadInline,
         ReadLocator, Says, Defaults;
    NamesRecorded(d, value, order);
    GuidsRecorded(d, value, order);
    PoliciesRecorded(d, value, order);
    if id == PID_UNICAST || id == PID_MULTICAST {
      LocatorsRecorded(d, id, value, order);
    } else if !IsSingle(id) {
      OthersSayNothing(d.endpoint, id, value, order);
    }
  }

  /** A parameter that was read stays as it was read, for a second one with its identifier is refused. */
  lemma StepKeepsSaying(d: Draft, id: nat, value: seq<byte>, order: ByteOrder, oldId: nat, oldValue: seq<byte>)
    requires Step(d, id, value, order).Go? && Says(d.endpoint, oldId, oldValue, order)
    requires IsSingle(oldId) ==> oldId in d.seen
    ensures Says(Step(d, id, value, order).state.endpoint, oldId, oldValue, order)
  {
    hide ReadDuration, AddLocator, ReadText, CarriesText, Load;
  }

  ghost predicate AllSaid(d: Draft, ps: seq<Parameter>, n: nat, order: ByteOrder)
    requires n <= |ps|
  {
    forall i :: 0 <= i < n ==>
      Says(d.endpoint, ps[i].id, ps[i].value, order) && (IsSingle(ps[i].id) ==> ps[i].id in d.seen)
  }

  /** The endpoint that a list of parameters describes has what each of them says, and the defaults for the rest. */
  lemma {:induction false} EachParameterCounts(h: Header, kind: EndpointKind, ps: seq<Parameter>, order: ByteOrder,
                                               n: nat)
    requires n <= |ps| && Fold(Blank(h, kind), ps, order, n, Step).Go?
    ensures var d := Fold(Blank(h, kind), ps, order, n, Step).state;
            && AllSaid(d, ps, n, order) && Defaults(d)
            && (forall id :: id in d.seen <==> IsSingle(id) && exists i :: 0 <= i < n && ps[i].id == id)
            && (forall i, j :: 0 <= i < j < n && IsSingle(ps[i].id) ==> ps[i].id != ps[j].id)
            && (forall i :: 0 <= i < n ==> Known(ps[i].id) || !MustUnderstand(ps[i].id))
            && (d.seenLocator <==> exists i :: 0 <= i < n && (ps[i].id == PID_UNICAST || ps[i].id == PID_MULTICAST))
  {
    hide Step, Says, Defaults, IsSingle, Known, MustUnderstand;
    if n == 0 {
      BlankDefaults(h, kind);
    } else {
      EachParameterCounts(h, kind, ps, order, n - 1);
      var d, p := Fold(Blank(h, kind), ps, order, n - 1, Step).state, ps[n - 1];
      StepSays(d, p.id, p.value, order);
      forall i | 0 <= i < n - 1
        ensures Says(Step(d, p.id, p.value, order).state.endpoint, ps[i].id, ps[i].value, order)
      {
        StepKeepsSaying(d, p.id, p.value, order, ps[i].id, ps[i].value);
      }
    }
  }

  lemma BlankDefaults(h: Header, kind: EndpointKind)
    ensures Defaults(Blank(h, kind)) && Blank(h, kind).seen == {} && !Blank(h, kind).seenLocator
  {}

  /** The endpoint is what the list says: each parameter counts, what is required is there, the rest has defaults. */
  ghost predicate Describes(ps: seq<Parameter>, order: ByteOrder, e: EndpointData)
  {
    && (forall i :: 0 <= i < |ps| ==> Says(e, ps[i].id, ps[i].value, order))
    && (forall i :: 0 <= i < |ps| ==> Known(ps[i].id) || !MustUnderstand(ps[i].id))
    && (forall i, j :: 0 <= i < j < |ps| && IsSingle(ps[i].id) ==> ps[i].id != ps[j].id)
    && Lists(ps, PID_ENDPOINT_GUID) && Lists(ps, PID_TOPIC_NAME) && Lists(ps, PID_TYPE_NAME)
    && (Lists(ps, PID_RELIABILITY) || (e.reliability == 1 && e.blocking == 100_000_000))
    && (Lists(ps, PID_DURABILITY) || e.durability == 0) && (Lists(ps, PID_EXPECTS_INLINE_QOS) || !e.inlineQos)
    && (Lists(ps, PID_UNICAST) || Lists(ps, PID_MULTICAST) ==> e.unicast != [] || e.multicast != [])
  }

  lemma DraftDescribed(h: Header, kind: EndpointKind, ps: seq<Parameter>, order: ByteOrder)
    requires Fold(Blank(h, kind), ps, order, |ps|, Step).Go?
    requires Verdict(Fold(Blank(h, kind), ps, order, |ps|, Step).state).None?
    ensures Describes(ps, order, Fold(Blank(h, kind), ps, order, |ps|, Step).state.endpoint)
  {
    hide Fold, Step, Says, Known, MustUnderstand;
    EachParameterCounts(h, kind, ps, order, |ps|);
  }

  /**
   Whatever the bytes: an accepted payload announces a parameter list and its byte order, holds well-formed
   parameters up to a sentinel, and the endpoint is what they describe.
   */
  lemma AcceptedIsList(data: Data, expected: GuidPrefix) returns (ps: seq<Parameter>)
    requires ReadAnnouncement(data, expected).Done?
    ensures var v, b := ReadAnnouncement(data, expected).value, data.payload;
            && |b| >= 8 && b[0] == 0 && (b[1] == 2 || b[1] == 3)
            && v.parameterOrder == (if b[1] == 3 then LittleEndian else BigEndian)
            && At(b, 4, EncodeList(ps, v.parameterOrder, |ps|))
            && (var end := 4 + |EncodeList(ps, v.parameterOrder, |ps|)|;
                end + 4 <= |b| && Load(b, end, 2, v.parameterOrder) == SENTINEL)
            && Describes(ps, v.parameterOrder, v.endpoint)
  {
    hide Scan, Step, Verdict, Blank, Load, At, Describes;
    var order, kind := ListOrder(data.payload), KindOf(data.writerId).value;
    var blank := Blank(data.header, kind);
    NothingListed(data.payload, 4, order, blank, Step);
    ps := ScannedIsList(data.payload, 4, order, blank, MalformedParameter, Step, [], blank);
    DraftDescribed(data.header, kind, ps, order);
  }
}
