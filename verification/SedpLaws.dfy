/** Endpoint announcements survive the wire, fit their buffers and tolerate extensions. */
module SedpLaws {
  import opened Bytes
  import opened Layout
  import opened SequenceSet
  import opened RtpsTypes
  import opened Router
  import opened ParameterList
  import opened D = DataMessage
  import opened Discovery
  import opened Sedp

  // ---------------------------------------------------------------- extensibility

  lemma AllIgnorable(unknown: seq<Parameter>, order: ByteOrder)
    requires forall i :: 0 <= i < |unknown| ==> Ignorable(unknown[i])
    ensures AllPassedOver(Step, unknown, order)
  {
    hide PassedOver, Ignorable;
    forall i | 0 <= i < |unknown| ensures PassedOver(Step, unknown[i], order) {
      IgnorableIsPassedOver(unknown[i], order);
    }
  }

  /**
   Inserting any unknown parameters after any known ones, whatever bytes follow,
   leaves the outcome of parsing the announcement unchanged, be it an endpoint or an error.
   */
  lemma UnknownParametersPassUnread(d: Data, expected: GuidPrefix, order: ByteOrder, known: seq<Parameter>,
                                      unknown: seq<Parameter>, rest: seq<byte>)
    requires forall i :: 0 <= i < |known| ==> WellFormed(known[i])
    requires forall i :: 0 <= i < |unknown| ==> Ignorable(unknown[i])
    requires |EncodeList(known, order, |known|)| + |rest| >= 4
    ensures
      var k, u := EncodeList(known, order, |known|), EncodeList(unknown, order, |unknown|);
      ReadAnnouncement(d.(payload := Extended(ListHeader(order), k, u, rest)), expected)
      == ReadAnnouncement(d.(payload := Extended(ListHeader(order), k, [], rest)), expected)
  {
    hide ListHeader, EncodeList, WellFormed, Ignorable, KnownRepresentation, ListOrder, Scan, Verdict, AllPassedOver,
         Blank, KindOf;
    var k, u := EncodeList(known, order, |known|), EncodeList(unknown, order, |unknown|);
    HeaderGivesOrder(order, k + (u + rest));
    HeaderGivesOrder(order, k + ([] + rest));
    AllIgnorable(unknown, order);
    var kind := KindOf(d.writerId);
    if kind.Some? {
      InsertionIsInvisible(ListHeader(order), known, unknown, rest, order, Blank(d.header, kind.value),
                           MalformedParameter, Step);
    }
  }

  /** Nothing after the sentinel matters. */
  lemma BytesAfterSentinelPassUnread(d: Data, expected: GuidPrefix, order: ByteOrder, known: seq<Parameter>,
                                     after: seq<byte>)
    requires forall i :: 0 <= i < |known| ==> WellFormed(known[i])
    ensures
      var k := EncodeList(known, order, |known|);
      ReadAnnouncement(d.(payload := Extended(ListHeader(order), k, EncodeSentinel(order), after)), expected)
      == ReadAnnouncement(d.(payload := Extended(ListHeader(order), k, EncodeSentinel(order), [])), expected)
  {
    hide ListHeader, EncodeList, EncodeSentinel, WellFormed, KnownRepresentation, ListOrder, Scan, Fold, Verdict, Blank,
         KindOf;
    var k := EncodeList(known, order, |known|);
    HeaderGivesOrder(order, k + (EncodeSentinel(order) + after));
    HeaderGivesOrder(order, k + (EncodeSentinel(order) + []));
    var kind := KindOf(d.writerId);
    if kind.Some? {
      var blank := Blank(d.header, kind.value);
      NothingAfterSentinel(ListHeader(order), known, after, order, blank, MalformedParameter, Step);
      NothingAfterSentinel(ListHeader(order), known, [], order, blank, MalformedParameter, Step);
    }
  }

  /** A DATA message that carries this payload. */
  function Carrying(d: Data, payload: seq<byte>): (r: Data)
  {
    d.(payload := payload)
  }

  lemma ParsedAsData(d: Data, expected: GuidPrefix)
    requires Buildable(d)
    ensures Parse(Memory(EncodeData(d)), expected) == ReadAnnouncement(d, expected)
  {
    hide ReadAnnouncement, Buildable, ParseData, EncodeData;
    DataRoundTrip(d);
  }

  lemma ShorterIsBuildable(d: Data, order: ByteOrder, long: seq<byte>, short: seq<byte>)
    requires Buildable(Carrying(d, ListHeader(order) + long)) && |short| <= |long|
    ensures Buildable(Carrying(d, ListHeader(order) + short))
  {}

  /**
   On the wire: inserting any unknown parameters after any known ones, whatever bytes follow,
   leaves the outcome of parsing the message unchanged.
   */
  lemma UnknownParametersAreInvisible(d: Data, expected: GuidPrefix, order: ByteOrder, known: seq<Parameter>,
                                      unknown: seq<Parameter>, rest: seq<byte>)
    requires forall i :: 0 <= i < |known| ==> WellFormed(known[i])
    requires forall i :: 0 <= i < |unknown| ==> Ignorable(unknown[i])
    requires |EncodeList(known, order, |known|)| + |rest| >= 4
    requires var k, u := EncodeList(known, order, |known|), EncodeList(unknown, order, |unknown|);
             Buildable(Carrying(d, Extended(ListHeader(order), k, u, rest)))
    ensures
      var k, u := EncodeList(known, order, |known|), EncodeList(unknown, order, |unknown|);
      Parse(Memory(EncodeData(Carrying(d, Extended(ListHeader(order), k, u, rest)))), expected)
      == Parse(Memory(EncodeData(Carrying(d, Extended(ListHeader(order), k, [], rest)))), expected)
  {
    hide ListHeader, EncodeList, WellFormed, Ignorable, ReadAnnouncement, Buildable, Parse, EncodeData;
    var k, u := EncodeList(known, order, |known|), EncodeList(unknown, order, |unknown|);
    UnknownParametersPassUnread(d, expected, order, known, unknown, rest);
    ShorterIsBuildable(d, order, k + (u + rest), k + ([] + rest));
    ParsedAsData(Carrying(d, Extended(ListHeader(order), k, u, rest)), expected);
    ParsedAsData(Carrying(d, Extended(ListHeader(order), k, [], rest)), expected);
  }

  /** On the wire: bytes after the sentinel leave the outcome of parsing the message unchanged. */
  lemma BytesAfterSentinelAreInvisible(d: Data, expected: GuidPrefix, order: ByteOrder, known: seq<Parameter>,
                                       after: seq<byte>)
    requires forall i :: 0 <= i < |known| ==> WellFormed(known[i])
    requires var k := EncodeList(known, order, |known|);
             Buildable(Carrying(d, Extended(ListHeader(order), k, EncodeSentinel(order), after)))
    ensures
      var k := EncodeList(known, order, |known|);
      Parse(Memory(EncodeData(Carrying(d, Extended(ListHeader(order), k, EncodeSentinel(order), after)))), expected)
      == Parse(Memory(EncodeData(Carrying(d, Extended(ListHeader(order), k, EncodeSentinel(order), [])))), expected)
  {
    hide ListHeader, EncodeList, EncodeSentinel, WellFormed, ReadAnnouncement, Buildable, Parse, EncodeData;
    var k, e := EncodeList(known, order, |known|), EncodeSentinel(order);
    BytesAfterSentinelPassUnread(d, expected, order, known, after);
    ShorterIsBuildable(d, order, k + (e + after), k + (e + []));
    ParsedAsData(Carrying(d, Extended(ListHeader(order), k, e, after)), expected);
    ParsedAsData(Carrying(d, Extended(ListHeader(order), k, e, [])), expected);
  }

  // ---------------------------------------------------------------- each parameter read back

  function Announced(e: EndpointData): (r: EndpointData)
  {
    e.(blocking := Shortened(e.blocking))
  }

  lemma GuidBack(prefix: GuidPrefix, id: EntityId)
    ensures (prefix + id)[12..16] == id && (prefix + id)[..12] == prefix
  {}

  lemma NameBack(text: seq<byte>, order: ByteOrder)
    requires ValidName(text)
    ensures ReadText(TextValue(text, order), order) == Some(text)
  {
    hide TextValue, Load;
    TextBack(text, order);
  }

  lemma ReliabilityBack(d: Draft, e: EndpointData, order: ByteOrder)
    requires (e.reliability == 1 || e.reliability == 2) && e.blocking / NANOSECONDS < 0x8000_0000 &&
        PID_RELIABILITY !in d.seen
    ensures Step(d, PID_RELIABILITY, ReliabilityValue(e, order), order)
         == Seen(d, PID_RELIABILITY, d.endpoint.(reliability := e.reliability, blocking := Shortened(e.blocking)))
  {
    hide DurationValue, ReadDuration, Encode, Load, At;
    var b := ReliabilityValue(e, order);
    SliceIsAt(b, 0, 12);
    assert b[0..12] == b;
    Split(b, 0, Encode(e.reliability, 4, order), DurationValue(e.blocking, order));
    Pow256Values();
    LoadBack(b, 0, e.reliability, 4, order);
    DurationBack(b, 4, e.blocking, order);
  }

  /** The draft after the seven single parameters. */
  function AfterSingles(e: EndpointData): (d: Draft)
  {
    Draft(Announced(e).(unicast := [], multicast := []),
          {PID_ENDPOINT_GUID, PID_PARTICIPANT_GUID, PID_TOPIC_NAME, PID_TYPE_NAME, PID_RELIABILITY, PID_DURABILITY,
           PID_EXPECTS_INLINE_QOS}, false)
  }

  lemma SinglesBack(e: EndpointData, order: ByteOrder, h: Header)
    requires h.version == e.version && h.vendor == e.vendor && h.prefix == e.prefix
    requires ValidName(e.topic) && ValidName(e.typeName) && (e.reliability == 1 || e.reliability == 2)
    requires (e.durability == 0 || e.durability == 1) && e.blocking / NANOSECONDS < 0x8000_0000
    ensures Fold(Blank(h, e.kind), Singles(e, order), order, 7, Step) == Go(AfterSingles(e))
  {
    hide Fold, Encode, TextValue, ReliabilityValue, ReadReliability, ReadText, Shortened, Load, ValidName;
    var ps, d := Singles(e, order), Blank(h, e.kind);
    FoldNone(d, ps, order, Step);
    FoldOne(d, ps, order, 0, d, Step);
    GuidBack(e.prefix, e.id);
    var d1 := d.(endpoint := d.endpoint.(id := e.id), seen := d.seen + {PID_ENDPOINT_GUID});
    assert Step(d, ps[0].id, ps[0].value, order) == Go(d1);
    FoldOne(d, ps, order, 1, d1, Step);
    GuidBack(e.prefix, ENTITY_PARTICIPANT);
    var d2 := d1.(seen := d1.seen + {PID_PARTICIPANT_GUID});
    assert Step(d1, ps[1].id, ps[1].value, order) == Go(d2);
    FoldOne(d, ps, order, 2, d2, Step);
    NameBack(e.topic, order);
    var d3 := d2.(endpoint := d2.endpoint.(topic := e.topic), seen := d2.seen + {PID_TOPIC_NAME});
    assert Step(d2, ps[2].id, ps[2].value, order) == Go(d3);
    FoldOne(d, ps, order, 3, d3, Step);
    NameBack(e.typeName, order);
    var d4 := d3.(endpoint := d3.endpoint.(typeName := e.typeName), seen := d3.seen + {PID_TYPE_NAME});
    assert Step(d3, ps[3].id, ps[3].value, order) == Go(d4);
    assert d4.seen == {PID_ENDPOINT_GUID, PID_PARTICIPANT_GUID, PID_TOPIC_NAME, PID_TYPE_NAME};
    LaterSinglesBack(e, order, h, d4);
  }

  lemma LaterSinglesBack(e: EndpointData, order: ByteOrder, h: Header, d4: Draft)
    requires h.version == e.version && h.vendor == e.vendor && h.prefix == e.prefix
    requires (e.reliability == 1 || e.reliability == 2) && (e.durability == 0 || e.durability == 1)
    requires e.blocking / NANOSECONDS < 0x8000_0000
    requires d4 == Draft(Blank(h, e.kind).endpoint.(id := e.id, topic := e.topic, typeName := e.typeName),
                         {PID_ENDPOINT_GUID, PID_PARTICIPANT_GUID, PID_TOPIC_NAME, PID_TYPE_NAME}, false)
    requires Fold(Blank(h, e.kind), Singles(e, order), order, 4, Step) == Go(d4)
    ensures Fold(Blank(h, e.kind), Singles(e, order), order, 7, Step) == Go(AfterSingles(e))
  {
    hide Fold, Encode, TextValue, ReliabilityValue, ReadReliability, ReadText, Shortened, Load;
    var ps, d := Singles(e, order), Blank(h, e.kind);
    FoldOne(d, ps, order, 4, d4, Step);
    ReliabilityBack(d4, e, order);
    var d5 := d4.(endpoint := d4.endpoint.(reliability := e.reliability, blocking := Shortened(e.blocking)),
                  seen := d4.seen + {PID_RELIABILITY});
    assert Step(d4, ps[4].id, ps[4].value, order) == Go(d5);
    FoldOne(d, ps, order, 5, d5, Step);
    U32Back(e.durability, order);
    var d6 := d5.(endpoint := d5.endpoint.(durability := e.durability), seen := d5.seen + {PID_DURABILITY});
    assert Step(d5, ps[5].id, ps[5].value, order) == Go(d6);
    FoldOne(d, ps, order, 6, d6, Step);
    assert d6.seen + {PID_EXPECTS_INLINE_QOS} == AfterSingles(e).seen;
  }

  /** The draft with one of its locator lists replaced. */
  function WithList(d: Draft, id: nat, ls: seq<Locator>): (r: Draft)
  {
    d.(endpoint := if id == PID_UNICAST then d.endpoint.(unicast := ls) else d.endpoint.(multicast := ls),
       seenLocator := d.seenLocator || ls != [])
  }

  lemma OneLocatorBack(d: Draft, id: nat, ls: seq<Locator>, l: Locator, order: ByteOrder)
    requires (id == PID_UNICAST || id == PID_MULTICAST) && ValidLocator(l) && |ls| < MAXIMUM_LOCATORS
    ensures Step(WithList(d, id, ls), id, LocatorValue(l, order), order) == Go(WithList(d, id, ls + [l]))
  {
    hide AddLocator, LocatorValue, ValidLocator;
    LocatorBack(ls, l, order);
  }

  lemma {:induction false} LocatorsBack(d: Draft, id: nat, ls: seq<Locator>, order: ByteOrder, n: nat)
    requires (id == PID_UNICAST || id == PID_MULTICAST) && ValidLocators(ls) && n <= |ls|
    ensures Fold(WithList(d, id, []), LocatorParameters(id, ls, order), order, n, Step) == Go(WithList(d, id, ls[..n]))
  {
    hide Step, WithList, LocatorValue, ValidLocator;
    if n > 0 {
      LocatorsBack(d, id, ls, order, n - 1);
      OneLocatorBack(d, id, ls[..n - 1], ls[n - 1], order);
      assert ls[..n] == ls[..n - 1] + [ls[n - 1]];
    }
  }

  // ---------------------------------------------------------------- the whole announcement

  lemma OneListBack(d: Draft, id: nat, ls: seq<Locator>, order: ByteOrder)
    requires (id == PID_UNICAST || id == PID_MULTICAST) && ValidLocators(ls) && WithList(d, id, []) == d
    ensures var ps := LocatorParameters(id, ls, order); Fold(d, ps, order, |ps|, Step) == Go(WithList(d, id, ls))
  {
    hide Fold, Step, WithList, LocatorParameters, ValidLocators;
    LocatorsBack(d, id, ls, order, |ls|);
    assert ls[..|ls|] == ls;
  }

  lemma ParametersBack(e: EndpointData, readerId: EntityId, order: ByteOrder, h: Header)
    requires Announceable(e, readerId) && h.version == e.version && h.vendor == e.vendor && h.prefix == e.prefix
    ensures var ps := Parameters(e, order);
      var r := Fold(Blank(h, e.kind), ps, order, |ps|, Step);
      r.Go? && r.state.endpoint == Announced(e) && r.state.seen == AfterSingles(e).seen
  {
    hide Fold, Step, Singles, LocatorParameters, Blank, Shortened, ValidLocators, ValidName;
    var u := LocatorParameters(PID_UNICAST, e.unicast, order);
    var m := LocatorParameters(PID_MULTICAST, e.multicast, order);
    SinglesBack(e, order, h);
    var d0 := AfterSingles(e);
    FoldThen(Blank(h, e.kind), Singles(e, order), u + m, order, d0, Step);
    OneListBack(d0, PID_UNICAST, e.unicast, order);
    var d1 := WithList(d0, PID_UNICAST, e.unicast);
    FoldThen(d0, u, m, order, d1, Step);
    OneListBack(d1, PID_MULTICAST, e.multicast, order);
  }

  // ---------------------------------------------------------------- size

  lemma SinglesTotal(e: EndpointData, order: ByteOrder)
    requires ValidName(e.topic) && ValidName(e.typeName)
    ensures Total(Singles(e, order), 7) <= 600
  {
    hide Encode, TextValue, ReliabilityValue, Total;
    var ps := Singles(e, order);
    TotalStep(ps, 0);
    TotalStep(ps, 1);
    TotalStep(ps, 2);
    TotalStep(ps, 3);
    TotalStep(ps, 4);
    TotalStep(ps, 5);
    TotalStep(ps, 6);
  }

  /** Every announcement with valid names and locators fits the parameter buffer: at most 832 of 1280 bytes. */
  lemma PayloadFits(e: EndpointData, order: ByteOrder)
    requires ValidName(e.topic) && ValidName(e.typeName) && LocatorsOk(e)
    ensures 8 <= |EncodePayload(Parameters(e, order), order)| <= 832 < PAYLOAD_CAPACITY
  {
    hide EncodeList, EncodeSentinel, ListHeader, Total, Singles, LocatorParameters, ValidName;
    var u := LocatorParameters(PID_UNICAST, e.unicast, order);
    var m := LocatorParameters(PID_MULTICAST, e.multicast, order);
    TotalAppend(u, m, |m|);
    TotalAppend(Singles(e, order), u + m, |u + m|);
    LocatorsTotal(PID_UNICAST, e.unicast, order, |e.unicast|);
    LocatorsTotal(PID_MULTICAST, e.multicast, order, |e.multicast|);
    SinglesTotal(e, order);
    ListLength(Parameters(e, order), order, |Parameters(e, order)|);
  }

  lemma ParametersWellFormed(e: EndpointData, order: ByteOrder)
    requires ValidName(e.topic) && ValidName(e.typeName)
    ensures forall i :: 0 <= i < |Parameters(e, order)| ==> WellFormed(Parameters(e, order)[i])
  {
    hide Encode, LocatorValue, TextValue, ReliabilityValue;
  }

  // ---------------------------------------------------------------- round trip

  lemma AnnouncementIsRead(a: Announcement)
    requires Announceable(a.endpoint, a.readerId)
    ensures ReadAnnouncement(DataOf(a), a.endpoint.prefix)
         == Done(EndpointView(Announced(a.endpoint), a.sequence, a.order, a.parameterOrder))
  {
    hide EncodePayload, KnownRepresentation, ListOrder, Scan, Fold, Parameters, Blank, Shortened, ValidLocators,
         ValidName, Step, Extended;
    var e, order := a.endpoint, a.parameterOrder;
    var ps, h := Parameters(e, order), DataOf(a).header;
    ParametersWellFormed(e, order);
    PayloadIsSupported(ps, order);
    NothingAfterSentinel(ListHeader(order), ps, [], order, Blank(h, e.kind), MalformedParameter, Step);
    ParametersBack(e, a.readerId, order, h);
  }

  /**
   Every endpoint announcement the builder accepts is parsed back field for field by a receiver that expects
   its participant, in either pair of byte orders; only the blocking time may come back one nanosecond short.
   */
  lemma AnnouncementRoundTrip(a: Announcement)
    requires Announceable(a.endpoint, a.readerId) && ValidSequenceNumber(a.sequence)
    ensures Parse(Memory(EncodeData(DataOf(a))), a.endpoint.prefix)
         == Done(EndpointView(Announced(a.endpoint), a.sequence, a.order, a.parameterOrder))
    ensures Announced(a.endpoint).blocking <= a.endpoint.blocking <= Announced(a.endpoint).blocking + 1
  {
    hide EncodePayload, ParseData, EncodeData, Parameters, ReadAnnouncement, ValidLocators, ValidName, SupportedPayload;
    PayloadFits(a.endpoint, a.parameterOrder);
    PayloadIsSupported(Parameters(a.endpoint, a.parameterOrder), a.parameterOrder);
    DataRoundTrip(DataOf(a));
    AnnouncementIsRead(a);
  }
}
