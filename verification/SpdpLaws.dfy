/** Participant announcements survive the wire, fit their buffers and tolerate extensions. */
module SpdpLaws {
  import opened Bytes
  import opened Layout
  import opened SequenceSet
  import opened Router
  import opened ParameterList
  import opened D = DataMessage
  import opened Discovery
  import opened Spdp

  // ---------------------------------------------------------------- extensibility

  lemma AllIgnorable(unknown: seq<Parameter>, order: ByteOrder)
    requires forall i :: 0 <= i < |unknown| ==> Ignorable(unknown[i])
    ensures AllPassedOver(Step, unknown, order)
  {
    hide PassedOver, Ignorable;
    forall i | 0 <= i < |unknown| ensures PassedOver(Step, unknown[i], order) {
      IgnorableIsPassedOver(unknown[i], order);
    }
  }

  /**
   Inserting any unknown parameters after any known ones, whatever bytes follow,
   leaves the outcome of parsing the announcement unchanged, be it a participant or an error.
   */
  lemma UnknownParametersPassUnread(d: Data, domain: u32, order: ByteOrder, known: seq<Parameter>,
                                    unknown: seq<Parameter>, rest: seq<byte>)
    requires forall i :: 0 <= i < |known| ==> WellFormed(known[i])
    requires forall i :: 0 <= i < |unknown| ==> Ignorable(unknown[i])
    requires |EncodeList(known, order, |known|)| + |rest| >= 4
    ensures
      var k, u := EncodeList(known, order, |known|), EncodeList(unknown, order, |unknown|);
      ReadAnnouncement(d.(payload := Extended(ListHeader(order), k, u, rest)), domain)
      == ReadAnnouncement(d.(payload := Extended(ListHeader(order), k, [], rest)), domain)
  {
    hide ListHeader, EncodeList, WellFormed, Ignorable, KnownRepresentation, ListOrder, Scan, Verdict, AllPassedOver,
         Blank;
    var k, u := EncodeList(known, order, |known|), EncodeList(unknown, order, |unknown|);
    HeaderGivesOrder(order, k + (u + rest));
    HeaderGivesOrder(order, k + ([] + rest));
    AllIgnorable(unknown, order);
    InsertionIsInvisible(ListHeader(order), known, unknown, rest, order, Blank(domain), MalformedParameter, Step);
  }

  /** Nothing after the sentinel matters. */
  lemma BytesAfterSentinelPassUnread(d: Data, domain: u32, order: ByteOrder, known: seq<Parameter>, after: seq<byte>)
    requires forall i :: 0 <= i < |known| ==> WellFormed(known[i])
    ensures
      var k := EncodeList(known, order, |known|);
      ReadAnnouncement(d.(payload := Extended(ListHeader(order), k, EncodeSentinel(order), after)), domain)
      == ReadAnnouncement(d.(payload := Extended(ListHeader(order), k, EncodeSentinel(order), [])), domain)
  {
    hide ListHeader, EncodeList, EncodeSentinel, WellFormed, KnownRepresentation, ListOrder, Scan, Fold, Verdict, Blank;
    var k := EncodeList(known, order, |known|);
    HeaderGivesOrder(order, k + (EncodeSentinel(order) + after));
    HeaderGivesOrder(order, k + (EncodeSentinel(order) + []));
    NothingAfterSentinel(ListHeader(order), known, after, order, Blank(domain), MalformedParameter, Step);
    NothingAfterSentinel(ListHeader(order), known, [], order, Blank(domain), MalformedParameter, Step);
  }

  /** A DATA message that carries this payload. */
  function Carrying(d: Data, payload: seq<byte>): (r: Data)
  {
    d.(payload := payload)
  }

  lemma ParsedAsData(d: Data, domain: u32)
    requires Buildable(d)
    ensures Parse(Memory(EncodeData(d)), domain) == ReadAnnouncement(d, domain)
  {
    hide ReadAnnouncement, Buildable, ParseData, EncodeData;
    DataRoundTrip(d);
  }

  lemma ShorterIsBuildable(d: Data, order: ByteOrder, long: seq<byte>, short: seq<byte>)
    requires Buildable(Carrying(d, ListHeader(order) + long)) && |short| <= |long|
    ensures Buildable(Carrying(d, ListHeader(order) + short))
  {}

  /**
   On the wire: inserting any unknown parameters after any known ones, whatever bytes follow,
   leaves the outcome of parsing the message unchanged.
   */
  lemma UnknownParametersAreInvisible(d: Data, domain: u32, order: ByteOrder, known: seq<Parameter>,
                                      unknown: seq<Parameter>, rest: seq<byte>)
    requires forall i :: 0 <= i < |known| ==> WellFormed(known[i])
    requires forall i :: 0 <= i < |unknown| ==> Ignorable(unknown[i])
    requires |EncodeList(known, order, |known|)| + |rest| >= 4
    requires var k, u := EncodeList(known, order, |known|), EncodeList(unknown, order, |unknown|);
             Buildable(Carrying(d, Extended(ListHeader(order), k, u, rest)))
    ensures
      var k, u := EncodeList(known, order, |known|), EncodeList(unknown, order, |unknown|);
      Parse(Memory(EncodeData(Carrying(d, Extended(ListHeader(order), k, u, rest)))), domain)
      == Parse(Memory(EncodeData(Carrying(d, Extended(ListHeader(order), k, [], rest)))), domain)
  {
    hide ListHeader, EncodeList, WellFormed, Ignorable, ReadAnnouncement, Buildable, Parse, EncodeData;
    var k, u := EncodeList(known, order, |known|), EncodeList(unknown, order, |unknown|);
    UnknownParametersPassUnread(d, domain, order, known, unknown, rest);
    ShorterIsBuildable(d, order, k + (u + rest), k + ([] + rest));
    ParsedAsData(Carrying(d, Extended(ListHeader(order), k, u, rest)), domain);
    ParsedAsData(Carrying(d, Extended(ListHeader(order), k, [], rest)), domain);
  }

  /** On the wire: bytes after the sentinel leave the outcome of parsing the message unchanged. */
  lemma BytesAfterSentinelAreInvisible(d: Data, domain: u32, order: ByteOrder, known: seq<Parameter>, after: seq<byte>)
    requires forall i :: 0 <= i < |known| ==> WellFormed(known[i])
    requires var k := EncodeList(known, order, |known|);
             Buildable(Carrying(d, Extended(ListHeader(order), k, EncodeSentinel(order), after)))
    ensures
      var k := EncodeList(known, order, |known|);
      Parse(Memory(EncodeData(Carrying(d, Extended(ListHeader(order), k, EncodeSentinel(order), after)))), domain)
      == Parse(Memory(EncodeData(Carrying(d, Extended(ListHeader(order), k, EncodeSentinel(order), [])))), domain)
  {
    hide ListHeader, EncodeList, EncodeSentinel, WellFormed, ReadAnnouncement, Buildable, Parse, EncodeData;
    var k, e := EncodeList(known, order, |known|), EncodeSentinel(order);
    BytesAfterSentinelPassUnread(d, domain, order, known, after);
    ShorterIsBuildable(d, order, k + (e + after), k + (e + []));
    ParsedAsData(Carrying(d, Extended(ListHeader(order), k, e, after)), domain);
    ParsedAsData(Carrying(d, Extended(ListHeader(order), k, e, [])), domain);
  }

  // ---------------------------------------------------------------- each parameter read back

  function Announced(p: Participant): (r: Participant)
  {
    p.(lease := Shortened(p.lease))
  }

  lemma GuidBack(p: Participant)
    ensures (p.prefix + ENTITY_PARTICIPANT)[12..16] == ENTITY_PARTICIPANT &&
        (p.prefix + ENTITY_PARTICIPANT)[..12] == p.prefix
  {}

  lemma LeaseBack(d: Draft, p: Participant, order: ByteOrder)
    requires 2 <= p.lease && p.lease / NANOSECONDS < 0x8000_0000 && PID_LEASE_DURATION !in d.seen
    ensures Step(d, PID_LEASE_DURATION, DurationValue(p.lease, order), order)
         == Go(Draft(d.participant.(lease := Shortened(p.lease)), d.seen + {PID_LEASE_DURATION}))
  {
    hide DurationValue, ReadDuration;
    var b := DurationValue(p.lease, order);
    SliceIsAt(b, 0, 8);
    assert b[0..8] == b;
    DurationBack(b, 0, p.lease, order);
  }

  /** The draft after the seven single parameters. */
  function AfterSingles(p: Participant): (d: Draft)
  {
    Draft(Announced(p).(metatrafficUnicast := [], metatrafficMulticast := [], defaultUnicast := [],
                        defaultMulticast := [], name := []),
          {PID_PROTOCOL_VERSION, PID_VENDOR_ID, PID_DOMAIN_ID, PID_PARTICIPANT_GUID, PID_EXPECTS_INLINE_QOS,
           PID_BUILTIN_ENDPOINT_SET, PID_LEASE_DURATION})
  }

  lemma SinglesBack(p: Participant, order: ByteOrder)
    requires 2 <= p.lease && p.lease / NANOSECONDS < 0x8000_0000
    ensures Fold(Blank(p.domain), Singles(p, order), order, 7, Step) == Go(AfterSingles(p))
  {
    hide Fold, Encode, DurationValue, ReadLease, Shortened, Load;
    var ps, d := Singles(p, order), Blank(p.domain);
    FoldNone(d, ps, order, Step);
    FoldOne(d, ps, order, 0, d, Step);
    var d1 := Draft(d.participant.(version := p.version), d.seen + {PID_PROTOCOL_VERSION});
    assert Step(d, ps[0].id, ps[0].value, order) == Go(d1);
    FoldOne(d, ps, order, 1, d1, Step);
    var d2 := Draft(d1.participant.(vendor := p.vendor), d1.seen + {PID_VENDOR_ID});
    assert ps[1].value[..2] == p.vendor;
    assert Step(d1, ps[1].id, ps[1].value, order) == Go(d2);
    FoldOne(d, ps, order, 2, d2, Step);
    U32Back(p.domain, order);
    var d3 := Draft(d2.participant.(domain := p.domain), d2.seen + {PID_DOMAIN_ID});
    assert Step(d2, ps[2].id, ps[2].value, order) == Go(d3);
    FoldOne(d, ps, order, 3, d3, Step);
    GuidBack(p);
    var d4 := Draft(d3.participant.(prefix := p.prefix), d3.seen + {PID_PARTICIPANT_GUID});
    assert Step(d3, ps[3].id, ps[3].value, order) == Go(d4);
    assert d4.seen == {PID_PROTOCOL_VERSION, PID_VENDOR_ID, PID_DOMAIN_ID, PID_PARTICIPANT_GUID};
    LaterSinglesBack(p, order, d4);
  }

  lemma LaterSinglesBack(p: Participant, order: ByteOrder, d4: Draft)
    requires 2 <= p.lease && p.lease / NANOSECONDS < 0x8000_0000
    requires d4 == Draft(Blank(p.domain).participant.(version := p.version, vendor := p.vendor, domain := p.domain,
                                                      prefix := p.prefix),
                         {PID_PROTOCOL_VERSION, PID_VENDOR_ID, PID_DOMAIN_ID, PID_PARTICIPANT_GUID})
    requires Fold(Blank(p.domain), Singles(p, order), order, 4, Step) == Go(d4)
    ensures Fold(Blank(p.domain), Singles(p, order), order, 7, Step) == Go(AfterSingles(p))
  {
    hide Fold, Encode, DurationValue, ReadLease, Shortened, Load;
    var ps, d := Singles(p, order), Blank(p.domain);
    FoldOne(d, ps, order, 4, d4, Step);
    var d5 := Draft(d4.participant.(inlineQos := p.inlineQos), d4.seen + {PID_EXPECTS_INLINE_QOS});
    assert Step(d4, ps[4].id, ps[4].value, order) == Go(d5);
    FoldOne(d, ps, order, 5, d5, Step);
    U32Back(p.endpoints, order);
    var d6 := Draft(d5.participant.(endpoints := p.endpoints), d5.seen + {PID_BUILTIN_ENDPOINT_SET});
    assert Step(d5, ps[5].id, ps[5].value, order) == Go(d6);
    FoldOne(d, ps, order, 6, d6, Step);
    LeaseBack(d6, p, order);
    assert d6.seen + {PID_LEASE_DURATION} == AfterSingles(p).seen;
  }

  /** The draft with one of its locator lists replaced. */
  function WithList(d: Draft, id: nat, ls: seq<Locator>): (r: Draft)
  {
    d.(participant :=
      if id == PID_METATRAFFIC_UNICAST then d.participant.(metatrafficUnicast := ls)
      else if id == PID_METATRAFFIC_MULTICAST then d.participant.(metatrafficMulticast := ls)
      else if id == PID_DEFAULT_UNICAST then d.participant.(defaultUnicast := ls)
      else d.participant.(defaultMulticast := ls))
  }

  predicate IsLocatorId(id: nat)
  {
    id in {PID_METATRAFFIC_UNICAST, PID_METATRAFFIC_MULTICAST, PID_DEFAULT_UNICAST, PID_DEFAULT_MULTICAST}
  }

  lemma OneLocatorBack(d: Draft, id: nat, ls: seq<Locator>, l: Locator, order: ByteOrder)
    requires IsLocatorId(id) && ValidLocator(l) && |ls| < MAXIMUM_LOCATORS
    ensures Step(WithList(d, id, ls), id, LocatorValue(l, order), order) == Go(WithList(d, id, ls + [l]))
  {
    hide AddLocator, LocatorValue, ValidLocator;
    LocatorBack(ls, l, order);
  }

  lemma {:induction false} LocatorsBack(d: Draft, id: nat, ls: seq<Locator>, order: ByteOrder, n: nat)
    requires IsLocatorId(id) && ValidLocators(ls) && n <= |ls|
    ensures Fold(WithList(d, id, []), LocatorParameters(id, ls, order), order, n, Step) == Go(WithList(d, id, ls[..n]))
  {
    hide Step, WithList, LocatorValue, ValidLocator;
    if n > 0 {
      LocatorsBack(d, id, ls, order, n - 1);
      OneLocatorBack(d, id, ls[..n - 1], ls[n - 1], order);
      assert ls[..n] == ls[..n - 1] + [ls[n - 1]];
    }
  }

  lemma NameBack(d: Draft, name: seq<byte>, order: ByteOrder)
    requires |name| <= MAXIMUM_NAME && d.participant.name == [] && PID_ENTITY_NAME !in d.seen
    ensures var ps := NameParameters(name, order);
      var r := Fold(d, ps, order, |ps|, Step);
      r.Go? && r.state.participant == d.participant.(name := name) && d.seen <= r.state.seen
  {
    hide TextValue, Load;
    if name != [] {
      TextBack(name, order);
      var ps := NameParameters(name, order);
      FoldNone(d, ps, order, Step);
      FoldOne(d, ps, order, 0, d, Step);
    }
  }

  // ---------------------------------------------------------------- the whole announcement

  lemma OneListBack(d: Draft, id: nat, ls: seq<Locator>, order: ByteOrder, rest: seq<Parameter>)
    requires IsLocatorId(id) && ValidLocators(ls) && WithList(d, id, []) == d
    ensures var ps := LocatorParameters(id, ls, order) + rest;
      Fold(d, ps, order, |ps|, Step) == Fold(WithList(d, id, ls), rest, order, |rest|, Step)
  {
    hide Fold, Step, WithList, LocatorParameters, ValidLocators;
    LocatorsBack(d, id, ls, order, |ls|);
    assert ls[..|ls|] == ls;
    FoldThen(d, LocatorParameters(id, ls, order), rest, order, WithList(d, id, ls), Step);
  }

  lemma ParametersBack(p: Participant, order: ByteOrder)
    requires Announceable(p)
    ensures var ps := Parameters(p, order);
      var r := Fold(Blank(p.domain), ps, order, |ps|, Step);
      && r.Go? && r.state.participant == Announced(p)
      && {PID_PROTOCOL_VERSION, PID_VENDOR_ID, PID_PARTICIPANT_GUID, PID_BUILTIN_ENDPOINT_SET} <= r.state.seen
  {
    hide Fold, Step, Singles, LocatorParameters, NameParameters, Blank, Shortened, ValidLocators;
    var name := NameParameters(p.name, order);
    var dm := LocatorParameters(PID_DEFAULT_MULTICAST, p.defaultMulticast, order) + name;
    var du := LocatorParameters(PID_DEFAULT_UNICAST, p.defaultUnicast, order) + dm;
    var mm := LocatorParameters(PID_METATRAFFIC_MULTICAST, p.metatrafficMulticast, order) + du;
    var mu := LocatorParameters(PID_METATRAFFIC_UNICAST, p.metatrafficUnicast, order) + mm;
    SinglesBack(p, order);
    var d0 := AfterSingles(p);
    FoldThen(Blank(p.domain), Singles(p, order), mu, order, d0, Step);
    OneListBack(d0, PID_METATRAFFIC_UNICAST, p.metatrafficUnicast, order, mm);
    var d1 := WithList(d0, PID_METATRAFFIC_UNICAST, p.metatrafficUnicast);
    OneListBack(d1, PID_METATRAFFIC_MULTICAST, p.metatrafficMulticast, order, du);
    var d2 := WithList(d1, PID_METATRAFFIC_MULTICAST, p.metatrafficMulticast);
    OneListBack(d2, PID_DEFAULT_UNICAST, p.defaultUnicast, order, dm);
    var d3 := WithList(d2, PID_DEFAULT_UNICAST, p.defaultUnicast);
    OneListBack(d3, PID_DEFAULT_MULTICAST, p.defaultMulticast, order, name);
    NameBack(WithList(d3, PID_DEFAULT_MULTICAST, p.defaultMulticast), p.name, order);
  }

  // ---------------------------------------------------------------- size

  lemma SinglesTotal(p: Participant, order: ByteOrder)
    ensures Total(Singles(p, order), 7) == 72
  {
    hide Encode, DurationValue, Total;
    var ps := Singles(p, order);
    TotalStep(ps, 0);
    TotalStep(ps, 1);
    TotalStep(ps, 2);
    TotalStep(ps, 3);
    TotalStep(ps, 4);
    TotalStep(ps, 5);
    TotalStep(ps, 6);
  }

  lemma NameTotal(name: seq<byte>, order: ByteOrder)
    requires |name| <= MAXIMUM_NAME
    ensures var ps := NameParameters(name, order); Total(ps, |ps|) <= 72
  {
    hide TextValue;
    if name != [] {
      TotalStep(NameParameters(name, order), 0);
    }
  }

  /** Every valid announcement fits the parameter buffer: at most 600 of 768 bytes. */
  lemma PayloadFits(p: Participant, order: ByteOrder)
    requires |p.name| <= MAXIMUM_NAME && LocatorsOk(p)
    ensures 8 <= |EncodePayload(Parameters(p, order), order)| <= 600 < PAYLOAD_CAPACITY
  {
    hide EncodeList, EncodeSentinel, ListHeader, Total, Singles, LocatorParameters, NameParameters;
    var name := NameParameters(p.name, order);
    var dml := LocatorParameters(PID_DEFAULT_MULTICAST, p.defaultMulticast, order);
    var dul := LocatorParameters(PID_DEFAULT_UNICAST, p.defaultUnicast, order);
    var mml := LocatorParameters(PID_METATRAFFIC_MULTICAST, p.metatrafficMulticast, order);
    var mul := LocatorParameters(PID_METATRAFFIC_UNICAST, p.metatrafficUnicast, order);
    TotalAppend(dml, name, |name|);
    TotalAppend(dul, dml + name, |dml + name|);
    TotalAppend(mml, dul + (dml + name), |dul + (dml + name)|);
    TotalAppend(mul, mml + (dul + (dml + name)), |mml + (dul + (dml + name))|);
    var all := mul + (mml + (dul + (dml + name)));
    TotalAppend(Singles(p, order), all, |all|);
    LocatorsTotal(PID_DEFAULT_MULTICAST, p.defaultMulticast, order, |p.defaultMulticast|);
    LocatorsTotal(PID_DEFAULT_UNICAST, p.defaultUnicast, order, |p.defaultUnicast|);
    LocatorsTotal(PID_METATRAFFIC_MULTICAST, p.metatrafficMulticast, order, |p.metatrafficMulticast|);
    LocatorsTotal(PID_METATRAFFIC_UNICAST, p.metatrafficUnicast, order, |p.metatrafficUnicast|);
    SinglesTotal(p, order);
    NameTotal(p.name, order);
    ListLength(Parameters(p, order), order, |Parameters(p, order)|);
  }

  lemma ParametersWellFormed(p: Participant, order: ByteOrder)
    requires |p.name| <= MAXIMUM_NAME
    ensures forall i :: 0 <= i < |Parameters(p, order)| ==> WellFormed(Parameters(p, order)[i])
  {
    hide Encode, DurationValue, LocatorValue, TextValue;
  }

  // ---------------------------------------------------------------- round trip

  lemma AnnouncementIsRead(a: Announcement)
    requires Announceable(a.participant)
    ensures ReadAnnouncement(DataOf(a), a.participant.domain) == Done(a.(participant := Announced(a.participant)))
  {
    hide EncodePayload, KnownRepresentation, ListOrder, Scan, Fold, Parameters, Blank, Shortened, ValidLocators, Step,
         Extended;
    var p, order := a.participant, a.parameterOrder;
    var ps := Parameters(p, order);
    ParametersWellFormed(p, order);
    PayloadIsSupported(ps, order);
    NothingAfterSentinel(ListHeader(order), ps, [], order, Blank(p.domain), MalformedParameter, Step);
    ParametersBack(p, order);
  }

  /**
   Every announcement the builder accepts is parsed back field for field, in either pair of byte orders;
   only the lease may come back one nanosecond short, and it never comes back zero.
   */
  lemma AnnouncementRoundTrip(a: Announcement)
    requires Announceable(a.participant) && ValidSequenceNumber(a.sequence)
    ensures Parse(Memory(EncodeData(DataOf(a))), a.participant.domain) ==
        Done(a.(participant := Announced(a.participant)))
    ensures 0 < Announced(a.participant).lease <= a.participant.lease <= Announced(a.participant).lease + 1
  {
    hide EncodePayload, ParseData, EncodeData, Parameters, ReadAnnouncement, ValidLocators, SupportedPayload;
    PayloadFits(a.participant, a.parameterOrder);
    PayloadIsSupported(Parameters(a.participant, a.parameterOrder), a.parameterOrder);
    DataRoundTrip(DataOf(a));
    AnnouncementIsRead(a);
  }
}
