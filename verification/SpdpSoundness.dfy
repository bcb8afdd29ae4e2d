/** What a parsed participant announcement is known to be, whoever sent it. */
module SpdpSoundness {
  import opened Bytes
  import opened Layout
  import opened RtpsTypes
  import opened Router
  import opened ParameterList
  import opened ParameterScan
  import opened DataMessage
  import opened Discovery
  import opened Spdp

  // ---------------------------------------------------------------- bounds

  /** What every accepted parameter leaves true. */
  predicate DraftOk(d: Draft)
  {
    && LocatorsOk(d.participant) && |d.participant.name| <= 63
    && 0 < d.participant.lease && d.participant.lease / NANOSECONDS < 0x8000_0000
  }

  lemma LocatorKeepsOk(d: Draft, id: nat, value: seq<byte>, order: ByteOrder)
    requires DraftOk(d)
    ensures var r := ReadLocator(d, id, value, order); r.Go? ==> DraftOk(r.state)
  {
    hide AddLocator, ValidLocators;
    LocatorIsTaken(d.participant.metatrafficUnicast, value, order);
    LocatorIsTaken(d.participant.metatrafficMulticast, value, order);
    LocatorIsTaken(d.participant.defaultUnicast, value, order);
    LocatorIsTaken(d.participant.defaultMulticast, value, order);
  }

  lemma StepKeepsOk(d: Draft, id: nat, value: seq<byte>, order: ByteOrder)
    requires DraftOk(d)
    ensures var r := Step(d, id, value, order); r.Go? ==> DraftOk(r.state)
  {
    hide ReadDuration, ReadLocator, ValidLocators, Load;
    LocatorKeepsOk(d, id, value, order);
    if id == PID_LEASE_DURATION && |value| == 8 && ReadDuration(value, 0, order).Some? {
      DurationInRange(value, 0, order);
    }
  }

  /**
   Whoever sent it, an accepted announcement came from the built-in participant writer, speaks of the participant
   that the message header names, in our domain, and holds only bounded values and valid locators.
   */
  lemma ParsedIsSound(data: Data, domain: u32)
    requires ReadAnnouncement(data, domain).Done?
    ensures data.writerId == [0, 1, 0, 0xC2] && (data.readerId == [0, 0, 0, 0] || data.readerId == [0, 1, 0, 0xC7])
    ensures var a := ReadAnnouncement(data, domain).value; var p := a.participant;
            && a.sequence == data.sequence && a.order == data.header.order
            && p.prefix == data.header.prefix && p.version == data.header.version && p.vendor == data.header.vendor
            && p.prefix != NO_PREFIX && p.domain == domain
            && LocatorsOk(p) && p.defaultUnicast != [] && (p.metatrafficUnicast != [] || p.metatrafficMulticast != [])
            && |p.name| <= 63 && 0 < p.lease && p.lease / NANOSECONDS < 0x8000_0000
  {
    hide Step, Scan, LocatorsOk, KnownRepresentation, ListOrder;
    var order := ListOrder(data.payload);
    BlankIsOk(domain);
    forall d, id, value | DraftOk(d) && Step(d, id, value, order).Go? ensures DraftOk(Step(d, id, value, order).state) {
      StepKeepsOk(d, id, value, order);
    }
    PayloadIsLong(data.payload);
    ScanKeeps(data.payload, 4, order, Blank(domain), MalformedParameter, Step, DraftOk);
  }

  lemma BlankIsOk(domain: u32)
    ensures DraftOk(Blank(domain))
  {}

  /**
   A parsed announcement can be announced again exactly when it has the built-in endpoints and a lease of 2 ns or
   more.
   */
  lemma ParsedCanBeAnnounced(data: Data, domain: u32)
    requires ReadAnnouncement(data, domain).Done?
    ensures var p := ReadAnnouncement(data, domain).value.participant;
            Announceable(p) <==> p.endpoints % 4 == 3 && p.lease >= 2
  {
    hide Scan, Step, LocatorsOk, KnownRepresentation, ListOrder;
    ParsedIsSound(data, domain);
  }

  // ---------------------------------------------------------------- each parameter

  predicate IsSingle(id: nat)
  {
    id in {PID_PROTOCOL_VERSION, PID_VENDOR_ID, PID_DOMAIN_ID, PID_PARTICIPANT_GUID, PID_EXPECTS_INLINE_QOS,
           PID_BUILTIN_ENDPOINT_SET, PID_LEASE_DURATION, PID_ENTITY_NAME}
  }

  /** What the parameter says is what the participant has. */
  predicate Says(p: Participant, id: nat, value: seq<byte>, order: ByteOrder)
  {
    && (id == PID_PROTOCOL_VERSION ==> |value| == 4 && value[..2] == [p.version.major, p.version.minor])
    && (id == PID_VENDOR_ID ==> |value| == 4 && value[..2] == p.vendor)
    && (id == PID_DOMAIN_ID ==> |value| == 4 && Load(value, 0, 4, order) == p.domain)
    && (id == PID_PARTICIPANT_GUID ==> value == p.prefix + [0, 0, 1, 0xC1])
    && (id == PID_EXPECTS_INLINE_QOS ==> |value| == 4 && value[0] == if p.inlineQos then 1 else 0)
    && (id == PID_BUILTIN_ENDPOINT_SET ==> |value| == 4 && Load(value, 0, 4, order) == p.endpoints)
    && (id == PID_LEASE_DURATION ==> |value| == 8 && ReadDuration(value, 0, order) == Some(p.lease))
    && (id == PID_ENTITY_NAME ==>
          && |value| >= 5 + |p.name| && Load(value, 0, 4, order) == |p.name| + 1
          && value[4..4 + |p.name|] == p.name && value[4 + |p.name|] == 0)
  }

  /** What the participant has where nothing was said. */
  predicate Defaults(d: Draft, domain: u32)
  {
    var p := d.participant;
    && (PID_DOMAIN_ID !in d.seen ==> p.domain == domain)
    && (PID_EXPECTS_INLINE_QOS !in d.seen ==> !p.inlineQos)
    && (PID_LEASE_DURATION !in d.seen ==> p.lease == 100_000_000_000)
    && (PID_ENTITY_NAME !in d.seen ==> p.name == [])
  }

  lemma StepSays(d: Draft, id: nat, value: seq<byte>, order: ByteOrder, domain: u32)
    requires Step(d, id, value, order).Go? && Defaults(d, domain)
    ensures var r := Step(d, id, value, order).state;
            Says(r.participant, id, value, order) && Defaults(r, domain)
            && (r.seen == if IsSingle(id) then d.seen + {id} else d.seen)
            && (IsSingle(id) ==> id !in d.seen) && (Known(id) || !MustUnderstand(id))
  {
    hide ReadDuration, AddLocator, Load;
    if id == PID_PARTICIPANT_GUID {
      assert value == value[..12] + value[12..16];
    }
  }

  /** A parameter that was read stays as it was read, for a second one with its identifier is refused. */
  lemma StepKeepsSaying(d: Draft, id: nat, value: seq<byte>, order: ByteOrder, oldId: nat, oldValue: seq<byte>)
    requires Step(d, id, value, order).Go? && Says(d.participant, oldId, oldValue, order)
    requires IsSingle(oldId) ==> oldId in d.seen
    ensures Says(Step(d, id, value, order).state.participant, oldId, oldValue, order)
  {
    hide ReadDuration, AddLocator, Load;
  }

  ghost predicate AllSaid(d: Draft, ps: seq<Parameter>, n: nat, order: ByteOrder)
    requires n <= |ps|
  {
    forall i :: 0 <= i < n ==>
      Says(d.participant, ps[i].id, ps[i].value, order) && (IsSingle(ps[i].id) ==> ps[i].id in d.seen)
  }

  /**
   The participant that a list of parameters describes has what each of them says, and the defaults for what none
   of them says: our domain, no inline QoS, a lease of 100 seconds and no name.
   */
  lemma {:induction false} EachParameterCounts(domain: u32, ps: seq<Parameter>, order: ByteOrder, n: nat)
    requires n <= |ps| && Fold(Blank(domain), ps, order, n, Step).Go?
    ensures var d := Fold(Blank(domain), ps, order, n, Step).state;
            && AllSaid(d, ps, n, order) && Defaults(d, domain)
            && (forall id :: id in d.seen <==> IsSingle(id) && exists i :: 0 <= i < n && ps[i].id == id)
            && (forall i, j :: 0 <= i < j < n && IsSingle(ps[i].id) ==> ps[i].id != ps[j].id)
            && (forall i :: 0 <= i < n ==> Known(ps[i].id) || !MustUnderstand(ps[i].id))
  {
    hide Step, Says, Defaults, IsSingle, Known, MustUnderstand;
    if n == 0 {
      BlankDefaults(domain);
    } else {
      EachParameterCounts(domain, ps, order, n - 1);
      var d, p := Fold(Blank(domain), ps, order, n - 1, Step).state, ps[n - 1];
      StepSays(d, p.id, p.value, order, domain);
      forall i | 0 <= i < n - 1
        ensures Says(Step(d, p.id, p.value, order).state.participant, ps[i].id, ps[i].value, order)
      {
        StepKeepsSaying(d, p.id, p.value, order, ps[i].id, ps[i].value);
      }
    }
  }

  lemma BlankDefaults(domain: u32)
    ensures Defaults(Blank(domain), domain) && Blank(domain).seen == {}
  {}

  /** The participant is what the list says: each parameter counts, what is required is there, the rest has defaults. */
  ghost predicate Describes(ps: seq<Parameter>, order: ByteOrder, p: Participant, domain: u32)
  {
    && (forall i :: 0 <= i < |ps| ==> Says(p, ps[i].id, ps[i].value, order))
    && (forall i :: 0 <= i < |ps| ==> Known(ps[i].id) || !MustUnderstand(ps[i].id))
    && (forall i, j :: 0 <= i < j < |ps| && IsSingle(ps[i].id) ==> ps[i].id != ps[j].id)
    && Lists(ps, PID_PROTOCOL_VERSION) && Lists(ps, PID_VENDOR_ID) && Lists(ps, PID_PARTICIPANT_GUID)
    && Lists(ps, PID_BUILTIN_ENDPOINT_SET)
    && (Lists(ps, PID_DOMAIN_ID) || p.domain == domain) && (Lists(ps, PID_EXPECTS_INLINE_QOS) || !p.inlineQos)
    && (Lists(ps, PID_LEASE_DURATION) || p.lease == 100_000_000_000) && (Lists(ps, PID_ENTITY_NAME) || p.name == [])
  }

  lemma DraftDescribed(domain: u32, ps: seq<Parameter>, order: ByteOrder, h: Header)
    requires Fold(Blank(domain), ps, order, |ps|, Step).Go?
    requires Verdict(Fold(Blank(domain), ps, order, |ps|, Step).state, h, domain).None?
    ensures Describes(ps, order, Fold(Blank(domain), ps, order, |ps|, Step).state.participant, domain)
  {
    hide Fold, Step, Says, Known, MustUnderstand;
    EachParameterCounts(domain, ps, order, |ps|);
  }

  /**
   Whatever the bytes: an accepted payload announces a parameter list and its byte order, holds well-formed
   parameters up to a sentinel, and the participant is what they describe.
   */
  lemma AcceptedIsList(data: Data, domain: u32) returns (ps: seq<Parameter>)
    requires ReadAnnouncement(data, domain).Done?
    ensures var a, b := ReadAnnouncement(data, domain).value, data.payload;
            && |b| >= 8 && b[0] == 0 && (b[1] == 2 || b[1] == 3)
            && a.parameterOrder == (if b[1] == 3 then LittleEndian else BigEndian)
            && At(b, 4, EncodeList(ps, a.parameterOrder, |ps|))
            && (var end := 4 + |EncodeList(ps, a.parameterOrder, |ps|)|;
                end + 4 <= |b| && Load(b, end, 2, a.parameterOrder) == SENTINEL)
            && Describes(ps, a.parameterOrder, a.participant, domain)
  {
    hide Scan, Step, Verdict, Blank, Load, At, Describes;
    var order := ListOrder(data.payload);
    NothingListed(data.payload, 4, order, Blank(domain), Step);
    ps := ScannedIsList(data.payload, 4, order, Blank(domain), MalformedParameter, Step, [], Blank(domain));
    DraftDescribed(domain, ps, order, data.header);
  }
}
