/**
 What is in force for a submessage, said by the bytes of the INFO submessages before it; and what a walk trips over.
 */
module RouterContext {
  import opened Bytes
  import opened Layout
  import opened RtpsTypes
  import SerialCount
  import opened Router
  import opened RouterExact

  // ---------------------------------------------------------------- what INFO submessages carry

  /** The protocol versions 2.1 to 2.5. */
  const VERSIONS: set<Version> := {Version(2, 1), Version(2, 2), Version(2, 3), Version(2, 4), Version(2, 5)}

  /** The last of the first `n` submessages that has the id. */
  function LastOf(subs: seq<Submessage>, id: byte, n: nat): (s: Option<Submessage>)
    requires n <= |subs|
  {
    if n == 0 then None
    else if subs[n - 1].id == id then Some(subs[n - 1])
    else LastOf(subs, id, n - 1)
  }

  /** An INFO_TS submessage with these seconds and this fraction, in the byte order its flags announce. */
  ghost predicate CarriesTime(flags: byte, content: seq<byte>, t: Timestamp)
  {
    && !Invalidates(flags) && t.fraction <= 0xFFFF_FFFF
    && content == Encode(SerialCount.Bits(t.seconds), 4, OrderOf(flags)) + Encode(t.fraction, 4, OrderOf(flags))
  }

  /** An INFO_SRC submessage: four unused bytes, the version, the vendor and the prefix. */
  predicate CarriesSource(content: seq<byte>, version: Version, vendor: VendorId, prefix: GuidPrefix)
  {
    |content| == 20 && content[4..] == [version.major, version.minor] + vendor + prefix
  }

  /** Bit 0 of the flags announces the byte order, bit 1 that a time no longer holds; the others mean nothing here. */
  lemma FlagBits(endianness: nat, invalidate: nat, others: nat)
    requires endianness <= 1 && invalidate <= 1 && others < 64
    ensures var flags := endianness + 2 * invalidate + 4 * others;
            (OrderOf(flags) == LittleEndian <==> endianness == 1) && (Invalidates(flags) <==> invalidate == 1)
  {
    var flags := endianness + 2 * invalidate + 4 * others;
    assert flags / 2 == invalidate + 2 * others;
  }

  lemma TimeIsRead(flags: byte, content: seq<byte>, c: Context, t: Timestamp)
    requires |content| == 8 && !Invalidates(flags)
    ensures ApplyInfo(INFO_TIMESTAMP, flags, content, c).Success?
    ensures var r := ApplyInfo(INFO_TIMESTAMP, flags, content, c).value;
            r.hasTimestamp && (r.timestamp == t <==> CarriesTime(flags, content, t))
  {
    hide Encode, Load, At;
    var o := OrderOf(flags);
    LoadU32(content, 0, o);
    LoadU32(content, 4, o);
    var a, b := Load(content, 0, 4, o), Load(content, 4, 4, o);
    Reencode(content, 0, 4, o);
    Reencode(content, 4, 4, o);
    Join(content, 0, Encode(a, 4, o), Encode(b, 4, o));
    WholeIs(content, Encode(a, 4, o) + Encode(b, 4, o));
    SerialCount.BitsInverse(t.seconds, a);
    if CarriesTime(flags, content, t) {
      var first, second := Encode(SerialCount.Bits(t.seconds), 4, o), Encode(t.fraction, 4, o);
      WholeIs(content, first + second);
      Split(content, 0, first, second);
      Pow256Values();
      LoadBack(content, 0, SerialCount.Bits(t.seconds), 4, o);
      LoadBack(content, 4, t.fraction, 4, o);
    }
  }

  lemma WholeIs(content: seq<byte>, all: seq<byte>)
    requires |content| == |all|
    ensures At(content, 0, all) <==> content == all
  {
    assert content[0..|content|] == content;
  }

  lemma SourceIsRead(content: seq<byte>, version: Version, vendor: VendorId, prefix: GuidPrefix)
    requires |content| == 20
    ensures CarriesSource(content, version, vendor, prefix)
       <==> version == Version(content[4], content[5]) && vendor == content[6..8] && prefix == content[8..20]
  {
    var rest := content[4..];
    assert rest[2..4] == content[6..8] && rest[4..] == content[8..20];
    assert rest == [rest[0], rest[1]] + rest[2..4] + rest[4..];
  }

  /** An INFO submessage is accepted exactly when it carries what its kind must carry. */
  lemma InfoIsAccepted(s: Submessage)
    ensures After(s).Success? <==>
      && (s.id == INFO_DESTINATION ==> |s.content| == 12)
      && (s.id == INFO_SOURCE ==> exists version: Version, vendor: VendorId, prefix: GuidPrefix ::
            version in VERSIONS && CarriesSource(s.content, version, vendor, prefix))
      && (s.id == INFO_TIMESTAMP ==> (Invalidates(s.flags) && s.content == [])
                                     || exists t: Timestamp :: CarriesTime(s.flags, s.content, t))
  {
    hide Load, Encode;
    if s.id == INFO_SOURCE && |s.content| == 20 {
      SourceIsRead(s.content, Version(s.content[4], s.content[5]), s.content[6..8], s.content[8..20]);
      forall version: Version, vendor: VendorId, prefix: GuidPrefix | CarriesSource(s.content, version, vendor, prefix)
        ensures version == Version(s.content[4], s.content[5])
      {
        SourceIsRead(s.content, version, vendor, prefix);
      }
    } else if s.id == INFO_TIMESTAMP && |s.content| == 8 && !Invalidates(s.flags) {
      TimeIsRead(s.flags, s.content, s.context, After(s).value.timestamp);
    }
  }

  // ---------------------------------------------------------------- what is in force

  /** What the submessages before a point, and the header before them, put in force there. */
  ghost predicate InForce(start: Context, subs: seq<Submessage>, n: nat, c: Context)
    requires n <= |subs|
  {
    && TimeInForce(start, LastOf(subs, INFO_TIMESTAMP, n), c)
    && SourceInForce(start, LastOf(subs, INFO_SOURCE, n), c)
    && DestinationInForce(start, LastOf(subs, INFO_DESTINATION, n), c)
  }

  ghost predicate TimeInForce(start: Context, last: Option<Submessage>, c: Context)
  {
    match last
    case None => c.hasTimestamp == start.hasTimestamp && c.timestamp == start.timestamp
    case Some(info) =>
      if Invalidates(info.flags) then !c.hasTimestamp
      else c.hasTimestamp && CarriesTime(info.flags, info.content, c.timestamp)
  }

  ghost predicate SourceInForce(start: Context, last: Option<Submessage>, c: Context)
  {
    match last
    case None => c.version == start.version && c.vendor == start.vendor && c.source == start.source
    case Some(info) => CarriesSource(info.content, c.version, c.vendor, c.source)
  }

  ghost predicate DestinationInForce(start: Context, last: Option<Submessage>, c: Context)
  {
    match last
    case None => c.destination == start.destination && c.hasDestination == start.hasDestination
    case Some(info) =>
      c.destination == info.content && (c.hasDestination <==> exists k :: 0 <= k < 12 && c.destination[k] != 0)
  }

  lemma SomeByteSet(p: GuidPrefix)
    ensures p != NO_PREFIX <==> exists k :: 0 <= k < 12 && p[k] != 0
  {
    if forall k :: 0 <= k < 12 ==> p[k] == 0 {
      assert forall k :: 0 <= k < 12 ==> p[k] == NO_PREFIX[k];
    }
  }

  /** One submessage changes what its kind carries and leaves the rest in force. */
  lemma AfterInForce(start: Context, subs: seq<Submessage>, n: nat)
    requires n < |subs| && InForce(start, subs, n, subs[n].context) && After(subs[n]).Success?
    ensures InForce(start, subs, n + 1, After(subs[n]).value)
  {
    hide CarriesTime, CarriesSource, Load;
    var s := subs[n];
    if s.id == INFO_TIMESTAMP && !Invalidates(s.flags) {
      TimeIsRead(s.flags, s.content, s.context, After(s).value.timestamp);
    } else if s.id == INFO_SOURCE {
      var c := After(s).value;
      SourceIsRead(s.content, c.version, c.vendor, c.source);
    } else if s.id == INFO_DESTINATION {
      SomeByteSet(s.content);
    }
  }

  lemma {:induction false} TiledInForce(message: seq<byte>, offset: nat, c: Context, subs: seq<Submessage>, i: nat)
    requires Tiling(message, offset, c, subs) && i < |subs|
    ensures InForce(c, subs, i, subs[i].context)
  {
    hide Lies, After, CarriesTime, CarriesSource;
    if i > 0 {
      hide InForce;
      TiledInForce(message, offset, c, subs, i - 1);
      AfterInForce(c, subs, i - 1);
      assert After(subs[i - 1]) == Success(subs[i].context);
    }
  }

  /**
   Whatever is found stands in a tiling of the message, and in force for it are the time of the last INFO_TS before
   it unless that one invalidates, the source of the last INFO_SRC or else of the header, and the last INFO_DST.
   */
  lemma FoundInForce(message: seq<byte>, id: byte, k: nat)
    requires Find(Memory(message), id, k).Success?
    ensures exists subs: seq<Submessage>, i: nat ::
              && IsNth(message, subs, id, k, i) && subs[i] == Find(Memory(message), id, k).value
              && InForce(HeaderContext(message), subs, i, subs[i].context)
  {
    hide Tiling, HeaderContext, Earlier, Matching, InForce, Find;
    var sub := Find(Memory(message), id, k).value;
    FindIsExact(message, id, k, sub);
    var subs, i :| IsNth(message, subs, id, k, i) && subs[i] == sub;
    TiledInForce(message, HEADER_SIZE, HeaderContext(message), subs, i);
  }

  /** A time is in force exactly when the last INFO_TS before carries it. */
  lemma TimeIsExact(message: seq<byte>, subs: seq<Submessage>, i: nat, t: Timestamp)
    requires |message| >= HEADER_SIZE && Tiling(message, HEADER_SIZE, HeaderContext(message), subs) && i < |subs|
    ensures var c, last := subs[i].context, LastOf(subs, INFO_TIMESTAMP, i);
            && (c.hasTimestamp && c.timestamp == t
                <==> last.Some? && CarriesTime(last.value.flags, last.value.content, t))
            && (!c.hasTimestamp <==> last.None? || Invalidates(last.value.flags))
  {
    hide Lies, After;
    TiledInForce(message, HEADER_SIZE, HeaderContext(message), subs, i);
    hide Tiling, CarriesTime;
    var c, last := subs[i].context, LastOf(subs, INFO_TIMESTAMP, i);
    if last.Some? && !Invalidates(last.value.flags) {
      CarriedLength(last.value.flags, last.value.content, c.timestamp);
      TimeIsRead(last.value.flags, last.value.content, c, t);
      TimeIsRead(last.value.flags, last.value.content, c, c.timestamp);
    } else if last.Some? {
      NoTimeCarried(last.value.flags, last.value.content, t);
    }
  }

  lemma CarriedLength(flags: byte, content: seq<byte>, t: Timestamp)
    requires CarriesTime(flags, content, t)
    ensures |content| == 8
  {}

  lemma NoTimeCarried(flags: byte, content: seq<byte>, t: Timestamp)
    requires Invalidates(flags)
    ensures !CarriesTime(flags, content, t)
  {}

  /** The header puts in force exactly the version, vendor and prefix it encodes, and nothing else. */
  lemma HeaderIsExact(message: seq<byte>, version: Version, vendor: VendorId, prefix: GuidPrefix)
    ensures version in VERSIONS && At(message, 0, EncodeHeader(version, vendor, prefix))
       <==> HeaderError(message).None? && HeaderContext(message) == StartContext(version, vendor, prefix)
  {
    if HeaderError(message).None? && HeaderContext(message) == StartContext(version, vendor, prefix) {
      var b := EncodeHeader(version, vendor, prefix);
      forall k: nat | k < |b| ensures message[k] == b[k] {
        if k < 4 {
          assert message[k] == message[0..4][k];
        } else if 6 <= k < 8 {
          assert message[k] == message[6..8][k - 6];
        } else if k >= 8 {
          assert message[k] == message[8..20][k - 8];
        }
      }
      BytesAt(message, 0, b);
    } else if SupportedVersion(version) && At(message, 0, EncodeHeader(version, vendor, prefix)) {
      HeaderIsRead(message, version, vendor, prefix);
    }
  }

  // ---------------------------------------------------------------- what lies where

  /** How long the content is that follows a header with this declared length. */
  predicate LengthOk(message: seq<byte>, s: Submessage, declared: u16)
  {
    if declared != 0 || s.id == PAD || s.id == INFO_TIMESTAMP then |s.content| == declared
    else EndOf(s) == |message|
  }

  /**
   A submessage lies where its header and content are; a declared length of zero means none for PAD and INFO_TS,
   and everything up to the end of the message for the others.
   */
  lemma LiesIsExact(message: seq<byte>, s: Submessage)
    ensures Lies(message, s) <==> exists declared: u16 ::
      && LengthOk(message, s, declared)
      && At(message, s.offset, [s.id, s.flags] + Encode(declared, 2, OrderOf(s.flags)) + s.content)
  {
    if Lies(message, s) {
      var declared := Load(message, s.offset + 2, 2, OrderOf(s.flags));
      LiesAreBytes(message, s, declared);
      assert LengthOk(message, s, declared);
    }
    forall declared: u16 | LengthOk(message, s, declared)
        && At(message, s.offset, [s.id, s.flags] + Encode(declared, 2, OrderOf(s.flags)) + s.content)
      ensures Lies(message, s)
    {
      BytesLie(message, s, declared);
    }
  }

  lemma LiesAreBytes(message: seq<byte>, s: Submessage, declared: nat)
    requires Lies(message, s) && declared == Load(message, s.offset + 2, 2, OrderOf(s.flags))
    ensures declared <= 0xFFFF
    ensures At(message, s.offset, [s.id, s.flags] + Encode(declared, 2, OrderOf(s.flags)) + s.content)
  {
    hide Encode, Load;
    var length := Encode(declared, 2, OrderOf(s.flags));
    Pow256Values();
    Reencode(message, s.offset + 2, 2, OrderOf(s.flags));
    BytesAt(message, s.offset, [s.id, s.flags]);
    SliceIsAt(message, s.offset + SUBMESSAGE_HEADER_SIZE, EndOf(s));
    hide At;
    Join(message, s.offset, [s.id, s.flags], length);
    Join(message, s.offset, [s.id, s.flags] + length, s.content);
  }

  lemma BytesLie(message: seq<byte>, s: Submessage, declared: u16)
    requires LengthOk(message, s, declared)
    requires At(message, s.offset, [s.id, s.flags] + Encode(declared, 2, OrderOf(s.flags)) + s.content)
    ensures Lies(message, s)
  {
    hide At, Encode, Load;
    var length := Encode(declared, 2, OrderOf(s.flags));
    Split(message, s.offset, [s.id, s.flags] + length, s.content);
    Split(message, s.offset, [s.id, s.flags], length);
    ByteAt(message, s.offset, [s.id, s.flags], 0);
    ByteAt(message, s.offset, [s.id, s.flags], 1);
    Pow256Values();
    LoadBack(message, s.offset + 2, declared, 2, OrderOf(s.flags));
    SliceAt(message, s.offset + SUBMESSAGE_HEADER_SIZE, s.content);
  }

  // ---------------------------------------------------------------- what a walk trips over

  /** What is wrong with the submessage at `offset`, if anything. */
  ghost predicate Fault(message: seq<byte>, offset: nat, e: RouteError)
  {
    && offset < |message|
    && match e
       case MalformedSubmessage => |message| - offset < SUBMESSAGE_HEADER_SIZE
       case Truncated =>
         && |message| - offset >= SUBMESSAGE_HEADER_SIZE
         && Load(message, offset + 2, 2, OrderOf(message[offset + 1])) > |message| - offset - SUBMESSAGE_HEADER_SIZE
       case InvalidInfo => exists s: Submessage :: s.offset == offset && Lies(message, s) && WrongInfo(s)
       case UnsupportedVersion =>
         exists s: Submessage :: s.offset == offset && Lies(message, s) && s.id == INFO_SOURCE && |s.content| == 20
                     && Version(s.content[4], s.content[5]) !in VERSIONS
       case _ => false
  }

  /** An INFO submessage whose content has not the length its kind demands. */
  predicate WrongInfo(s: Submessage)
  {
    || (s.id == INFO_DESTINATION && |s.content| != 12)
    || (s.id == INFO_SOURCE && |s.content| != 20)
    || (s.id == INFO_TIMESTAMP && |s.content| != if Invalidates(s.flags) then 0 else 8)
  }

  /** Sound submessages in a row lead from `offset` to `end`. */
  ghost predicate Leads(message: seq<byte>, offset: nat, subs: seq<Submessage>, end: nat)
    decreases |subs|
  {
    if subs == [] then offset == end
    else
      && subs[0].offset == offset && Lies(message, subs[0]) && After(subs[0]).Success?
      && Leads(message, EndOf(subs[0]), subs[1..], end)
  }

  lemma SizeFault(message: seq<byte>, offset: nat, e: RouteError)
    requires offset < |message|
    ensures ContentSize(message, offset) == Failure(e)
       <==> Fault(message, offset, e) && (e == MalformedSubmessage || e == Truncated)
  {
    hide Load;
  }

  lemma InfoFault(s: Submessage, e: RouteError)
    ensures After(s) == Failure(e) <==>
      || (e == InvalidInfo && WrongInfo(s))
      || (e == UnsupportedVersion && s.id == INFO_SOURCE && |s.content| == 20
          && Version(s.content[4], s.content[5]) !in VERSIONS)
  {
    hide Load;
  }

  /** What lies at a place is one submessage, whatever context it is read in. */
  lemma LiesAlike(message: seq<byte>, s: Submessage, t: Submessage)
    requires Lies(message, s) && Lies(message, t) && s.offset == t.offset
    ensures t.id == s.id && t.flags == s.flags && t.content == s.content
  {
    hide ContentSize;
  }

  /** A whole submessage is faulty exactly when its information is. */
  lemma WholeFault(message: seq<byte>, s: Submessage, e: RouteError)
    requires Lies(message, s)
    ensures Fault(message, s.offset, e) && e != MalformedSubmessage && e != Truncated <==> After(s) == Failure(e)
  {
    hide ContentSize, Lies, After;
    InfoFault(s, e);
    forall t: Submessage | t.offset == s.offset && Lies(message, t)
      ensures t.id == s.id && t.flags == s.flags && t.content == s.content
    {
      LiesAlike(message, s, t);
    }
    LiesInside(message, s);
  }

  lemma LiesInside(message: seq<byte>, s: Submessage)
    requires Lies(message, s)
    ensures s.offset < |message| && ContentSize(message, s.offset).Success?
  {
    hide ContentSize;
  }

  /** The submessage at `offset` as it stands there, in some context. */
  lemma FaultHere(message: seq<byte>, offset: nat, c: Context, e: RouteError)
    requires offset < |message|
    ensures Fault(message, offset, e) <==>
      var size := ContentSize(message, offset);
      || size == Failure(e)
      || (size.Success?
          && ApplyInfo(message[offset], message[offset + 1], message[offset + 4..offset + 4 + size.value], c)
             == Failure(e))
  {
    hide Fault, ApplyInfo;
    var size := ContentSize(message, offset);
    SizeFault(message, offset, e);
    if size.Success? {
      var start := offset + SUBMESSAGE_HEADER_SIZE;
      var s := Submessage(message[offset], message[offset + 1], message[start..start + size.value], offset, c);
      WholeFault(message, s, e);
    } else {
      NothingLies(message, offset, e);
    }
  }

  lemma NothingLies(message: seq<byte>, offset: nat, e: RouteError)
    requires offset < |message| && ContentSize(message, offset).Failure?
    ensures Fault(message, offset, e) ==> e == MalformedSubmessage || e == Truncated
  {
    hide ContentSize;
  }

  /** From `offset` on, sound submessages lead to a faulty one. */
  ghost predicate Trips(message: seq<byte>, offset: nat, e: RouteError)
  {
    exists subs, end :: Leads(message, offset, subs, end) && Fault(message, end, e)
  }

  lemma NoTripAtEnd(message: seq<byte>, e: RouteError)
    ensures !Trips(message, |message|, e)
  {
    hide ContentSize;
  }

  /** Trouble ahead is trouble here, or a sound submessage here and trouble after it. */
  lemma TripStep(message: seq<byte>, s: Submessage, e: RouteError)
    requires Lies(message, s)
    ensures Trips(message, s.offset, e) <==>
      Fault(message, s.offset, e) || (After(s).Success? && Trips(message, EndOf(s), e))
  {
    hide Fault, ContentSize;
    if Trips(message, s.offset, e) {
      var subs: seq<Submessage>, end: nat :| Leads(message, s.offset, subs, end) && Fault(message, end, e);
      if subs != [] {
        assert subs[0].content == s.content;
        InfoFaultsAlike(subs[0], s.context);
        assert Leads(message, EndOf(s), subs[1..], end);
      }
    }
    if Fault(message, s.offset, e) {
      assert Leads(message, s.offset, [], s.offset);
    }
    if After(s).Success? && Trips(message, EndOf(s), e) {
      var subs: seq<Submessage>, end: nat :| Leads(message, EndOf(s), subs, end) && Fault(message, end, e);
      assert ([s] + subs)[1..] == subs;
      assert Leads(message, s.offset, [s] + subs, end);
    }
  }

  lemma InfoFaultsAlike(s: Submessage, c: Context)
    ensures ApplyInfo(s.id, s.flags, s.content, c).Success? <==> After(s).Success?
  {
    hide Load;
  }

  lemma TripHere(message: seq<byte>, offset: nat, e: RouteError)
    requires offset < |message| && ContentSize(message, offset).Failure?
    ensures Trips(message, offset, e) <==> Fault(message, offset, e)
  {
    hide ContentSize, Fault;
    if Fault(message, offset, e) {
      assert Leads(message, offset, [], offset);
    }
  }

  /** A walk fails exactly when sound submessages lead to a faulty one, and with that fault. */
  lemma {:induction false} WalkTrips(message: seq<byte>, offset: nat, c: Context, e: RouteError)
    requires offset <= |message|
    ensures Walk(message, offset, c) == Failure(e) <==> Trips(message, offset, e)
    decreases |message| - offset
  {
    hide ContentSize, ApplyInfo, Walk, Fault, Trips;
    if offset == |message| {
      WalkEnd(message, c);
      NoTripAtEnd(message, e);
    } else {
      WalkStep(message, offset, c);
      FaultHere(message, offset, c, e);
      var size := ContentSize(message, offset);
      if size.Failure? {
        TripHere(message, offset, e);
      } else {
        var start := offset + SUBMESSAGE_HEADER_SIZE;
        var s := Submessage(message[offset], message[offset + 1], message[start..start + size.value], offset, c);
        TripStep(message, s, e);
        if After(s).Success? {
          WalkTrips(message, EndOf(s), After(s).value, e);
        }
      }
    }
  }

  /**
   Apart from there being too few matches, nothing is found exactly for a bad header or the first faulty submessage.
   */
  lemma FailureIsExact(message: seq<byte>, id: byte, k: nat, e: RouteError)
    requires e != NotFound
    ensures Find(Memory(message), id, k) == Failure(e) <==>
      HeaderError(message) == Some(e) || (HeaderError(message).None? && Trips(message, HEADER_SIZE, e))
    ensures Find(Null(0), id, k) == Failure(Truncated)
    ensures forall size :: size > 0 ==> Find(Null(size), id, k) == Failure(InvalidArgument)
  {
    hide Walk, Matching, Trips, HeaderContext;
    if HeaderError(message).None? {
      HeaderLong(message);
      WalkTrips(message, HEADER_SIZE, HeaderContext(message), e);
    }
  }
}
