/** What participant and endpoint discovery share: errors, locators, texts and durations. */
module Discovery {
  import opened Bytes
  import opened Layout
  import opened SerialCount
  import opened RtpsTypes
  import opened ParameterList
  import opened DataMessage

  const MAXIMUM_LOCATORS := 4
  const NANOSECONDS: nat := 1_000_000_000
  const ENTITY_UNKNOWN: EntityId := [0, 0, 0, 0]
  const ENTITY_PARTICIPANT: EntityId := [0, 0, 1, 0xC1]
  const PID_EXPECTS_INLINE_QOS := 0x43
  const PID_PARTICIPANT_GUID := 0x50

  datatype DiscoveryError =
    | InvalidArgument | InvalidConfiguration | BufferOverflow | Rtps(cause: DataError) | UnsupportedRepresentation
    | MalformedParameter | UnknownRequiredParameter | MissingRequiredParameter | DuplicateParameter
    | LocatorBoundExceeded | InvalidLocator | InvalidDuration | InvalidIdentity | DomainMismatch | ParticipantMismatch

  datatype Learned<+T> = Failed(error: DiscoveryError) | Done(value: T)

  // ---------------------------------------------------------------- locators

  type Address = s: seq<byte> | |s| == 16 witness seq(16, _ => 0)

  datatype Locator = Locator(kind: i32, port: u32, address: Address)

  /** UDP over IPv4: the address is in the last four octets. */
  predicate ValidLocator(l: Locator)
  {
    && l.kind == 1 && 0 < l.port <= 65535
    && (forall i :: 0 <= i < 12 ==> l.address[i] == 0)
    && (l.address[12] != 0 || l.address[13] != 0 || l.address[14] != 0 || l.address[15] != 0)
  }

  predicate ValidLocators(ls: seq<Locator>)
  {
    |ls| <= MAXIMUM_LOCATORS && forall i :: 0 <= i < |ls| ==> ValidLocator(ls[i])
  }

  function LocatorValue(l: Locator, order: ByteOrder): (b: seq<byte>)
    ensures |b| == 24
  {
    Encode(Bits(l.kind), 4, order) + (Encode(l.port, 4, order) + l.address)
  }

  /** Take one announced locator: other transports are passed over, a bad UDPv4 one or one too many is an error. */
  function AddLocator(ls: seq<Locator>, value: seq<byte>, order: ByteOrder): (r: Progress<seq<Locator>, DiscoveryError>)
  {
    if |value| != 24 then Stop(MalformedParameter)
    else if Load(value, 0, 4, order) != 1 then Go(ls)
    else
      LoadU32(value, 4, order);
      var l := Locator(1, Load(value, 4, 4, order), value[8..24]);
      if !ValidLocator(l) then Stop(InvalidLocator)
      else if |ls| >= MAXIMUM_LOCATORS then Stop(LocatorBoundExceeded)
      else Go(ls + [l])
  }

  lemma LocatorBack(ls: seq<Locator>, l: Locator, order: ByteOrder)
    requires ValidLocator(l) && |ls| < MAXIMUM_LOCATORS
    ensures AddLocator(ls, LocatorValue(l, order), order) == Go(ls + [l])
  {
    hide At, Load, Encode, ValidLocator;
    var b := LocatorValue(l, order);
    assert Bits(1) == 1;
    KindIsOne(l);
    SliceIsAt(b, 0, |b|);
    assert b[0..|b|] == b;
    Split(b, 0, Encode(1, 4, order), Encode(l.port, 4, order) + l.address);
    Split(b, 4, Encode(l.port, 4, order), l.address);
    Pow256Values();
    LoadBack(b, 0, 1, 4, order);
    LoadBack(b, 4, l.port, 4, order);
    SliceAt(b, 8, l.address);
  }

  lemma KindIsOne(l: Locator)
    requires ValidLocator(l)
    ensures l.kind == 1
  {}

  /** The locators that count are the UDPv4 ones: a port and an address other than 0.0.0.0. */
  lemma LocatorIsUdpV4(l: Locator)
    ensures ValidLocator(l) <==> exists a: byte, b: byte, c: byte, d: byte ::
              && l == Locator(1, l.port, [0, 0, 0, 0, 0, 0, 0, 0, 0, 0, 0, 0, a, b, c, d])
              && [a, b, c, d] != [0, 0, 0, 0] && 1 <= l.port <= 65535
  {
    if ValidLocator(l) {
      var a, b, c, d := l.address[12], l.address[13], l.address[14], l.address[15];
      assert l.address == [0, 0, 0, 0, 0, 0, 0, 0, 0, 0, 0, 0, a, b, c, d];
      assert a != 0 ==> [a, b, c, d][0] != 0;
      assert b != 0 ==> [a, b, c, d][1] != 0;
      assert c != 0 ==> [a, b, c, d][2] != 0;
      assert d != 0 ==> [a, b, c, d][3] != 0;
    }
  }

  /**
   What an announced locator does to a list: other transports are passed over, a useless UDPv4 one and one too many
   are errors, any other is appended.
   */
  lemma LocatorIsExact(ls: seq<Locator>, l: Locator, order: ByteOrder)
    ensures AddLocator(ls, LocatorValue(l, order), order)
         == if l.kind != 1 then Go(ls)
            else if !ValidLocator(l) then Stop(InvalidLocator)
            else if |ls| >= 4 then Stop(LocatorBoundExceeded)
            else Go(ls + [l])
  {
    hide At, Load, Encode, ValidLocator;
    var b := LocatorValue(l, order);
    BitsInverse(l.kind, 1);
    SliceIsAt(b, 0, |b|);
    assert b[0..|b|] == b;
    Split(b, 0, Encode(Bits(l.kind), 4, order), Encode(l.port, 4, order) + l.address);
    Split(b, 4, Encode(l.port, 4, order), l.address);
    Pow256Values();
    LoadBack(b, 0, Bits(l.kind), 4, order);
    LoadBack(b, 4, l.port, 4, order);
    SliceAt(b, 8, l.address);
  }

  /** What a list of locators becomes: a good UDPv4 locator is appended while there is room, nothing else ever is. */
  lemma LocatorIsTaken(ls: seq<Locator>, value: seq<byte>, order: ByteOrder)
    requires ValidLocators(ls)
    ensures var r := AddLocator(ls, value, order);
            r.Go? ==> ValidLocators(r.state) && (r.state == ls || (|r.state| == |ls| + 1 && r.state[..|ls|] == ls))
  {
    hide ValidLocator, Load;
  }

  // ---------------------------------------------------------------- texts

  function TextValue(text: seq<byte>, order: ByteOrder): (b: seq<byte>)
    ensures |b| % 4 == 0 && |text| + 5 <= |b| < |text| + 9
  {
    Aligned(Encode(|text| + 1, 4, order) + (text + [0]))
  }

  lemma TextBack(text: seq<byte>, order: ByteOrder)
    requires |text| <= 255
    ensures var b := TextValue(text, order);
      Load(b, 0, 4, order) == |text| + 1 && b[4..4 + |text|] == text && b[4 + |text|] == 0
  {
    hide At, Load, Encode;
    var b := TextValue(text, order);
    var size := Encode(|text| + 1, 4, order);
    assert b[0..|size| + |text| + 1] == size + (text + [0]);
    SliceIsAt(b, 0, |size| + |text| + 1);
    Split(b, 0, size, text + [0]);
    Split(b, 4, text, [0]);
    Pow256Values();
    LoadBack(b, 0, |text| + 1, 4, order);
    SliceAt(b, 4, text);
    ByteAt(b, 4 + |text|, [0], 0);
  }

  // ---------------------------------------------------------------- durations

  /** The fraction of a second, in units of 2^-32 s, rounded down. */
  function Fraction(ns: nat): (f: nat)
  {
    (ns % NANOSECONDS) * 0x1_0000_0000 / NANOSECONDS
  }

  function DurationValue(ns: nat, order: ByteOrder): (b: seq<byte>)
    ensures |b| == 8
  {
    Encode(ns / NANOSECONDS, 4, order) + Encode(Fraction(ns), 4, order)
  }

  /** A duration read back from seconds and fraction; negative seconds are no duration. */
  function ReadDuration(value: seq<byte>, position: nat, order: ByteOrder): (d: Option<nat>)
    requires position + 8 <= |value|
  {
    var seconds := Load(value, position, 4, order);
    if seconds >= 0x8000_0000 then None
    else Some(seconds * NANOSECONDS + Load(value, position + 4, 4, order) * NANOSECONDS / 0x1_0000_0000)
  }

  /** What a duration becomes on the wire: exact when its fraction is, else one nanosecond short. */
  function Shortened(ns: nat): (r: nat)
    ensures r <= ns <= r + 1
  {
    if (ns % NANOSECONDS) * 0x1_0000_0000 % NANOSECONDS == 0 then ns else ns - 1
  }

  lemma FractionBack(ns: nat)
    ensures Fraction(ns) < 0x1_0000_0000
    ensures ns / NANOSECONDS * NANOSECONDS + Fraction(ns) * NANOSECONDS / 0x1_0000_0000 == Shortened(ns)
  {
    var r := ns % NANOSECONDS;
    var f := Fraction(ns);
    var rest := r * 0x1_0000_0000 % NANOSECONDS;
    assert r * 0x1_0000_0000 == f * NANOSECONDS + rest;
    assert ns == ns / NANOSECONDS * NANOSECONDS + r;
    if rest == 0 {
      assert f * NANOSECONDS / 0x1_0000_0000 == r;
    } else {
      assert f * NANOSECONDS / 0x1_0000_0000 == r - 1;
    }
  }

  /** A duration that was read has fewer than 2^31 whole seconds. */
  lemma DurationInRange(value: seq<byte>, position: nat, order: ByteOrder)
    requires position + 8 <= |value| && ReadDuration(value, position, order).Some?
    ensures ReadDuration(value, position, order).value / NANOSECONDS < 0x8000_0000
  {
    var seconds, fraction := Load(value, position, 4, order), Load(value, position + 4, 4, order);
    LoadU32(value, position + 4, order);
    assert fraction * NANOSECONDS / 0x1_0000_0000 < NANOSECONDS;
    var ns := seconds * NANOSECONDS + fraction * NANOSECONDS / 0x1_0000_0000;
    assert ns < (seconds + 1) * NANOSECONDS;
  }

  /** A duration comes back from the wire at most one nanosecond short. */
  lemma DurationBack(value: seq<byte>, position: nat, ns: nat, order: ByteOrder)
    requires ns / NANOSECONDS < 0x8000_0000 && At(value, position, DurationValue(ns, order))
    ensures position + 8 <= |value| && ReadDuration(value, position, order) == Some(Shortened(ns))
  {
    hide At, Load, Encode, Shortened, Fraction;
    FractionBack(ns);
    Split(value, position, Encode(ns / NANOSECONDS, 4, order), Encode(Fraction(ns), 4, order));
    Pow256Values();
    LoadBack(value, position, ns / NANOSECONDS, 4, order);
    LoadBack(value, position + 4, Fraction(ns), 4, order);
  }

  /** The list of a payload, and the byte order its header announces. */
  predicate KnownRepresentation(payload: seq<byte>)
  {
    |payload| >= 8 && payload[0] == 0 && (payload[1] == 2 || payload[1] == 3)
  }

  lemma PayloadIsLong(payload: seq<byte>)
    requires KnownRepresentation(payload)
    ensures |payload| >= 4
  {}

  function ListOrder(payload: seq<byte>): (o: ByteOrder)
    requires KnownRepresentation(payload)
  {
    if payload[1] == 3 then LittleEndian else BigEndian
  }

  // ---------------------------------------------------------------- parameters

  function FlagValue(flag: bool): (b: seq<byte>)
  {
    [if flag then 1 else 0, 0, 0, 0]
  }

  function LocatorParameters(id: nat, ls: seq<Locator>, order: ByteOrder): (ps: seq<Parameter>)
    ensures |ps| == |ls|
    ensures forall i :: 0 <= i < |ls| ==> ps[i] == Parameter(id, LocatorValue(ls[i], order))
  {
    seq(|ls|, i requires 0 <= i < |ls| => Parameter(id, LocatorValue(ls[i], order)))
  }

  lemma HeaderGivesOrder(order: ByteOrder, rest: seq<byte>)
    requires |rest| >= 4
    ensures KnownRepresentation(ListHeader(order) + rest) && ListOrder(ListHeader(order) + rest) == order
  {}

  lemma U32Back(v: nat, order: ByteOrder)
    requires v < 0x1_0000_0000
    ensures Load(Encode(v, 4, order), 0, 4, order) == v
  {
    var b := Encode(v, 4, order);
    SliceIsAt(b, 0, 4);
    assert b[0..4] == b;
    Pow256Values();
    LoadBack(b, 0, v, 4, order);
  }

  lemma {:induction false} LocatorsTotal(id: nat, ls: seq<Locator>, order: ByteOrder, n: nat)
    requires n <= |ls|
    ensures Total(LocatorParameters(id, ls, order), n) == 28 * n
  {
    hide LocatorValue;
    if n > 0 {
      LocatorsTotal(id, ls, order, n - 1);
    }
  }

  lemma TotalStep(ps: seq<Parameter>, n: nat)
    requires n < |ps|
    ensures Total(ps, n + 1) == Total(ps, n) + 4 + |ps[n].value|
    ensures Total(ps, 0) == 0
  {}

  lemma PayloadIsSupported(ps: seq<Parameter>, order: ByteOrder)
    ensures SupportedPayload(EncodePayload(ps, order)) && KnownRepresentation(EncodePayload(ps, order))
    ensures ListOrder(EncodePayload(ps, order)) == order
    ensures EncodePayload(ps, order) ==
        Extended(ListHeader(order), EncodeList(ps, order, |ps|), EncodeSentinel(order), [])
  {
    hide EncodeList, EncodeSentinel;
    var k, e := EncodeList(ps, order, |ps|), EncodeSentinel(order);
    assert e + [] == e;
  }
}
