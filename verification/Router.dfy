/** Walking the submessages of an RTPS message while tracking what the INFO submessages say. */
module Router {
  import opened Bytes
  import opened Layout
  import opened RtpsTypes
  import opened SerialCount

  const HEADER_SIZE := 20
  const SUBMESSAGE_HEADER_SIZE := 4
  const PAD: byte := 0x01
  const ACKNACK: byte := 0x06
  const HEARTBEAT: byte := 0x07
  const INFO_TIMESTAMP: byte := 0x09
  const INFO_SOURCE: byte := 0x0C
  const INFO_DESTINATION: byte := 0x0E
  const DATA: byte := 0x15

  datatype RouteError =
    InvalidArgument | Truncated | InvalidProtocol | UnsupportedVersion | MalformedSubmessage | InvalidInfo | NotFound

  datatype Timestamp = Timestamp(seconds: i32, fraction: nat)

  /** What is in force for a submessage: taken from the header, then changed by INFO submessages. */
  datatype Context = Context(version: Version, vendor: VendorId, source: GuidPrefix,
                             destination: GuidPrefix, hasDestination: bool,
                             timestamp: Timestamp, hasTimestamp: bool)

  /** A received buffer: a null pointer with a claimed size, or bytes. */
  datatype Buffer = Null(size: nat) | Memory(bytes: seq<byte>)

  const NO_PREFIX: GuidPrefix := [0, 0, 0, 0, 0, 0, 0, 0, 0, 0, 0, 0]

  /** A submessage and the context in force before it. */
  datatype Submessage = Submessage(id: byte, flags: byte, content: seq<byte>, offset: nat, context: Context)

  datatype Outcome<+T> = Failure(error: RouteError) | Success(value: T)

  function OrderOf(flags: byte): (o: ByteOrder)
  {
    if flags % 2 == 1 then LittleEndian else BigEndian
  }

  predicate Invalidates(flags: byte)
  {
    (flags / 2) % 2 == 1
  }

  /** The length a submessage at `offset` has after its header, if it is whole. */
  function ContentSize(message: seq<byte>, offset: nat): (r: Outcome<nat>)
    requires offset < |message|
  {
    if |message| - offset < SUBMESSAGE_HEADER_SIZE then Failure(MalformedSubmessage)
    else
      var id := message[offset];
      var declared := Load(message, offset + 2, 2, OrderOf(message[offset + 1]));
      var available := |message| - offset - SUBMESSAGE_HEADER_SIZE;
      var size := if declared == 0 && id != PAD && id != INFO_TIMESTAMP then available else declared;
      if size > available then Failure(Truncated) else Success(size)
  }

  function ApplyInfo(id: byte, flags: byte, content: seq<byte>, c: Context): (r: Outcome<Context>)
  {
    if id == INFO_DESTINATION then
      if |content| != 12 then Failure(InvalidInfo)
      else Success(c.(destination := content, hasDestination := content != NO_PREFIX))
    else if id == INFO_SOURCE then
      if |content| != 20 then Failure(InvalidInfo)
      else if !SupportedVersion(Version(content[4], content[5])) then Failure(UnsupportedVersion)
      else Success(c.(version := Version(content[4], content[5]), vendor := content[6..8], source := content[8..20]))
    else if id == INFO_TIMESTAMP then
      if Invalidates(flags) then
        if |content| != 0 then Failure(InvalidInfo) else Success(c.(hasTimestamp := false))
      else if |content| != 8 then Failure(InvalidInfo)
      else
        LoadU32(content, 0, OrderOf(flags));
        Success(c.(timestamp := Timestamp(FromBits(Load(content, 0, 4, OrderOf(flags))),
                                          Load(content, 4, 4, OrderOf(flags))),
                   hasTimestamp := true))
    else Success(c)
  }

  // ---------------------------------------------------------------- the walk

  /** All submessages from `offset` on, each with its context; or the first error on the way. */
  function Walk(message: seq<byte>, offset: nat, c: Context): (r: Outcome<seq<Submessage>>)
    requires offset <= |message|
    decreases |message| - offset
  {
    if offset == |message| then Success([])
    else
      var size := ContentSize(message, offset);
      if size.Failure? then Failure(size.error)
      else
        var start := offset + SUBMESSAGE_HEADER_SIZE;
        var content := message[start..start + size.value];
        var next := ApplyInfo(message[offset], message[offset + 1], content, c);
        if next.Failure? then Failure(next.error)
        else
          var rest := Walk(message, start + size.value, next.value);
          if rest.Failure? then rest
          else Success([Submessage(message[offset], message[offset + 1], content, offset, c)] + rest.value)
  }

  function HeaderError(message: seq<byte>): (e: Option<RouteError>)
  {
    if |message| < HEADER_SIZE then Some(Truncated)
    else if message[0..4] != ['R' as int, 'T' as int, 'P' as int, 'S' as int] then Some(InvalidProtocol)
    else if !SupportedVersion(Version(message[4], message[5])) then Some(UnsupportedVersion)
    else None
  }

  function HeaderContext(message: seq<byte>): (c: Context)
    requires |message| >= HEADER_SIZE
  {
    Context(Version(message[4], message[5]), message[6..8], message[8..20], NO_PREFIX, false, Timestamp(0, 0), false)
  }

  /** Every submessage of a message. */
  function Submessages(message: seq<byte>): (r: Outcome<seq<Submessage>>)
  {
    var e := HeaderError(message);
    if e.Some? then Failure(e.value) else Walk(message, HEADER_SIZE, HeaderContext(message))
  }

  /** The submessages with the wanted id, in order. */
  function Matching(subs: seq<Submessage>, id: byte): (r: seq<Submessage>)
  {
    if subs == [] then []
    else (if subs[0].id == id then [subs[0]] else []) + Matching(subs[1..], id)
  }

  function Pick(subs: seq<Submessage>, id: byte, k: nat): (r: Outcome<Submessage>)
  {
    var m := Matching(subs, id);
    if k < |m| then Success(m[k]) else Failure(NotFound)
  }

  /** What the router returns for the `k`-th submessage with an id. */
  function Find(input: Buffer, id: byte, k: nat): (r: Outcome<Submessage>)
  {
    match input
    case Null(size) => Failure(if size != 0 then InvalidArgument else Truncated)
    case Memory(message) =>
      var all := Submessages(message);
      if all.Failure? then Failure(all.error) else Pick(all.value, id, k)
  }

  // ---------------------------------------------------------------- the loop

  /** What the search will answer, having seen `seen` matches and perhaps found its one. */
  ghost function Answer(rest: Outcome<seq<Submessage>>, id: byte, seen: nat, k: nat, found: Option<Submessage>)
    : (r: Outcome<Submessage>)
  {
    if rest.Failure? then Failure(rest.error)
    else if found.Some? then Success(found.value)
    else if seen <= k then Pick(rest.value, id, k - seen)
    else Failure(NotFound)
  }

  lemma AnswerStep(sub: Submessage, rest: Outcome<seq<Submessage>>, id: byte, seen: nat, k: nat,
                   found: Option<Submessage>)
    requires found.Some? <==> seen > k
    ensures var here := sub.id == id;
      Answer(if rest.Failure? then rest else Success([sub] + rest.value), id, seen, k, found)
      == Answer(rest, id, if here then seen + 1 else seen, k, if here && seen == k then Some(sub) else found)
  {
    if rest.Success? {
      assert ([sub] + rest.value)[1..] == rest.value;
    }
  }

  /** The search loop: walks the whole message, remembers the wanted submessage, and reports the first error. */
  method FindSubmessage(input: Buffer, id: byte, k: nat) returns (r: Outcome<Submessage>)
    ensures r == Find(input, id, k)
  {
    hide Walk, ContentSize, ApplyInfo, Answer;
    if input.Null? {
      return Failure(if input.size != 0 then InvalidArgument else Truncated);
    }
    var message := input.bytes;
    var e := HeaderError(message);
    if e.Some? {
      return Failure(e.value);
    }
    var context := HeaderContext(message);
    var found: Option<Submessage> := None;
    var seen, offset := 0, HEADER_SIZE;
    AnswerStarts(Walk(message, offset, context), id, k);
    while offset < |message|
      invariant HEADER_SIZE <= offset <= |message| && (found.Some? <==> seen > k)
      invariant Answer(Walk(message, offset, context), id, seen, k, found) == Find(input, id, k)
    {
      WalkStep(message, offset, context);
      var size := ContentSize(message, offset);
      if size.Failure? {
        AnswerFails(Walk(message, offset, context), id, seen, k, found);
        return Failure(size.error);
      }
      var start := offset + SUBMESSAGE_HEADER_SIZE;
      var sub := Submessage(message[offset], message[offset + 1], message[start..start + size.value], offset, context);
      var next := ApplyInfo(sub.id, sub.flags, sub.content, context);
      if next.Failure? {
        AnswerFails(Walk(message, offset, context), id, seen, k, found);
        return Failure(next.error);
      }
      AnswerStep(sub, Walk(message, start + size.value, next.value), id, seen, k, found);
      if sub.id == id {
        if seen == k {
          found := Some(sub);
        }
        seen := seen + 1;
      }
      context := next.value;
      offset := start + size.value;
    }
    AnswerEnds(message, context, id, seen, k, found);
    return if found.None? then Failure(NotFound) else Success(found.value);
  }

  lemma AnswerStarts(rest: Outcome<seq<Submessage>>, id: byte, k: nat)
    ensures Answer(rest, id, 0, k, None) == if rest.Failure? then Failure(rest.error) else Pick(rest.value, id, k)
  {}

  lemma AnswerFails(rest: Outcome<seq<Submessage>>, id: byte, seen: nat, k: nat, found: Option<Submessage>)
    requires rest.Failure?
    ensures Answer(rest, id, seen, k, found) == Failure(rest.error)
  {}

  lemma AnswerEnds(message: seq<byte>, c: Context, id: byte, seen: nat, k: nat, found: Option<Submessage>)
    requires found.Some? <==> seen > k
    ensures Answer(Walk(message, |message|, c), id, seen, k, found) == if found.None? then Failure(NotFound)
    else Success(found.value)
  {}

  lemma WalkStep(message: seq<byte>, offset: nat, c: Context)
    requires offset < |message|
    ensures var size := ContentSize(message, offset);
      && (size.Failure? ==> Walk(message, offset, c) == Failure(size.error))
      && (size.Success? ==>
            && offset + SUBMESSAGE_HEADER_SIZE + size.value <= |message|
            && var start := offset + SUBMESSAGE_HEADER_SIZE;
               var sub := Submessage(message[offset], message[offset + 1], message[start..start + size.value], offset,
                                     c);
               var next := ApplyInfo(sub.id, sub.flags, sub.content, c);
            && (next.Failure? ==> Walk(message, offset, c) == Failure(next.error))
            && (next.Success? ==>
                  var rest := Walk(message, start + size.value, next.value);
                  Walk(message, offset, c) == if rest.Failure? then rest else Success([sub] + rest.value)))
  {
    hide ApplyInfo;
  }
}
