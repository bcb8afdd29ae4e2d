/** What the router finds, said without a walk; and what inserting a destination does to it. */
module RouterExact {
  import opened Bytes
  import opened Layout
  import opened RtpsTypes
  import opened Router

  // ---------------------------------------------------------------- tilings

  function EndOf(s: Submessage): (e: nat)
  {
    s.offset + SUBMESSAGE_HEADER_SIZE + |s.content|
  }

  /** The bytes at its offset are this submessage, with the content its header announces. */
  ghost predicate Lies(message: seq<byte>, s: Submessage)
  {
    && s.offset < |message| && ContentSize(message, s.offset) == Success(|s.content|) && EndOf(s) <= |message|
    && message[s.offset] == s.id && message[s.offset + 1] == s.flags
    && message[s.offset + SUBMESSAGE_HEADER_SIZE..EndOf(s)] == s.content
  }

  function After(s: Submessage): (r: Outcome<Context>)
  {
    ApplyInfo(s.id, s.flags, s.content, s.context)
  }

  /** Submessages that cover the message from `offset` to its end, each in the context its predecessors leave. */
  ghost predicate Tiling(message: seq<byte>, offset: nat, c: Context, subs: seq<Submessage>)
  {
    && (subs == [] ==> offset == |message|)
    && (subs != [] ==> subs[0].offset == offset && subs[0].context == c && EndOf(subs[|subs| - 1]) == |message|)
    && (forall i :: 0 <= i < |subs| ==> Lies(message, subs[i]) && After(subs[i]).Success?)
    && (forall i :: 0 < i < |subs| ==>
          subs[i].offset == EndOf(subs[i - 1]) && After(subs[i - 1]) == Success(subs[i].context))
  }

  lemma {:induction false} WalkTiles(message: seq<byte>, offset: nat, c: Context)
    requires offset <= |message| && Walk(message, offset, c).Success?
    ensures Tiling(message, offset, c, Walk(message, offset, c).value)
    decreases |message| - offset
  {
    hide ContentSize, ApplyInfo, Walk;
    if offset < |message| {
      WalkStep(message, offset, c);
      var start := offset + SUBMESSAGE_HEADER_SIZE;
      var end := start + ContentSize(message, offset).value;
      var sub := Submessage(message[offset], message[offset + 1], message[start..end], offset, c);
      var next := After(sub).value;
      WalkTiles(message, end, next);
      TilingGrows(message, sub, Walk(message, end, next).value);
    } else {
      WalkEnd(message, c);
    }
  }

  lemma WalkEnd(message: seq<byte>, c: Context)
    ensures Walk(message, |message|, c) == Success([])
  {}

  lemma TilingGrows(message: seq<byte>, sub: Submessage, rest: seq<Submessage>)
    requires Lies(message, sub) && After(sub).Success? && Tiling(message, EndOf(sub), After(sub).value, rest)
    ensures Tiling(message, sub.offset, sub.context, [sub] + rest)
  {
    hide Lies, After;
    var all := [sub] + rest;
    forall i | 0 < i < |all|
      ensures all[i].offset == EndOf(all[i - 1]) && After(all[i - 1]) == Success(all[i].context)
    {
      if i > 1 {
        assert all[i] == rest[i - 1] && all[i - 1] == rest[i - 2];
      }
    }
  }

  lemma TilingShrinks(message: seq<byte>, offset: nat, c: Context, subs: seq<Submessage>)
    requires Tiling(message, offset, c, subs) && subs != []
    ensures Lies(message, subs[0]) && subs[0].offset == offset && subs[0].context == c && After(subs[0]).Success?
    ensures Tiling(message, EndOf(subs[0]), After(subs[0]).value, subs[1..])
  {
    hide Lies, After;
    var rest := subs[1..];
    forall i | 0 < i < |rest|
      ensures rest[i].offset == EndOf(rest[i - 1]) && After(rest[i - 1]) == Success(rest[i].context)
    {
      assert subs[i + 1].offset == EndOf(subs[i]) && After(subs[i]) == Success(subs[i + 1].context);
    }
    if rest != [] {
      assert subs[1].offset == EndOf(subs[0]) && After(subs[0]) == Success(subs[1].context);
    }
  }

  lemma {:induction false} TilingIsWalk(message: seq<byte>, offset: nat, c: Context, subs: seq<Submessage>)
    requires offset <= |message| && Tiling(message, offset, c, subs)
    ensures Walk(message, offset, c) == Success(subs)
    decreases |subs|
  {
    hide ContentSize, ApplyInfo, Walk;
    if subs == [] {
      WalkEnd(message, c);
    } else {
      TilingShrinks(message, offset, c, subs);
      TilingIsWalk(message, EndOf(subs[0]), After(subs[0]).value, subs[1..]);
      WalkStep(message, offset, c);
      assert [subs[0]] + subs[1..] == subs;
    }
  }

  // ---------------------------------------------------------------- the n-th match

  /** How many of the first `n` have the id. */
  function Earlier(subs: seq<Submessage>, id: byte, n: nat): (k: nat)
    requires n <= |subs|
  {
    if n == 0 then 0 else Earlier(subs, id, n - 1) + (if subs[n - 1].id == id then 1 else 0)
  }

  lemma {:induction false} EarlierTail(subs: seq<Submessage>, id: byte, n: nat)
    requires 0 < n <= |subs|
    ensures Earlier(subs, id, n) == Earlier(subs[1..], id, n - 1) + (if subs[0].id == id then 1 else 0)
  {
    if n > 1 {
      EarlierTail(subs, id, n - 1);
      assert subs[1..][n - 2] == subs[n - 1];
    }
  }

  lemma {:induction false} MatchIsPicked(subs: seq<Submessage>, id: byte, i: nat)
    requires i < |subs| && subs[i].id == id
    ensures Earlier(subs, id, i) < |Matching(subs, id)| && Matching(subs, id)[Earlier(subs, id, i)] == subs[i]
    decreases |subs|
  {
    if i > 0 {
      MatchIsPicked(subs[1..], id, i - 1);
      EarlierTail(subs, id, i);
    }
  }

  lemma {:induction false} PickedIsMatch(subs: seq<Submessage>, id: byte, k: nat) returns (i: nat)
    requires k < |Matching(subs, id)|
    ensures i < |subs| && subs[i].id == id && Earlier(subs, id, i) == k && Matching(subs, id)[k] == subs[i]
    decreases |subs|
  {
    var first := if subs[0].id == id then 1 else 0;
    if k == 0 && first == 1 {
      i := 0;
    } else {
      var j := PickedIsMatch(subs[1..], id, k - first);
      i := j + 1;
      EarlierTail(subs, id, i);
    }
  }

  /** `sub` is the submessage of `message` with exactly `k` earlier ones of the same id. */
  ghost predicate IsNth(message: seq<byte>, subs: seq<Submessage>, id: byte, k: nat, i: nat)
  {
    && HeaderError(message).None? && Tiling(message, HEADER_SIZE, HeaderContext(message), subs)
    && i < |subs| && subs[i].id == id && Earlier(subs, id, i) == k
  }

  /**
   The router finds a submessage exactly when the message is tiled by submessages and this is the
   one preceded by `k` of the same id; its context is what all earlier INFO submessages leave.
   */
  lemma FindIsExact(message: seq<byte>, id: byte, k: nat, sub: Submessage)
    ensures Find(Memory(message), id, k) == Success(sub)
       <==> exists subs, i :: IsNth(message, subs, id, k, i) && subs[i] == sub
  {
    hide Tiling, HeaderContext, HeaderError, Earlier, Matching;
    if Find(Memory(message), id, k) == Success(sub) {
      var subs := Submessages(message).value;
      HeaderLong(message);
      WalkTiles(message, HEADER_SIZE, HeaderContext(message));
      var i := PickedIsMatch(subs, id, k);
      assert IsNth(message, subs, id, k, i);
    }
    forall subs: seq<Submessage>, i: nat | IsNth(message, subs, id, k, i)
      ensures Find(Memory(message), id, k) == Success(subs[i])
    {
      HeaderLong(message);
      TilingIsWalk(message, HEADER_SIZE, HeaderContext(message), subs);
      MatchIsPicked(subs, id, i);
    }
  }

  lemma HeaderLong(message: seq<byte>)
    requires HeaderError(message).None?
    ensures |message| >= HEADER_SIZE
  {}

  /** Whatever is found lies inside the message. */
  lemma FoundLiesInside(message: seq<byte>, id: byte, k: nat)
    requires Find(Memory(message), id, k).Success?
    ensures var s := Find(Memory(message), id, k).value;
            HEADER_SIZE <= s.offset && Lies(message, s) && s.id == id
  {
    hide Walk, HeaderContext, HeaderError, ContentSize, Earlier, Matching;
    HeaderLong(message);
    WalkTiles(message, HEADER_SIZE, HeaderContext(message));
    var subs := Submessages(message).value;
    var i := PickedIsMatch(subs, id, k);
    OffsetsAscend(message, HEADER_SIZE, HeaderContext(message), subs, i);
  }

  lemma {:induction false} VersionsAreSupported(message: seq<byte>, offset: nat, c: Context, subs: seq<Submessage>,
                                                i: nat)
    requires Tiling(message, offset, c, subs) && i < |subs| && SupportedVersion(c.version)
    ensures SupportedVersion(subs[i].context.version)
  {
    hide Lies;
    if i > 0 {
      VersionsAreSupported(message, offset, c, subs, i - 1);
      assert After(subs[i - 1]) == Success(subs[i].context);
    }
  }

  /** The version in force for whatever is found is a supported one, whether the header or an INFO_SRC set it. */
  lemma FoundVersionIsSupported(message: seq<byte>, id: byte, k: nat)
    requires Find(Memory(message), id, k).Success?
    ensures SupportedVersion(Find(Memory(message), id, k).value.context.version)
  {
    hide Walk, ContentSize, Earlier, Matching;
    WalkTiles(message, HEADER_SIZE, HeaderContext(message));
    var subs := Submessages(message).value;
    var i := PickedIsMatch(subs, id, k);
    VersionsAreSupported(message, HEADER_SIZE, HeaderContext(message), subs, i);
  }

  lemma {:induction false} OffsetsAscend(message: seq<byte>, offset: nat, c: Context, subs: seq<Submessage>, i: nat)
    requires Tiling(message, offset, c, subs) && i < |subs|
    ensures offset <= subs[i].offset
  {
    hide Lies, After;
    if i > 0 {
      OffsetsAscend(message, offset, c, subs, i - 1);
    }
  }

  // ---------------------------------------------------------------- composed messages

  datatype Raw = Raw(id: byte, flags: byte, content: seq<byte>)

  /** A submessage whose length is written out, so that it can stand anywhere in a message. */
  ghost predicate Plain(raw: Raw)
  {
    |raw.content| <= 0xFFFF && (raw.content == [] ==> raw.id == PAD || raw.id == INFO_TIMESTAMP)
  }

  function EncodeRaw(raw: Raw): (b: seq<byte>)
    ensures |b| == SUBMESSAGE_HEADER_SIZE + |raw.content|
  {
    [raw.id, raw.flags] + (Encode(|raw.content|, 2, OrderOf(raw.flags)) + raw.content)
  }

  /** An encoded submessage is walked over as itself. */
  lemma RawIsWalked(message: seq<byte>, offset: nat, raw: Raw)
    requires Plain(raw) && At(message, offset, EncodeRaw(raw))
    ensures offset + 4 + |raw.content| <= |message|
    ensures message[offset] == raw.id && message[offset + 1] == raw.flags
    ensures ContentSize(message, offset) == Success(|raw.content|)
    ensures message[offset + 4..offset + 4 + |raw.content|] == raw.content
  {
    hide At, Load, Encode;
    var size := Encode(|raw.content|, 2, OrderOf(raw.flags));
    Split(message, offset, [raw.id, raw.flags], size + raw.content);
    Split(message, offset + 2, size, raw.content);
    ByteAt(message, offset, [raw.id, raw.flags], 0);
    ByteAt(message, offset, [raw.id, raw.flags], 1);
    Pow256Values();
    LoadBack(message, offset + 2, |raw.content|, 2, OrderOf(raw.flags));
    SliceAt(message, offset + 4, raw.content);
  }

  function EncodeHeader(version: Version, vendor: VendorId, prefix: GuidPrefix): (b: seq<byte>)
    ensures |b| == HEADER_SIZE
  {
    ['R' as int, 'T' as int, 'P' as int, 'S' as int] + ([version.major, version.minor] + (vendor + prefix))
  }

  function StartContext(version: Version, vendor: VendorId, prefix: GuidPrefix): (c: Context)
  {
    Context(version, vendor, prefix, NO_PREFIX, false, Timestamp(0, 0), false)
  }

  lemma HeaderIsRead(message: seq<byte>, version: Version, vendor: VendorId, prefix: GuidPrefix)
    requires SupportedVersion(version) && At(message, 0, EncodeHeader(version, vendor, prefix))
    ensures |message| >= HEADER_SIZE && HeaderError(message).None?
    ensures HeaderContext(message) == StartContext(version, vendor, prefix)
  {
    hide At;
    var magic: seq<byte> := ['R' as int, 'T' as int, 'P' as int, 'S' as int];
    Split(message, 0, magic, [version.major, version.minor] + (vendor + prefix));
    Split(message, 4, [version.major, version.minor], vendor + prefix);
    Split(message, 6, vendor, prefix);
    SliceAt(message, 0, magic);
    ByteAt(message, 4, [version.major, version.minor], 0);
    ByteAt(message, 4, [version.major, version.minor], 1);
    SliceAt(message, 6, vendor);
    SliceAt(message, 8, prefix);
  }

  /** A header and one plain submessage that is no INFO: the router finds just that. */
  lemma SingleIsFound(version: Version, vendor: VendorId, prefix: GuidPrefix, raw: Raw)
    requires SupportedVersion(version) && Plain(raw)
    requires raw.id != INFO_DESTINATION && raw.id != INFO_SOURCE && raw.id != INFO_TIMESTAMP
    ensures Find(Memory(EncodeHeader(version, vendor, prefix) + EncodeRaw(raw)), raw.id, 0)
         == Success(Submessage(raw.id, raw.flags, raw.content, HEADER_SIZE, StartContext(version, vendor, prefix)))
  {
    hide EncodeHeader, EncodeRaw, ContentSize, Walk, HeaderError, HeaderContext;
    var header, body := EncodeHeader(version, vendor, prefix), EncodeRaw(raw);
    var message := header + body;
    SliceIsAt(message, 0, |message|);
    assert message[0..|message|] == message;
    Split(message, 0, header, body);
    HeaderIsRead(message, version, vendor, prefix);
    RawIsWalked(message, HEADER_SIZE, raw);
    var c := StartContext(version, vendor, prefix);
    WalkStep(message, HEADER_SIZE, c);
    WalkEnd(message, c);
    var sub := Submessage(raw.id, raw.flags, raw.content, HEADER_SIZE, c);
    assert [sub] + [] == [sub];
  }
}
