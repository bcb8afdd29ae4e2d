/** Exactly which bytes are parsed as which sample and which acknowledgement. */
module MessageExact {
  import opened Bytes
  import opened Layout
  import opened SequenceSet
  import opened RtpsTypes
  import opened Router
  import opened RouterExact
  import opened ReliabilityMessages
  import opened DataMessage

  // ---------------------------------------------------------------- DATA

  /** The content of a submessage: no extra flags, the identifiers and number, what is skipped, and the payload. */
  function CarriedBytes(d: Data, skipped: seq<byte>): (b: seq<byte>)
    requires 16 + |skipped| <= 0xFFFF
  {
    var order := d.header.order;
    Encode(0, 2, order) + (Encode(16 + |skipped|, 2, order) + (d.readerId + (d.writerId +
    (EncodeNumber(d.sequence, order) + (skipped + d.payload)))))
  }

  /**
   This submessage carries the sample: of the flags that change the layout it sets the data flag alone, and a later
   version may have put something before the payload.
   */
  ghost predicate CarriesData(s: Submessage, d: Data, skipped: seq<byte>, unused: nat)
  {
    && unused < 8 && s.flags == EndianFlag(d.header.order) + 4 + 32 * unused && HeaderOf(s) == d.header
    && ValidSequenceNumber(d.sequence) && SupportedPayload(d.payload)
    && 16 + |skipped| <= 0xFFFF && s.content == CarriedBytes(d, skipped)
  }

  lemma FlagDigits(flags: byte) returns (a: nat, b: nat, c: nat, d: nat, e: nat, f: nat)
    ensures a <= 1 && b <= 1 && c <= 1 && d <= 1 && e <= 1 && f < 8
    ensures flags == a + 2 * b + 4 * c + 8 * d + 16 * e + 32 * f
    ensures OrderOf(flags) == LittleEndian <==> a == 1
    ensures Flag(flags, 2) <==> b == 1
    ensures Flag(flags, 4) <==> c == 1
    ensures Flag(flags, 8) <==> d == 1
    ensures Flag(flags, 16) <==> e == 1
  {
    var h1 := flags / 2;
    var h2 := h1 / 2;
    var h3 := h2 / 2;
    var h4 := h3 / 2;
    assert flags / 4 == h2 && flags / 8 == h3 && flags / 16 == h4;
    a, b, c, d, e, f := flags % 2, h1 % 2, h2 % 2, h3 % 2, h4 % 2, h4 / 2;
  }

  lemma FlagsOf(flags: byte, order: ByteOrder)
    ensures OrderOf(flags) == order && Flag(flags, 4) && !Flag(flags, 2) && !Flag(flags, 8) && !Flag(flags, 16)
       <==> exists unused: nat :: unused < 8 && flags == EndianFlag(order) + 4 + 32 * unused
  {
    hide OrderOf, Flag;
    var a, b, c, d, e, f := FlagDigits(flags);
    if OrderOf(flags) == order && Flag(flags, 4) && !Flag(flags, 2) && !Flag(flags, 8) && !Flag(flags, 16) {
      assert flags == EndianFlag(order) + 4 + 32 * f;
    }
  }

  /** The parts of a carried sample lie where the parser looks for them. */
  lemma CarriedParts(s: Submessage, d: Data, skipped: seq<byte>, unused: nat)
    requires CarriesData(s, d, skipped, unused)
    ensures var b, order := s.content, d.header.order;
      && |b| == 20 + |skipped| + |d.payload|
      && Load(b, 0, 2, order) == 0 && Load(b, 2, 2, order) == 16 + |skipped|
      && b[4..8] == d.readerId && b[8..12] == d.writerId
      && ReadNumber(b, 12, order, false) == Some(d.sequence) && b[20 + |skipped|..] == d.payload
  {
    hide At, EncodeNumber, ReadNumber, Load, Encode, SupportedPayload;
    var b, order := s.content, d.header.order;
    var rest := skipped + d.payload;
    var numbered := EncodeNumber(d.sequence, order) + rest;
    var written := d.writerId + numbered;
    var read := d.readerId + written;
    var offset := Encode(16 + |skipped|, 2, order);
    SliceIsAt(b, 0, |b|);
    assert b[0..|b|] == b;
    Split(b, 0, Encode(0, 2, order), offset + read);
    Split(b, 2, offset, read);
    Split(b, 4, d.readerId, written);
    Split(b, 8, d.writerId, numbered);
    Split(b, 12, EncodeNumber(d.sequence, order), rest);
    Split(b, 20, skipped, d.payload);
    Pow256Values();
    LoadBack(b, 0, 0, 2, order);
    LoadBack(b, 2, 16 + |skipped|, 2, order);
    SliceAt(b, 4, d.readerId);
    SliceAt(b, 8, d.writerId);
    NumberBack(b, 12, d.sequence, order, false);
    SliceAt(b, 20 + |skipped|, d.payload);
    assert b[20 + |skipped|..] == b[20 + |skipped|..20 + |skipped| + |d.payload|];
  }

  lemma BytesCarry(b: seq<byte>, d: Data, skipped: seq<byte>)
    requires 16 + |skipped| <= 0xFFFF && |b| == 20 + |skipped| + |d.payload|
    requires var order := d.header.order;
      && At(b, 0, Encode(0, 2, order)) && At(b, 2, Encode(16 + |skipped|, 2, order)) && At(b, 4, d.readerId)
      && At(b, 8, d.writerId) && At(b, 12, EncodeNumber(d.sequence, order)) && At(b, 20, skipped)
      && At(b, 20 + |skipped|, d.payload)
    ensures b == CarriedBytes(d, skipped)
  {
    hide At, EncodeNumber, Encode;
    var order := d.header.order;
    var rest := skipped + d.payload;
    var numbered := EncodeNumber(d.sequence, order) + rest;
    var read := d.readerId + (d.writerId + numbered);
    Join(b, 20, skipped, d.payload);
    Join(b, 12, EncodeNumber(d.sequence, order), rest);
    Join(b, 8, d.writerId, numbered);
    Join(b, 4, d.readerId, d.writerId + numbered);
    Join(b, 2, Encode(16 + |skipped|, 2, order), read);
    Join(b, 0, Encode(0, 2, order), Encode(16 + |skipped|, 2, order) + read);
    SliceAt(b, 0, CarriedBytes(d, skipped));
    assert b[0..|b|] == b;
  }

  lemma PartsCarry(s: Submessage) returns (skipped: seq<byte>)
    requires ReadData(s).Ok?
    ensures 16 + |skipped| <= 0xFFFF && s.content == CarriedBytes(ReadData(s).value.data, skipped)
  {
    hide At, EncodeNumber, ReadNumber, Load, Encode, SupportedPayload, Flag, CarriedBytes;
    var d, b := ReadData(s).value.data, s.content;
    var order := d.header.order;
    var start := 4 + Load(b, 2, 2, order);
    skipped := b[20..start];
    Pow256Values();
    Reencode(b, 0, 2, order);
    Reencode(b, 2, 2, order);
    NumberIs(b, 12, order, false);
    SliceIsAt(b, 4, 8);
    SliceIsAt(b, 8, 12);
    SliceIsAt(b, 20, start);
    SliceIsAt(b, start, |b|);
    assert b[start..|b|] == b[start..];
    BytesCarry(b, d, skipped);
  }

  lemma CarriedIsRead(s: Submessage, d: Data, skipped: seq<byte>, unused: nat)
    requires CarriesData(s, d, skipped, unused)
    ensures ReadData(s) == Ok(View(d, s.context.destination, s.context.hasDestination, s.context.timestamp,
                                   s.context.hasTimestamp))
  {
    CarriedParts(s, d, skipped, unused);
    FlagsOf(s.flags, d.header.order);
    hide ReadNumber, Load, CarriedBytes, Flag, OrderOf;
  }

  /** A submessage is read as a sample exactly when it carries it; destination and time are those in force. */
  lemma ReadDataIsExact(s: Submessage, d: Data)
    ensures (exists skipped, unused :: CarriesData(s, d, skipped, unused)) <==>
      ReadData(s) == Ok(View(d, s.context.destination, s.context.hasDestination, s.context.timestamp,
                             s.context.hasTimestamp))
  {
    if skipped, unused :| CarriesData(s, d, skipped, unused) {
      CarriedIsRead(s, d, skipped, unused);
    }
    if ReadData(s).Ok? && ReadData(s).value.data == d {
      hide ReadNumber, Load, CarriedBytes, Flag, OrderOf;
      var skipped := PartsCarry(s);
      ReadNumberRange(s.content, 12, OrderOf(s.flags), false);
      FlagsOf(s.flags, d.header.order);
      var unused: nat :| unused < 8 && s.flags == EndianFlag(d.header.order) + 4 + 32 * unused;
      assert CarriesData(s, d, skipped, unused);
    }
  }

  /**
   A message is parsed as a sample exactly when it is well formed and its first DATA submessage carries that sample;
   destination and time are those that the submessages before it put in force.
   */
  lemma DataParseIsExact(message: seq<byte>, v: View)
    ensures ParseData(Memory(message)) == Ok(v) <==> exists subs, i ::
      IsNth(message, subs, DATA, 0, i) && InView(subs[i], v)
  {
    hide Find, ReadData, CarriesData, Tiling, HeaderContext, HeaderError, Earlier;
    var found := Find(Memory(message), DATA, 0);
    if found.Success? {
      ReadDataIsExact(found.value, v.data);
      FindIsExact(message, DATA, 0, found.value);
      if ParseData(Memory(message)) == Ok(v) {
        ReadShowsContext(found.value);
        var subs, i :| IsNth(message, subs, DATA, 0, i) && subs[i] == found.value;
        assert InView(subs[i], v);
      }
    }
    forall subs: seq<Submessage>, i: nat | IsNth(message, subs, DATA, 0, i) && InView(subs[i], v)
      ensures ParseData(Memory(message)) == Ok(v)
    {
      FindIsExact(message, DATA, 0, subs[i]);
      ReadDataIsExact(subs[i], v.data);
    }
  }

  /** The submessage carries the sample seen, in the context seen. */
  ghost predicate InView(s: Submessage, v: View)
  {
    && (exists skipped, unused :: CarriesData(s, v.data, skipped, unused))
    && v == View(v.data, s.context.destination, s.context.hasDestination, s.context.timestamp, s.context.hasTimestamp)
  }

  lemma ReadShowsContext(s: Submessage)
    requires ReadData(s).Ok?
    ensures var v := ReadData(s).value;
      v == View(v.data, s.context.destination, s.context.hasDestination, s.context.timestamp, s.context.hasTimestamp)
  {
    hide ReadNumber, Load, Flag, SupportedPayload;
  }

  // ---------------------------------------------------------------- ACKNACK

  /** Member `k` of the set is the bit of that place, most significant first, in the words at 20. */
  ghost predicate BitsCarried(content: seq<byte>, bits: seq<bool>, order: ByteOrder)
    requires 20 + 4 * WordCount(|bits|) <= |content|
  {
    forall k: nat :: k < |bits| ==> bits[k] == BitAt(content, 20, order, |bits|, k)
  }

  /** This submessage carries the acknowledgement; bits beyond the set are free. */
  ghost predicate CarriesAckNack(s: Submessage, a: AckNack)
  {
    var order, bits, b := a.header.order, a.readerState.bits, s.content;
    && s.flags == EndianFlag(order) + (if a.finalFlag then 2 else 0) && HeaderOf(s) == a.header
    && Representable(a.readerState.base, |bits|) && |b| == 24 + 4 * WordCount(|bits|)
    && At(b, 0, a.readerId) && At(b, 4, a.writerId) && At(b, 8, EncodeNumber(a.readerState.base, order))
    && At(b, 16, Encode(|bits|, 4, order)) && BitsCarried(b, bits, order)
    && At(b, 20 + 4 * WordCount(|bits|), EncodeCount(a.count, order))
  }

  lemma SmallFlags(flags: byte, order: ByteOrder, finalFlag: bool)
    ensures flags <= 3 && OrderOf(flags) == order && Flag(flags, 2) == finalFlag
       <==> flags == EndianFlag(order) + (if finalFlag then 2 else 0)
  {
    hide OrderOf, Flag;
    var a, b, c, d, e, f := FlagDigits(flags);
  }

  lemma CarriedAckNackIsRead(s: Submessage, a: AckNack)
    requires CarriesAckNack(s, a)
    ensures ReadAckNack(s) == Right(a)
  {
    hide At, EncodeNumber, EncodeCount, ReadNumber, ReadCount, Load, Encode, BitAt, OrderOf, Flag, WordCount;
    var order, bits, b := a.header.order, a.readerState.bits, s.content;
    SmallFlags(s.flags, order, a.finalFlag);
    SliceAt(b, 0, a.readerId);
    SliceAt(b, 4, a.writerId);
    NumberBack(b, 8, a.readerState.base, order, false);
    Pow256Values();
    LoadBack(b, 16, |bits|, 4, order);
    CountBack(b, 20 + 4 * WordCount(|bits|), a.count, order);
    assert ReadBits(b, 20, order, |bits|) == bits;
  }

  lemma ReadAckNackIsCarried(s: Submessage)
    requires ReadAckNack(s).Right?
    ensures CarriesAckNack(s, ReadAckNack(s).value)
  {
    hide At, EncodeNumber, EncodeCount, ReadNumber, ReadCount, Load, Encode, BitAt, OrderOf, Flag, WordCount;
    var a, b := ReadAckNack(s).value, s.content;
    var order, n := a.header.order, |a.readerState.bits|;
    SmallFlags(s.flags, order, a.finalFlag);
    SliceIsAt(b, 0, 4);
    SliceIsAt(b, 4, 8);
    NumberIs(b, 8, order, false);
    Reencode(b, 16, 4, order);
    CountIs(b, 20 + 4 * WordCount(n), order);
  }

  /**
   A message is parsed as an acknowledgement exactly when it is well formed and its first ACKNACK submessage carries
   it: the flags, the identifiers, every number and every bit.
   */
  lemma AckNackParseIsExact(message: seq<byte>, a: AckNack)
    ensures ParseAckNack(Memory(message)) == Right(a)
       <==> exists subs, i :: IsNth(message, subs, ACKNACK, 0, i) && CarriesAckNack(subs[i], a)
  {
    hide Find, ReadAckNack, CarriesAckNack, Tiling, HeaderContext, HeaderError, Earlier;
    var found := Find(Memory(message), ACKNACK, 0);
    if found.Success? {
      FindIsExact(message, ACKNACK, 0, found.value);
      if ParseAckNack(Memory(message)) == Right(a) {
        ReadAckNackIsCarried(found.value);
        var subs, i :| IsNth(message, subs, ACKNACK, 0, i) && subs[i] == found.value;
        assert CarriesAckNack(subs[i], a);
      }
    }
    forall subs: seq<Submessage>, i: nat | IsNth(message, subs, ACKNACK, 0, i) && CarriesAckNack(subs[i], a)
      ensures ParseAckNack(Memory(message)) == Right(a)
    {
      FindIsExact(message, ACKNACK, 0, subs[i]);
      CarriedAckNackIsRead(subs[i], a);
    }
  }
}
