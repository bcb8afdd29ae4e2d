/** The builder that writes a participant announcement into a caller's buffer. */
module SpdpBuilder {
  import opened Bytes
  import opened RtpsTypes
  import opened Router
  import opened ParameterList
  import D = DataMessage
  import opened Discovery
  import opened Spdp
  import opened SpdpLaws

  /** Which error building reports, if any. */
  function BuildProblem(a: Announcement, present: bool, capacity: nat): (e: Option<DiscoveryError>)
  {
    var p, d := a.participant, DataOf(a);
    if !present && capacity != 0 then Some(DiscoveryError.InvalidArgument)
    else if !Configured(p) then Some(InvalidConfiguration)
    else if !LocatorsOk(p) then Some(InvalidLocator)
    else if p.lease / NANOSECONDS > 0x7FFF_FFFF then Some(InvalidDuration)
    else
      var cause := D.BuildProblem(d.header, d.sequence, Memory(d.payload), present, capacity);
      if cause.Some? then Some(Rtps(cause.value)) else None
  }

  class SpdpMessageBuilder {
    const buffer: array?<byte>
    const capacity: nat
    var size: nat
    var error: Option<DiscoveryError>

    ghost predicate Valid()
    {
      buffer != null ==> capacity <= buffer.Length
    }

    constructor (buffer: array?<byte>, capacity: nat)
      requires buffer != null ==> capacity <= buffer.Length
      ensures Valid() && this.buffer == buffer && this.capacity == capacity && size == 0
      ensures error == if buffer == null && capacity != 0 then Some(DiscoveryError.InvalidArgument) else None
    {
      this.buffer, this.capacity, size := buffer, capacity, 0;
      error := if buffer == null && capacity != 0 then Some(DiscoveryError.InvalidArgument) else None;
    }

    method Build(a: Announcement) returns (ok: bool)
      requires Valid()
      modifies this, buffer
      ensures error == BuildProblem(a, buffer != null, capacity) && (ok <==> error.None?)
      ensures ok ==> buffer != null && size <= buffer.Length && buffer[..size] == D.EncodeData(DataOf(a))
      ensures !ok ==> size == 0
    {
      hide Parameters, EncodeList, EncodeSentinel, ListHeader, D.EncodeData, D.BuildProblem, WellFormed, Configured,
           LocatorsOk;
      size, error := 0, None;
      var p := a.participant;
      if buffer == null && capacity != 0 {
        error := Some(DiscoveryError.InvalidArgument);
        return false;
      }
      if !Configured(p) {
        error := Some(InvalidConfiguration);
        return false;
      }
      if !LocatorsOk(p) {
        error := Some(InvalidLocator);
        return false;
      }
      if p.lease / NANOSECONDS > 0x7FFF_FFFF {
        error := Some(InvalidDuration);
        return false;
      }
      var complete, payload := WritePayload(p, a.parameterOrder);
      if !complete {
        // The parameter buffer would be too small; for a valid participant this cannot happen.
        assert false;
      }
      var header := Header(p.version, p.vendor, p.prefix, a.order);
      var builder := new D.DataMessageBuilder(buffer, capacity);
      ok := builder.Build(header, ENTITY_UNKNOWN, SPDP_WRITER, a.sequence, Memory(payload));
      if !ok {
        error := Some(Rtps(builder.error.value));
        return;
      }
      size := builder.size;
    }
  }

  /** Write the parameters into the fixed buffer; for a valid participant none of them can fail to fit. */
  method WritePayload(p: Participant, order: ByteOrder) returns (complete: bool, payload: seq<byte>)
    requires Configured(p) && LocatorsOk(p)
    ensures complete && payload == EncodePayload(Parameters(p, order), order)
  {
    NameOk(p);
    hide Parameters, EncodePayload, EncodeList, EncodeSentinel, ListHeader, WellFormed, Configured, LocatorsOk;
    PayloadFits(p, order);
    ParametersWellFormed(p, order);
    var ps := Parameters(p, order);
    PayloadParts(ps, order);
    var writer := new ParameterWriter(PAYLOAD_CAPACITY, order);
    complete := writer.AppendAll(ps);
    assert complete;
    complete := writer.Finish();
    payload := writer.buffer[..writer.size];
  }

  lemma NameOk(p: Participant)
    requires Configured(p)
    ensures |p.name| <= MAXIMUM_NAME
  {}

  /** Whatever is built is parsed back by a receiver in the same domain, with the lease at most one nanosecond short. */
  lemma BuiltIsParsed(a: Announcement, present: bool, capacity: nat)
    requires BuildProblem(a, present, capacity).None?
    ensures |D.EncodeData(DataOf(a))| <= capacity
    ensures Parse(Memory(D.EncodeData(DataOf(a))), a.participant.domain) ==
        Done(a.(participant := Announced(a.participant)))
  {
    hide Parameters, EncodePayload, LocatorsOk, Configured, D.EncodeData, Parse, Announced;
    D.BuilderAcceptsBuildable(DataOf(a), present, capacity);
    AnnouncementRoundTrip(a);
  }
}
