/** The builder that writes an endpoint announcement into a caller's buffer. */
module SedpBuilder {
  import opened Bytes
  import opened RtpsTypes
  import opened Router
  import opened ParameterList
  import D = DataMessage
  import opened Discovery
  import opened Sedp
  import opened SedpLaws

  /** Which error building reports, if any. A blocking time beyond 2^31 - 1 seconds counts as an overflow. */
  function BuildProblem(a: Announcement, present: bool, capacity: nat): (e: Option<DiscoveryError>)
  {
    var d := DataOf(a);
    if !present && capacity != 0 then Some(DiscoveryError.InvalidArgument)
    else if !Configured(a.endpoint, a.readerId) then Some(InvalidConfiguration)
    else if !LocatorsOk(a.endpoint) then Some(InvalidLocator)
    else if a.endpoint.blocking / NANOSECONDS > 0x7FFF_FFFF then Some(DiscoveryError.BufferOverflow)
    else
      var cause := D.BuildProblem(d.header, d.sequence, Memory(d.payload), present, capacity);
      if cause.Some? then Some(Rtps(cause.value)) else None
  }

  class SedpMessageBuilder {
    const buffer: array?<byte>
    const capacity: nat
    var size: nat
    var error: Option<DiscoveryError>

    ghost predicate Valid()
    {
      buffer != null ==> capacity <= buffer.Length
    }

    constructor (buffer: array?<byte>, capacity: nat)
      requires buffer != null ==> capacity <= buffer.Length
      ensures Valid() && this.buffer == buffer && this.capacity == capacity && size == 0
      ensures error == if buffer == null && capacity != 0 then Some(DiscoveryError.InvalidArgument) else None
    {
      this.buffer, this.capacity, size := buffer, capacity, 0;
      error := if buffer == null && capacity != 0 then Some(DiscoveryError.InvalidArgument) else None;
    }

    method Build(a: Announcement) returns (ok: bool)
      requires Valid()
      modifies this, buffer
      ensures error == BuildProblem(a, buffer != null, capacity) && (ok <==> error.None?)
      ensures ok ==> buffer != null && size <= buffer.Length && buffer[..size] == D.EncodeData(DataOf(a))
      ensures !ok ==> size == 0
    {
      hide Parameters, EncodeList, EncodeSentinel, ListHeader, D.EncodeData, D.BuildProblem, WellFormed, Configured,
           LocatorsOk;
      size, error := 0, None;
      var e := a.endpoint;
      if buffer == null && capacity != 0 {
        error := Some(DiscoveryError.InvalidArgument);
        return false;
      }
      if !Configured(e, a.readerId) {
        error := Some(InvalidConfiguration);
        return false;
      }
      if !LocatorsOk(e) {
        error := Some(InvalidLocator);
        return false;
      }
      var complete, payload := WritePayload(e, a.readerId, a.parameterOrder);
      if !complete {
        error := Some(DiscoveryError.BufferOverflow);
        return false;
      }
      var header := Header(e.version, e.vendor, e.prefix, a.order);
      var builder := new D.DataMessageBuilder(buffer, capacity);
      ok := builder.Build(header, a.readerId, AnnouncingWriter(e.kind), a.sequence, Memory(payload));
      if !ok {
        error := Some(Rtps(builder.error.value));
        return;
      }
      size := builder.size;
    }
  }

  /**
   Write the parameters into the fixed buffer. With valid names and locators none of them can fail to fit:
   only a blocking time that is too long stops the writing.
   */
  method WritePayload(e: EndpointData, readerId: EntityId, order: ByteOrder)
    returns (complete: bool, payload: seq<byte>)
    requires Configured(e, readerId) && LocatorsOk(e)
    ensures complete <==> e.blocking / NANOSECONDS <= 0x7FFF_FFFF
    ensures complete ==> payload == EncodePayload(Parameters(e, order), order)
  {
    hide Parameters, EncodePayload, EncodeList, EncodeSentinel, ListHeader, WellFormed, LocatorsOk, ValidName;
    PayloadFits(e, order);
    ParametersWellFormed(e, order);
    if e.blocking / NANOSECONDS > 0x7FFF_FFFF {
      return false, [];
    }
    var ps := Parameters(e, order);
    PayloadParts(ps, order);
    var writer := new ParameterWriter(PAYLOAD_CAPACITY, order);
    var ok := writer.AppendAll(ps);
    assert ok;
    ok := writer.Finish();
    assert ok;
    payload := writer.buffer[..writer.size];
    return true, payload;
  }

  /**
   Whatever is built is parsed back by a receiver that expects its participant, the blocking time at most 1 ns short.
   */
  lemma BuiltIsParsed(a: Announcement, present: bool, capacity: nat)
    requires BuildProblem(a, present, capacity).None?
    ensures |D.EncodeData(DataOf(a))| <= capacity
    ensures Parse(Memory(D.EncodeData(DataOf(a))), a.endpoint.prefix)
         == Done(EndpointView(Announced(a.endpoint), a.sequence, a.order, a.parameterOrder))
  {
    hide Parameters, EncodePayload, LocatorsOk, Configured, D.EncodeData, Parse, Announced;
    D.BuilderAcceptsBuildable(DataOf(a), present, capacity);
    AnnouncementRoundTrip(a);
  }
}
