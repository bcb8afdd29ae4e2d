/** The control messages of every reachable writer and reader survive the wire. */
module ControlOnWire {
  import opened SequenceSet
  import opened RtpsTypes
  import opened ReliabilityActions
  import opened Router
  import opened ReliabilityMessages
  import W = ReliableWriter
  import WR = WriterRuns
  import R = ReliableReader
  import RR = ReaderRuns

  /** Whatever a writer has done before, the heartbeat it fills in is built and parsed back unchanged. */
  lemma HeartbeatSurvives(config: W.Config, events: seq<WR.Event>, template: Heartbeat)
    requires SupportedVersion(template.header.version)
    ensures var h := W.HeartbeatOf(config, WR.RunOf(config, events).state, template);
            NumbersOk(h) && ParseHeartbeat(Memory(EncodeHeartbeat(h))) == Right(h)
  {
    hide WR.RunOf, ParseHeartbeat, EncodeHeartbeat;
    WR.HeartbeatIsBuildable(config, events, template);
    HeartbeatRoundTrip(W.HeartbeatOf(config, WR.RunOf(config, events).state, template));
  }

  /** The acknowledgement an action asks to send. */
  function AckNackOf(config: R.Config, header: Header, a: Action): (m: AckNack)
    requires a.SendAckNack?
  {
    AckNack(header, config.readerId, config.writerId, a.readerState, a.count, a.finalFlag)
  }

  lemma AnswersAreRepresentable(config: R.Config, state: R.State, h: Heartbeat, room: nat, a: Action)
    requires R.Sane(config, state.base, state.window)
    requires a in R.ApplyHeartbeat(config, state, h, room).actions && a.SendAckNack?
    ensures Representable(a.readerState.base, |a.readerState.bits|)
  {}

  /** Whatever a reader has received before, every acknowledgement it answers with is parsed back bit for bit. */
  lemma AnswerSurvives(config: R.Config, events: seq<RR.Event>, h: Heartbeat, room: nat, header: Header, a: Action)
    requires R.ValidWindow(config) && SupportedVersion(header.version)
    requires a in R.ApplyHeartbeat(config, RR.RunOf(config, events).state, h, room).actions && a.SendAckNack?
    ensures ParseAckNack(Memory(EncodeAckNack(AckNackOf(config, header, a)))) == Right(AckNackOf(config, header, a))
  {
    hide RR.RunOf, ParseAckNack, EncodeAckNack, R.ApplyHeartbeat, R.Sane;
    RR.EveryRunRefines(config, events);
    AnswersAreRepresentable(config, RR.RunOf(config, events).state, h, room, a);
    AckNackRoundTrip(AckNackOf(config, header, a));
  }
}
