/**
 A reliable writer and a reliable reader over a network that may lose, duplicate,
 delay and reorder messages: the network only remembers what was ever sent, and a
 step may deliver any of it, any number of times, or never.
 */
module ReliablePair {
  import opened Bytes
  import opened SerialCount
  import opened RtpsTypes
  import opened ReliabilityActions
  import W = ReliableWriter
  import WR = WriterRuns
  import R = ReliableReader
  import RR = ReaderRuns

  datatype Config = Config(writer: W.Config, reader: R.Config)

  predicate Matched(config: Config)
  {
    && config.writer.readerId == config.reader.readerId
    && config.writer.writerId == config.reader.writerId
    && R.ValidWindow(config.reader)
  }

  datatype Message = Data(sequence: nat, payload: seq<byte>) | Heart(heartbeat: Heartbeat) | Ack(acknack: AckNack)

  datatype Sample = Sample(sequence: nat, payload: seq<byte>)

  datatype System = System(
    writer: W.State, reader: R.State, network: set<Message>,
    written: map<nat, seq<byte>>,  // what the application wrote
    accepted: seq<Sample>,         // what the reader reported received
    delivered: set<nat>,           // what the writer reported delivered
    heartbeats: nat, answers: nat) // how many control messages each side sent

  datatype Step =
    | Write(payload: W.Payload, sequence: nat, now: nat, room: nat)
    | Announce(template: Heartbeat)
    | Timer(now: nat, room: nat)
    | DeliverData(message: Message, room: nat)
    | DeliverHeartbeat(message: Message, header: Header, room: nat)
    | DeliverAckNack(message: Message, now: nat, room: nat)

  function Start(config: Config): (sys: System)
  {
    System(W.INITIAL, R.Initial(config.reader), {}, map[], [], {}, 0, 0)
  }

  /** The DATA messages a list of actions sends, with the payloads their pointers address. */
  function Transmissions(history: seq<W.Record>, actions: seq<Action>): (m: set<Message>)
  {
    set a | a in actions && (a.SendData? || a.RetransmitData?) && a.slot < |history|
      :: Data(a.sequence, history[a.slot].payload)
  }

  function Deliveries(actions: seq<Action>): (d: set<nat>)
  {
    set a | a in actions && a.SampleDelivered? :: a.sequence
  }

  /** The ACKNACK messages a list of actions sends. */
  function Answers(config: R.Config, header: Header, actions: seq<Action>): (m: set<Message>)
  {
    set a | a in actions && a.SendAckNack?
      :: Ack(AckNack(header, config.readerId, config.writerId, a.readerState, a.count, a.finalFlag))
  }

  function WriterMoved(sys: System, o: W.Outcome): (s: System)
  {
    sys.(writer := o.state, network := sys.network + Transmissions(o.state.history, o.actions),
         delivered := sys.delivered + Deliveries(o.actions))
  }

  function Apply(config: Config, sys: System, step: Step): (s: System)
    requires |sys.reader.window| == config.reader.windowBits
    ensures |s.reader.window| == config.reader.windowBits
  {
    match step
    case Write(payload, sequence, now, room) =>
      var o := W.ApplyWrite(config.writer, sys.writer, payload, sequence, now, room);
      WriterMoved(sys, o).(
        written := if o.error == NoError then sys.written[sequence := payload.Content()] else sys.written)
    case Announce(template) =>
      var o := W.ApplyHeartbeat(config.writer, sys.writer);
      if o.error != NoError then sys
      else sys.(writer := o.state, heartbeats := sys.heartbeats + 1,
                network := sys.network + {Heart(W.HeartbeatOf(config.writer, sys.writer, template))})
    case Timer(now, room) =>
      WriterMoved(sys, W.ApplyTimer(config.writer, sys.writer, now, room))
    case DeliverData(message, room) =>
      if message !in sys.network || !message.Data? then sys
      else
        var o := R.ApplyData(config.reader, sys.reader, message.sequence, room);
        sys.(reader := o.state,
             accepted := if o.error == NoError then sys.accepted + [Sample(message.sequence, message.payload)]
                         else sys.accepted)
    case DeliverHeartbeat(message, header, room) =>
      if message !in sys.network || !message.Heart? then sys
      else
        var o := R.ApplyHeartbeat(config.reader, sys.reader, message.heartbeat, room);
        sys.(reader := o.state, answers := sys.answers + |o.actions|,
             network := sys.network + Answers(config.reader, header, o.actions))
    case DeliverAckNack(message, now, room) =>
      if message !in sys.network || !message.Ack? then sys
      else WriterMoved(sys, W.ApplyAckNack(config.writer, sys.writer, message.acknack, now, room))
  }

  /** The system after any list of steps. */
  function Reached(config: Config, steps: seq<Step>): (s: System)
    ensures |s.reader.window| == config.reader.windowBits
  {
    if steps == [] then Start(config)
    else Apply(config, Reached(config, steps[..|steps| - 1]), steps[|steps| - 1])
  }

  // ---------------------------------------------------------------- invariant

  function Numbers(accepted: seq<Sample>): (n: set<nat>)
  {
    set sample | sample in accepted :: sample.sequence
  }

  ghost predicate WriterOk(config: Config, sys: System)
  {
    && WR.WellFormed(config.writer, sys.writer)
    && (forall r :: r in sys.writer.history ==> r.sequence in sys.written && sys.written[r.sequence] == r.payload)
    && (forall s :: s in sys.written ==> 0 < s <= sys.writer.last)
  }

  ghost predicate ReaderOk(config: Config, sys: System)
  {
    && |sys.reader.window| == config.reader.windowBits
    && RR.Refines(config.reader, sys.reader, Numbers(sys.accepted))
    && (forall i, j :: 0 <= i < j < |sys.accepted| ==> sys.accepted[i].sequence != sys.accepted[j].sequence)
    && (forall a :: a in sys.accepted ==> a.sequence in sys.written && sys.written[a.sequence] == a.payload)
  }

  /** No message lies: data is what was written, and acknowledged numbers were received. */
  ghost predicate Honest(config: Config, sys: System, m: Message)
  {
    match m
    case Data(s, payload) => s in sys.written && sys.written[s] == payload
    case Heart(h) => CountUpTo(h.count, sys.heartbeats)
    case Ack(a) =>
      && CountUpTo(a.count, sys.answers)
      && forall s :: config.reader.initial <= s && RR.Acknowledges(a.readerState, s) ==> s in Numbers(sys.accepted)
  }

  ghost predicate NetworkOk(config: Config, sys: System)
  {
    forall m :: m in sys.network ==> Honest(config, sys, m)
  }

  ghost predicate DeliveredOk(config: Config, sys: System)
  {
    forall s :: s in sys.delivered && config.reader.initial <= s ==> s in Numbers(sys.accepted)
  }

  /** The count is that of one of the first `n` messages of its sender. */
  ghost predicate CountUpTo(count: i32, n: nat)
  {
    exists k: nat :: 1 <= k <= n && count == SerialCount.After(0, k)
  }

  ghost predicate CountsOk(sys: System)
  {
    && sys.writer.heartbeatCount == SerialCount.After(0, sys.heartbeats)
    && sys.reader.ackNackCount == SerialCount.After(0, sys.answers)
    && (sys.writer.ackNackSeen ==> CountUpTo(sys.writer.lastAckNack, sys.answers))
    && (sys.reader.heartbeatSeen ==> CountUpTo(sys.reader.lastHeartbeat, sys.heartbeats))
  }

  ghost predicate Inv(config: Config, sys: System)
  {
    WriterOk(config, sys) && ReaderOk(config, sys) && NetworkOk(config, sys) && DeliveredOk(config, sys) &&
        CountsOk(sys)
  }

  // ---------------------------------------------------------------- writer steps

  /** What settling a batch of decisions sends and reports. */
  lemma {:induction false} DeliveredIsDecided(h: seq<W.Record>, d: seq<W.Decision>, n: nat, a: Action)
    requires n <= |h| == |d| && a in W.Emitted(h, d, n) && a.SampleDelivered?
    ensures exists i :: 0 <= i < n && d[i] == W.Deliver && h[i].sequence == a.sequence
  {
    hide W.Emitted, W.Survivors;
    W.CompactionStart(h, d);
    WR.EmittedStep(h, d, n - 1, a);
    if a in W.Emitted(h, d, n - 1) {
      DeliveredIsDecided(h, d, n - 1, a);
    }
  }

  lemma TransmissionOf(history: seq<W.Record>, actions: seq<Action>, m: Message) returns (a: Action)
    requires m in Transmissions(history, actions)
    ensures a in actions && (a.SendData? || a.RetransmitData?) && a.slot < |history|
    ensures m == Data(a.sequence, history[a.slot].payload)
  {
    a :| a in actions && (a.SendData? || a.RetransmitData?) && a.slot < |history| &&
         m == Data(a.sequence, history[a.slot].payload);
  }

  lemma PointerSource(h: seq<W.Record>, d: seq<W.Decision>, a: Action) returns (i: nat)
    requires |h| == |d| && a in W.Emitted(h, d, |d|) && a.RetransmitData?
    ensures i < |h| && a.slot < |W.Survivors(h, d, |d|)|
    ensures h[i].sequence == a.sequence && h[i].payload == W.Survivors(h, d, |d|)[a.slot].payload
  {
    hide W.Emitted, W.Survivors;
    WR.PointersStayGood(h, d, |d|, |d|, a);
    var held := W.Survivors(h, d, |d|)[a.slot];
    i :| 0 <= i < |d| && d[i] == W.Repair && held == h[i].(attempts := h[i].attempts + 1);
  }

  lemma SettleTransmits(h: seq<W.Record>, d: seq<W.Decision>, m: Message) returns (r: W.Record)
    requires |h| == |d|
    requires m in Transmissions(W.Survivors(h, d, |d|), W.Emitted(h, d, |d|))
    ensures r in h && m == Data(r.sequence, r.payload)
  {
    hide W.Emitted, W.Survivors, Transmissions;
    var a := TransmissionOf(W.Survivors(h, d, |d|), W.Emitted(h, d, |d|), m);
    WR.ResentIsDecided(h, d, |d|, a);
    var i := PointerSource(h, d, a);
    r := h[i];
  }

  lemma SettleKeepsWriter(config: Config, sys: System, d: seq<W.Decision>, w: W.State)
    requires WriterOk(config, sys) && |d| == |sys.writer.history|
    requires w.history == W.Survivors(sys.writer.history, d, |d|) && w.last == sys.writer.last
    ensures WriterOk(config, sys.(writer := w))
  {
    hide W.Emitted, W.Survivors;
    var h := sys.writer.history;
    WR.SurvivorsAscend(h, d, |d|);
    forall r | r in w.history
      ensures r.sequence in sys.written && sys.written[r.sequence] == r.payload
    {
      WR.SurvivorsAreRetained(h, d, |d|, r);
      var i :| 0 <= i < |d| && r in W.Retained(h[i], d[i]);
      assert h[i] in h;
    }
  }

  lemma SettleKeepsInv(config: Config, sys: System, d: seq<W.Decision>, w: W.State)
    requires Inv(config, sys) && |d| == |sys.writer.history| && W.Regressed !in d
    requires w.history == W.Survivors(sys.writer.history, d, |d|) && w.last == sys.writer.last
    requires w.heartbeatCount == sys.writer.heartbeatCount
    requires w.ackNackSeen ==> CountUpTo(w.lastAckNack, sys.answers)
    requires forall i :: 0 <= i < |d| && d[i] == W.Deliver && config.reader.initial <= sys.writer.history[i].sequence
                         ==> sys.writer.history[i].sequence in Numbers(sys.accepted)
    ensures Inv(config, WriterMoved(sys, W.Outcome(w, NoError, W.Emitted(sys.writer.history, d, |d|))))
  {
    hide W.Emitted, W.Survivors, RR.Refines, WR.WellFormed;
    var h, actions := sys.writer.history, W.Emitted(sys.writer.history, d, |d|);
    var sys' := WriterMoved(sys, W.Outcome(w, NoError, actions));
    SettleKeepsWriter(config, sys, d, w);
    forall m | m in sys'.network ensures Honest(config, sys', m) {
      if m in sys.network {
        assert Honest(config, sys, m);
      } else {
        var r := SettleTransmits(h, d, m);
      }
    }
    forall s | s in sys'.delivered && config.reader.initial <= s ensures s in Numbers(sys.accepted) {
      if s !in sys.delivered {
        var a :| a in actions && a.SampleDelivered? && a.sequence == s;
        DeliveredIsDecided(h, d, |d|, a);
      }
    }
  }

  lemma NothingSentKeeps(config: Config, sys: System, o: W.Outcome)
    requires Inv(config, sys) && o.state == sys.writer && o.actions == []
    ensures Inv(config, WriterMoved(sys, o))
  {
    assert WriterMoved(sys, o) == sys;
  }

  lemma WriteKeepsInv(config: Config, sys: System, step: Step)
    requires Inv(config, sys) && step.Write?
    ensures Inv(config, Apply(config, sys, step))
  {
    hide RR.Refines;
    var o := W.ApplyWrite(config.writer, sys.writer, step.payload, step.sequence, step.now, step.room);
    var sys' := Apply(config, sys, step);
    if o.error != NoError {
      NothingSentKeeps(config, sys, o);
    } else {
      var sent := Data(step.sequence, step.payload.Content());
      assert o.state.history[|sys.writer.history|].payload == step.payload.Content();
      assert sys'.network == sys.network + {sent};
      assert sys'.delivered == sys.delivered;
      assert step.sequence !in sys.written;
      forall m | m in sys'.network ensures Honest(config, sys', m) {
        if m != sent { assert Honest(config, sys, m); }
      }
    }
  }

  lemma AckDecisionsAgree(config: Config, sys: System, a: AckNack, now: nat, i: nat)
    requires NetworkOk(config, sys) && Ack(a) in sys.network
    requires i < |sys.writer.history|
    requires W.AckDecisions(config.writer, sys.writer.history, a.readerState, now)[i] == W.Deliver
    requires config.reader.initial <= sys.writer.history[i].sequence
    ensures sys.writer.history[i].sequence in Numbers(sys.accepted)
  {
    assert Honest(config, sys, Ack(a));
    assert RR.Acknowledges(a.readerState, sys.writer.history[i].sequence);
  }

  lemma AckNackKeepsInv(config: Config, sys: System, step: Step)
    requires Inv(config, sys) && step.DeliverAckNack?
    ensures Inv(config, Apply(config, sys, step))
  {
    hide W.Emitted, W.Survivors, RR.Refines, WR.WellFormed;
    if step.message in sys.network && step.message.Ack? {
      var a := step.message.acknack;
      var o := W.ApplyAckNack(config.writer, sys.writer, a, step.now, step.room);
      if o.error != NoError {
        NothingSentKeeps(config, sys, o);
      } else {
        var d := W.AckDecisions(config.writer, sys.writer.history, a.readerState, step.now);
        assert Honest(config, sys, step.message);
        forall i | 0 <= i < |d| && d[i] == W.Deliver && config.reader.initial <= sys.writer.history[i].sequence
          ensures sys.writer.history[i].sequence in Numbers(sys.accepted)
        {
          AckDecisionsAgree(config, sys, a, step.now, i);
        }
        SettleKeepsInv(config, sys, d, o.state);
      }
    }
  }

  lemma TimerKeepsInv(config: Config, sys: System, step: Step)
    requires Inv(config, sys) && step.Timer?
    ensures Inv(config, Apply(config, sys, step))
  {
    hide W.Emitted, W.Survivors, RR.Refines, WR.WellFormed;
    var o := W.ApplyTimer(config.writer, sys.writer, step.now, step.room);
    if o.error != NoError {
      NothingSentKeeps(config, sys, o);
    } else {
      SettleKeepsInv(config, sys, W.TimerDecisions(config.writer, sys.writer.history, step.now), o.state);
    }
  }

  lemma CountGrows(count: i32, m: nat, n: nat)
    requires CountUpTo(count, m) && m <= n
    ensures CountUpTo(count, n)
  {
    var k: nat :| 1 <= k <= m && count == SerialCount.After(0, k);
    assert 1 <= k <= n && count == SerialCount.After(0, k);
  }

  lemma CountNow(n: nat)
    requires n >= 1
    ensures CountUpTo(SerialCount.After(0, n), n)
  {}

  lemma AnnounceKeepsInv(config: Config, sys: System, step: Step)
    requires Inv(config, sys) && step.Announce?
    ensures Inv(config, Apply(config, sys, step))
  {
    hide RR.Refines;
    var sys' := Apply(config, sys, step);
    if sys' != sys {
      var sent := Heart(W.HeartbeatOf(config.writer, sys.writer, step.template));
      CountNow(sys'.heartbeats);
      forall m | m in sys'.network ensures Honest(config, sys', m) {
        if m != sent {
          assert Honest(config, sys, m);
          if m.Heart? { CountGrows(m.heartbeat.count, sys.heartbeats, sys'.heartbeats); }
        }
      }
      if sys.reader.heartbeatSeen { CountGrows(sys.reader.lastHeartbeat, sys.heartbeats, sys'.heartbeats); }
    }
  }

  // ---------------------------------------------------------------- reader steps

  lemma DataKeepsInv(config: Config, sys: System, step: Step)
    requires Inv(config, sys) && step.DeliverData?
    ensures Inv(config, Apply(config, sys, step))
  {
    hide RR.Refines, WR.WellFormed, R.ApplyData, Numbers, Honest;
    if step.message in sys.network && step.message.Data? {
      var s := step.message.sequence;
      var o := R.ApplyData(config.reader, sys.reader, s, step.room);
      var sys' := Apply(config, sys, step);
      assert Honest(config, sys, step.message);
      RR.StepRefines(config.reader, sys.reader, Numbers(sys.accepted), RR.Data(s, step.room));
      DataReports(config.reader, sys.reader, s, step.room);
      if o.error == NoError {
        assert s in [s] && s !in Numbers(sys.accepted);
        NumbersGrow(sys.accepted, Sample(s, step.message.payload));
        HonestPayload(config, sys, step.message);
      } else {
        assert Numbers(sys.accepted) == Numbers(sys.accepted) + RR.Elements([]);
      }
      forall m | m in sys'.network ensures Honest(config, sys', m) {
        HonestyStays(config, sys, sys', m);
      }
    }
  }

  lemma NumbersGrow(accepted: seq<Sample>, sample: Sample)
    ensures Numbers(accepted + [sample]) == Numbers(accepted) + RR.Elements([sample.sequence])
    ensures Numbers(accepted) <= Numbers(accepted + [sample])
    ensures sample.sequence !in Numbers(accepted) ==> forall i :: 0 <= i < |accepted| ==>
        accepted[i].sequence != sample.sequence
  {
    var all := accepted + [sample];
    assert sample in all && forall x :: x in accepted ==> x in all;
    forall i | 0 <= i < |accepted| ensures accepted[i].sequence in Numbers(accepted) {
      assert accepted[i] in accepted;
    }
  }

  lemma HonestPayload(config: Config, sys: System, m: Message)
    requires Honest(config, sys, m) && m.Data?
    ensures m.sequence in sys.written && sys.written[m.sequence] == m.payload
  {}

  /** Accepting more keeps every message honest. */
  lemma HonestyStays(config: Config, sys: System, sys': System, m: Message)
    requires Honest(config, sys, m) && sys'.written == sys.written && Numbers(sys.accepted) <= Numbers(sys'.accepted)
    requires sys'.heartbeats == sys.heartbeats && sys'.answers == sys.answers
    ensures Honest(config, sys', m)
  {
    hide Numbers;
  }

  lemma DataReports(config: R.Config, state: R.State, sequence: nat, room: nat)
    requires |state.window| == config.windowBits
    ensures var o := R.ApplyData(config, state, sequence, room);
            && RR.Reported(o.actions) == (if o.error == NoError then [sequence] else [])
            && o.state.ackNackCount == state.ackNackCount && o.state.lastHeartbeat == state.lastHeartbeat
            && o.state.heartbeatSeen == state.heartbeatSeen
  {
    var o := R.ApplyData(config, state, sequence, room);
    if o.error == NoError {
      assert o.actions[1..] == [];
    }
  }

  lemma HeartbeatKeepsInv(config: Config, sys: System, step: Step)
    requires Inv(config, sys) && step.DeliverHeartbeat?
    ensures Inv(config, Apply(config, sys, step))
  {
    hide RR.Refines, WR.WellFormed;
    if step.message in sys.network && step.message.Heart? {
      var h := step.message.heartbeat;
      var o := R.ApplyHeartbeat(config.reader, sys.reader, h, step.room);
      var sys' := Apply(config, sys, step);
      assert Honest(config, sys, step.message);
      RR.StepRefines(config.reader, sys.reader, Numbers(sys.accepted), RR.HeartbeatIn(h, step.room));
      RR.HeartbeatOnlyAnswers(config.reader, sys.reader, h, step.room);
      assert Numbers(sys.accepted) == Numbers(sys.accepted) + RR.Elements([]);
      if sys.writer.ackNackSeen { CountGrows(sys.writer.lastAckNack, sys.answers, sys'.answers); }
      HeartbeatKeepsHonesty(config, sys, step);
    }
  }

  lemma HeartbeatKeepsHonesty(config: Config, sys: System, step: Step)
    requires Inv(config, sys) && step.DeliverHeartbeat? && step.message in sys.network && step.message.Heart?
    ensures var sys' := Apply(config, sys, step); forall m :: m in sys'.network ==> Honest(config, sys', m)
  {
    hide RR.Refines, WR.WellFormed;
    var sys' := Apply(config, sys, step);
    forall m | m in sys'.network ensures Honest(config, sys', m) {
      if m in sys.network {
        assert Honest(config, sys, m);
        if m.Ack? { CountGrows(m.acknack.count, sys.answers, sys'.answers); }
      } else {
        AnswerIsHonest(config, sys, step, m);
      }
    }
  }

  lemma AnswerIsHonest(config: Config, sys: System, step: Step, m: Message)
    requires Inv(config, sys) && step.DeliverHeartbeat? && step.message in sys.network && step.message.Heart?
    requires m in Answers(config.reader, step.header,
                          R.ApplyHeartbeat(config.reader, sys.reader, step.message.heartbeat, step.room).actions)
    ensures Honest(config, Apply(config, sys, step), m)
  {
    var o := R.ApplyHeartbeat(config.reader, sys.reader, step.message.heartbeat, step.room);
    var a :| a in o.actions && a.SendAckNack? && m.acknack.readerState == a.readerState && m.acknack.count == a.count;
    assert a.count == SerialCount.After(0, sys.answers + 1);
    CountNow(sys.answers + 1);
    forall s | config.reader.initial <= s && RR.Acknowledges(a.readerState, s)
      ensures s in Numbers(sys.accepted)
    {
      RR.AnswersAreTruthful(config.reader, sys.reader, Numbers(sys.accepted), step.message.heartbeat, step.room, s);
    }
  }

  // ---------------------------------------------------------------- runs

  lemma StartInv(config: Config)
    requires Matched(config)
    ensures Inv(config, Start(config))
  {
    RR.InitialRefines(config.reader);
  }

  lemma StepInv(config: Config, sys: System, step: Step)
    requires Inv(config, sys)
    ensures Inv(config, Apply(config, sys, step))
  {
    hide Inv, Apply;
    match step
    case Write(_, _, _, _) => WriteKeepsInv(config, sys, step);
    case Announce(_) => AnnounceKeepsInv(config, sys, step);
    case Timer(_, _) => TimerKeepsInv(config, sys, step);
    case DeliverData(_, _) => DataKeepsInv(config, sys, step);
    case DeliverHeartbeat(_, _, _) => HeartbeatKeepsInv(config, sys, step);
    case DeliverAckNack(_, _, _) => AckNackKeepsInv(config, sys, step);
  }

  lemma {:induction false} EveryRunInv(config: Config, steps: seq<Step>)
    requires Matched(config)
    ensures Inv(config, Reached(config, steps))
  {
    hide Inv, Apply, Start;
    if steps == [] {
      StartInv(config);
    } else {
      EveryRunInv(config, steps[..|steps| - 1]);
      StepInv(config, Reached(config, steps[..|steps| - 1]), steps[|steps| - 1]);
    }
  }

  /**
   Safety of the pair over every run, whatever the network does: no sequence number is
   accepted twice, an accepted sample is one that was written, and the writer reports
   delivery only of numbers the reader has already accepted (from its initial number on).
   */
  lemma PairIsSafe(config: Config, steps: seq<Step>)
    requires Matched(config)
    ensures var sys := Reached(config, steps);
            && (forall i, j :: 0 <= i < j < |sys.accepted| ==> sys.accepted[i].sequence != sys.accepted[j].sequence)
            && (forall a :: a in sys.accepted ==> a.sequence in sys.written && sys.written[a.sequence] == a.payload)
            && (forall s :: s in sys.delivered && config.reader.initial <= s ==>
                  exists a :: a in sys.accepted && a.sequence == s)
  {
    hide Reached;
    EveryRunInv(config, steps);
    var sys := Reached(config, steps);
    forall s | s in sys.delivered && config.reader.initial <= s
      ensures exists a :: a in sys.accepted && a.sequence == s
    {
      assert s in Numbers(sys.accepted);
    }
  }
}
