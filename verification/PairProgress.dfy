/**
 Conditional progress of the reliable pair: when every gap is still repairable, one
 lossless round of heartbeat, acknack and repairs fills the reader, in whatever
 order the repairs arrive, and a second round empties the writer's history.
 */
module PairProgress {
  import opened Bytes
  import opened SerialCount
  import opened SequenceSet
  import opened RtpsTypes
  import opened ReliabilityActions
  import opened ReliablePair
  import W = ReliableWriter
  import WR = WriterRuns
  import R = ReliableReader
  import RR = ReaderRuns

  /** The history still holds `s`, inside its attempt limit and its time window. */
  ghost predicate Held(config: W.Config, history: seq<W.Record>, s: nat, now: nat)
  {
    exists i :: 0 <= i < |history| && history[i].sequence == s && history[i].attempts < config.maxRepairAttempts &&
                history[i].firstSend <= now < history[i].firstSend + config.repairWindow
  }

  /** Every number the reader lacks, up to the writer's last, can still be repaired. */
  ghost predicate Repairable(config: Config, sys: System, now: nat)
  {
    forall s :: sys.reader.base <= s <= sys.writer.last && !RR.Has(sys.reader, s) ==>
                  Held(config.writer, sys.writer.history, s, now)
  }

  /** The gap fits the window and the buffers have room. */
  ghost predicate InReach(config: Config, sys: System, room: nat)
  {
    && config.writer.repairWindow != 0 && ValidStateSequence(config.reader.initial)
    && sys.reader.base <= sys.writer.last + 1 <= sys.reader.base + config.reader.windowBits
    && room >= 1 && room >= |sys.writer.history|
  }

  /** Everything is in reach, and each side would take the other's next count as newer than the last one it saw. */
  ghost predicate Ready(config: Config, sys: System, room: nat)
  {
    && InReach(config, sys, room)
    && (sys.reader.heartbeatSeen ==> IsNewer(Next(sys.writer.heartbeatCount), sys.reader.lastHeartbeat))
    && (sys.writer.ackNackSeen ==> IsNewer(Next(sys.reader.ackNackCount), sys.writer.lastAckNack))
  }

  /** The reader answers this heartbeat: it is not final, or something is left to ask for. */
  ghost predicate Answerable(sys: System, template: Heartbeat)
  {
    !template.finalFlag || sys.reader.base <= sys.writer.last
  }

  /** Both sides have seen the other's latest count. */
  ghost predicate CountsInStep(sys: System)
  {
    && sys.reader.heartbeatSeen && sys.reader.lastHeartbeat == sys.writer.heartbeatCount
    && sys.writer.ackNackSeen && sys.writer.lastAckNack == sys.reader.ackNackCount
  }

  // ---------------------------------------------------------------- one exchange of control messages

  function HeartbeatFor(config: Config, sys: System, template: Heartbeat): (m: Message)
  {
    Heart(W.HeartbeatOf(config.writer, sys.writer, template))
  }

  /** The numbers the reader lacks, as far as the window reaches. */
  function Lacking(sys: System): (n: NumberSet)
  {
    NumberSet(sys.reader.base, R.Missing(sys.reader.window, R.Covered(sys.reader, sys.writer.last)))
  }

  /** The answer a reader gives to a heartbeat of this writer. */
  function AnswerFor(config: Config, sys: System, header: Header): (m: Message)
  {
    Ack(AckNack(header, config.reader.readerId, config.reader.writerId, Lacking(sys),
                Next(sys.reader.ackNackCount), sys.writer.last < sys.reader.base))
  }

  /** Heartbeat sent and received, answer sent. */
  function Asked(config: Config, sys: System, template: Heartbeat, header: Header, room: nat): (s: System)
    requires |sys.reader.window| == config.reader.windowBits
    ensures |s.reader.window| == config.reader.windowBits
  {
    Apply(config, Apply(config, sys, Announce(template)),
          DeliverHeartbeat(HeartbeatFor(config, sys, template), header, room))
  }

  /** The answer received. */
  function Answered(config: Config, sys: System, template: Heartbeat, header: Header, now: nat, room: nat): (s: System)
    requires |sys.reader.window| == config.reader.windowBits
    ensures |s.reader.window| == config.reader.windowBits
  {
    Apply(config, Asked(config, sys, template, header, room), DeliverAckNack(AnswerFor(config, sys, header), now, room))
  }

  /** Messages delivered one after the other. */
  function Deliver(config: Config, sys: System, order: seq<Message>, room: nat): (s: System)
    requires |sys.reader.window| == config.reader.windowBits
    ensures |s.reader.window| == config.reader.windowBits
  {
    if order == [] then sys
    else Apply(config, Deliver(config, sys, order[..|order| - 1], room), DeliverData(order[|order| - 1], room))
  }

  lemma NextIsNewer(count: i32)
    ensures IsNewer(Next(count), count)
  {
    LaterIsNewer(count, 0, 1);
  }

  lemma HeartbeatInRange(config: Config, sys: System, template: Heartbeat, now: nat)
    requires Inv(config, sys) && Repairable(config, sys, now)
    ensures var h := W.HeartbeatOf(config.writer, sys.writer, template);
            R.ValidHeartbeatRange(h) && (h.last >= sys.reader.base ==> h.first <= sys.reader.base)
  {
    if sys.writer.last >= sys.reader.base {
      assert !RR.Has(sys.reader, sys.reader.base);
      assert Held(config.writer, sys.writer.history, sys.reader.base, now);
    }
  }

  /** The reader takes the heartbeat and answers with exactly what it lacks. */
  lemma ReaderAnswers(config: Config, sys: System, template: Heartbeat, now: nat, room: nat)
    requires Inv(config, sys) && Matched(config) && Ready(config, sys, room) && Repairable(config, sys, now)
    requires Answerable(sys, template)
    ensures var o := R.ApplyHeartbeat(config.reader, sys.reader, W.HeartbeatOf(config.writer, sys.writer, template),
                                      room);
            && o.error == NoError && o.state.base == sys.reader.base && o.state.window == sys.reader.window
            && o.state.ackNackCount == Next(sys.reader.ackNackCount)
            && o.state.heartbeatSeen && o.state.lastHeartbeat == Next(sys.writer.heartbeatCount)
            && o.actions == [SendAckNack(Lacking(sys), Next(sys.reader.ackNackCount),
                                         sys.writer.last < sys.reader.base)]
  {
    hide RR.Refines, WR.WellFormed, Repairable, R.Missing;
    HeartbeatInRange(config, sys, template, now);
  }

  lemma AskedIs(config: Config, sys: System, template: Heartbeat, header: Header, now: nat, room: nat)
    requires Inv(config, sys) && Matched(config) && Ready(config, sys, room) && Repairable(config, sys, now)
    requires Answerable(sys, template)
    ensures var s := Asked(config, sys, template, header, room);
            && s.writer == sys.writer.(heartbeatCount := Next(sys.writer.heartbeatCount))
            && s.reader.base == sys.reader.base && s.reader.window == sys.reader.window
            && s.reader.ackNackCount == Next(sys.reader.ackNackCount)
            && AnswerFor(config, sys, header) in s.network
            && s.reader.heartbeatSeen && s.reader.lastHeartbeat == s.writer.heartbeatCount
    ensures Inv(config, Asked(config, sys, template, header, room))
  {
    ReaderAnswers(config, sys, template, now, room);
    var announced := Apply(config, sys, Announce(template));
    StepInv(config, sys, Announce(template));
    StepInv(config, announced, DeliverHeartbeat(HeartbeatFor(config, sys, template), header, room));
    AnnouncedIs(config, sys, template);
    AnswerIsSent(config, announced, sys, HeartbeatFor(config, sys, template), header, room);
  }

  lemma AnnouncedIs(config: Config, sys: System, template: Heartbeat)
    requires config.writer.repairWindow != 0 && |sys.reader.window| == config.reader.windowBits
    ensures Apply(config, sys, Announce(template))
            == sys.(writer := sys.writer.(heartbeatCount := Next(sys.writer.heartbeatCount)),
                    heartbeats := sys.heartbeats + 1, network := sys.network + {HeartbeatFor(config, sys, template)})
  {}

  lemma AnswerIsSent(config: Config, sys: System, before: System, m: Message, header: Header, room: nat)
    requires |sys.reader.window| == config.reader.windowBits
    requires m in sys.network && m.Heart? && sys.reader == before.reader && sys.answers == before.answers
    requires var o := R.ApplyHeartbeat(config.reader, sys.reader, m.heartbeat, room);
             o.error == NoError &&
             o.actions == [SendAckNack(Lacking(before), Next(before.reader.ackNackCount),
                                       before.writer.last < before.reader.base)]
    ensures var s := Apply(config, sys, DeliverHeartbeat(m, header, room));
            && s.writer == sys.writer && s.heartbeats == sys.heartbeats && s.answers == sys.answers + 1
            && s.reader == R.ApplyHeartbeat(config.reader, sys.reader, m.heartbeat, room).state
            && AnswerFor(config, before, header) in s.network
  {
    hide R.Missing, R.ApplyHeartbeat;
    var o := R.ApplyHeartbeat(config.reader, sys.reader, m.heartbeat, room);
    assert o.actions[0] in o.actions;
  }

  // ---------------------------------------------------------------- the writer's repairs

  lemma {:induction false} AtMostOneEach(h: seq<W.Record>, d: seq<W.Decision>, n: nat)
    requires n <= |h| == |d|
    ensures |W.Emitted(h, d, n)| <= n
  {
    if n > 0 {
      AtMostOneEach(h, d, n - 1);
    }
  }

  lemma {:induction false} RepairIsEmitted(h: seq<W.Record>, d: seq<W.Decision>, n: nat, i: nat) returns (a: Action)
    requires i < n <= |h| == |d| && d[i] == W.Repair
    ensures a in W.Emitted(h, d, n) && a.RetransmitData? && a.sequence == h[i].sequence
  {
    hide W.Emitted, W.Survivors;
    if i == n - 1 {
      a := W.ActionFor(h[i], d[i], |W.Survivors(h, d, i)|)[0];
    } else {
      a := RepairIsEmitted(h, d, n - 1, i);
    }
    WR.EmittedStep(h, d, n - 1, a);
  }

  /** Faced with the answer, the writer delivers what the reader has and repairs what it lacks. */
  lemma DeliverOrRepair(config: Config, sys: System, now: nat, room: nat, i: nat)
    requires Inv(config, sys) && InReach(config, sys, room) && Repairable(config, sys, now)
    requires i < |sys.writer.history|
    ensures W.Decide(config.writer, sys.writer.history[i], Lacking(sys), now)
            == if RR.Has(sys.reader, sys.writer.history[i].sequence) then W.Deliver else W.Repair
  {
    hide RR.Refines;
    var h, s := sys.writer.history, sys.writer.history[i].sequence;
    if !RR.Has(sys.reader, s) {
      assert Held(config.writer, h, s, now);
      var k :| 0 <= k < |h| && h[k].sequence == s && h[k].attempts < config.writer.maxRepairAttempts &&
               h[k].firstSend <= now < h[k].firstSend + config.writer.repairWindow;
      assert k == i;
    }
  }

  lemma NoneRegresses(config: Config, sys: System, now: nat, room: nat)
    requires Inv(config, sys) && InReach(config, sys, room) && Repairable(config, sys, now)
    ensures W.Regressed !in W.AckDecisions(config.writer, sys.writer.history, Lacking(sys), now)
  {
    hide W.Decide, Inv, Repairable, InReach;
    forall i | 0 <= i < |sys.writer.history|
      ensures W.Decide(config.writer, sys.writer.history[i], Lacking(sys), now) != W.Regressed
    {
      DeliverOrRepair(config, sys, now, room, i);
    }
  }

  /** The writer takes the answer. */
  lemma WriterSettles(config: Config, sys: System, header: Header, now: nat, room: nat, w: W.State)
    requires Inv(config, sys) && Matched(config) && Ready(config, sys, room) && Repairable(config, sys, now)
    requires w == sys.writer.(heartbeatCount := Next(sys.writer.heartbeatCount))
    ensures var o := W.ApplyAckNack(config.writer, w, AnswerFor(config, sys, header).acknack, now, room);
            var d := W.AckDecisions(config.writer, w.history, Lacking(sys), now);
            && o.error == NoError && o.actions == W.Emitted(w.history, d, |d|)
            && o.state == w.(history := W.Survivors(w.history, d, |d|),
                             lastAckNack := Next(sys.reader.ackNackCount), ackNackSeen := true)
  {
    hide W.Emitted, W.Survivors, W.Decide, RR.Refines, WR.WellFormed, Repairable, Lacking;
    NoneRegresses(config, sys, now, room);
    AtMostOneEach(w.history, W.AckDecisions(config.writer, w.history, Lacking(sys), now), |w.history|);
  }

  /** Every gap is filled by one of the repairs now on the network. */
  lemma GapIsRepaired(config: Config, sys: System, now: nat, room: nat, s: nat) returns (m: Message)
    requires Inv(config, sys) && InReach(config, sys, room) && Repairable(config, sys, now)
    requires sys.reader.base <= s <= sys.writer.last && !RR.Has(sys.reader, s)
    ensures var h := sys.writer.history;
            var d := W.AckDecisions(config.writer, h, Lacking(sys), now);
            && m in Transmissions(W.Survivors(h, d, |d|), W.Emitted(h, d, |d|))
            && m.Data? && m.sequence == s
  {
    hide W.Emitted, W.Survivors, W.Decide, Lacking, Inv, InReach;
    var h := sys.writer.history;
    var d := W.AckDecisions(config.writer, h, Lacking(sys), now);
    assert Held(config.writer, h, s, now);
    var i :| 0 <= i < |h| && h[i].sequence == s;
    DeliverOrRepair(config, sys, now, room, i);
    assert d[i] == W.Repair;
    var a := RepairIsEmitted(h, d, |d|, i);
    var k := PointerSource(h, d, a);
    m := Data(a.sequence, W.Survivors(h, d, |d|)[a.slot].payload);
  }

  // ---------------------------------------------------------------- the repairs arrive

  lemma {:induction false} DeliverKeepsInv(config: Config, sys: System, order: seq<Message>, room: nat)
    requires Inv(config, sys) && |sys.reader.window| == config.reader.windowBits
    ensures var s := Deliver(config, sys, order, room);
            Inv(config, s) && s.writer == sys.writer && s.network == sys.network && s.written == sys.written &&
            s.reader.ackNackCount == sys.reader.ackNackCount &&
            s.reader.lastHeartbeat == sys.reader.lastHeartbeat && s.reader.heartbeatSeen == sys.reader.heartbeatSeen
  {
    hide Inv;
    if order != [] {
      var n := |order| - 1;
      DeliverKeepsInv(config, sys, order[..n], room);
      StepInv(config, Deliver(config, sys, order[..n], room), DeliverData(order[n], room));
    }
  }

  /** A number in reach of the window is known to the reader once it has been delivered, and stays known. */
  lemma {:induction false} DeliveredIsKnown(config: Config, sys: System, order: seq<Message>, room: nat, s: nat)
    requires Inv(config, sys) && |sys.reader.window| == config.reader.windowBits
    requires room >= 1 && ValidStateSequence(config.reader.initial)
    requires ValidStateSequence(s) && s < sys.reader.base + config.reader.windowBits
    requires RR.Has(sys.reader, s) || exists m :: m in order && m in sys.network && m.Data? && m.sequence == s
    ensures RR.Has(Deliver(config, sys, order, room).reader, s)
    ensures sys.reader.base <= Deliver(config, sys, order, room).reader.base
  {
    hide Inv, Apply, RR.Has;
    if order == [] {
    } else {
      var n := |order| - 1;
      var rest, last := order[..n], order[n];
      DeliverKeepsInv(config, sys, rest, room);
      var before := Deliver(config, sys, rest, room);
      BaseGrows(config, sys, rest, room);
      BaseGrows(config, sys, order, room);
      assert order == rest + [last];
      if RR.Has(sys.reader, s) || exists m :: m in rest && m in sys.network && m.Data? && m.sequence == s {
        DeliveredIsKnown(config, sys, rest, room, s);
        StepKeepsKnown(config, before, last, room, s);
      } else {
        assert last in sys.network && last.Data? && last.sequence == s;
        ArrivalIsKnown(config, before, last, room);
      }
    }
  }

  /** A sample in reach of the window is known after it arrives, whether it was new or not. */
  lemma ArrivalIsKnown(config: Config, sys: System, m: Message, room: nat)
    requires |sys.reader.window| == config.reader.windowBits && m in sys.network && m.Data? && room >= 1
    requires ValidStateSequence(config.reader.initial) && ValidStateSequence(m.sequence)
    requires m.sequence < sys.reader.base + config.reader.windowBits
    ensures RR.Has(Apply(config, sys, DeliverData(m, room)).reader, m.sequence)
  {
    hide R.Shift;
    RR.DataAddsOne(config.reader, sys.reader, m.sequence, room, m.sequence);
  }

  lemma StepKeepsKnown(config: Config, sys: System, m: Message, room: nat, s: nat)
    requires |sys.reader.window| == config.reader.windowBits && RR.Has(sys.reader, s)
    ensures RR.Has(Apply(config, sys, DeliverData(m, room)).reader, s)
  {
    if m in sys.network && m.Data? {
      RR.DataAddsOne(config.reader, sys.reader, m.sequence, room, s);
    }
  }

  lemma {:induction false} BaseGrows(config: Config, sys: System, order: seq<Message>, room: nat)
    requires |sys.reader.window| == config.reader.windowBits
    ensures sys.reader.base <= Deliver(config, sys, order, room).reader.base
  {
    if order != [] {
      BaseGrows(config, sys, order[..|order| - 1], room);
    }
  }

  /** A reader that knows everything up to the writer's last expects the number after it. */
  lemma KnowingAllIsBase(config: Config, sys: System)
    requires Inv(config, sys) && config.reader.initial <= sys.writer.last + 1
    requires forall s :: config.reader.initial <= s <= sys.writer.last ==> RR.Has(sys.reader, s)
    ensures sys.reader.base == sys.writer.last + 1
  {
    var next := sys.writer.last + 1;
    assert !RR.Has(sys.reader, sys.reader.base);
    assert next !in Numbers(sys.accepted);
    assert !RR.Has(sys.reader, next);
  }

  // ---------------------------------------------------------------- the two rounds

  /** The repairs the writer sends in answer to the reader's answer. */
  function Repairs(config: Config, sys: System, now: nat): (m: set<Message>)
  {
    var h := sys.writer.history;
    var d := W.AckDecisions(config.writer, h, Lacking(sys), now);
    Transmissions(W.Survivors(h, d, |d|), W.Emitted(h, d, |d|))
  }

  lemma AnsweredIs(config: Config, sys: System, template: Heartbeat, header: Header, now: nat, room: nat)
    requires Inv(config, sys) && Matched(config) && Ready(config, sys, room) && Repairable(config, sys, now)
    requires Answerable(sys, template) && |sys.reader.window| == config.reader.windowBits
    ensures var s := Answered(config, sys, template, header, now, room);
            var d := W.AckDecisions(config.writer, sys.writer.history, Lacking(sys), now);
            && Inv(config, s) && Repairs(config, sys, now) <= s.network
            && s.writer.history == W.Survivors(sys.writer.history, d, |d|) && s.writer.last == sys.writer.last
            && s.reader.base == sys.reader.base && s.reader.window == sys.reader.window
            && CountsInStep(s)
            && Deliveries(W.Emitted(sys.writer.history, d, |d|)) <= s.delivered
  {
    hide W.Emitted, W.Survivors, W.Decide, W.ApplyAckNack, Lacking, Inv, Ready, Repairable, Transmissions, Deliveries;
    AskedIs(config, sys, template, header, now, room);
    var asked := Asked(config, sys, template, header, room);
    WriterSettles(config, sys, header, now, room, asked.writer);
    StepInv(config, asked, DeliverAckNack(AnswerFor(config, sys, header), now, room));
  }

  /** One lossless round moves the reader's base past everything written, in whatever order the repairs arrive. */
  lemma RoundFillsReader(config: Config, sys: System, template: Heartbeat, header: Header, now: nat, room: nat,
                         order: seq<Message>)
    requires Inv(config, sys) && Matched(config) && Ready(config, sys, room) && Repairable(config, sys, now)
    requires Answerable(sys, template) && |sys.reader.window| == config.reader.windowBits
    requires forall m :: m in Repairs(config, sys, now) ==> m in order
    ensures var s := Deliver(config, Answered(config, sys, template, header, now, room), order, room);
            && s.reader.base == sys.writer.last + 1
            && Inv(config, s) && s.writer == Answered(config, sys, template, header, now, room).writer
            && CountsInStep(s)
  {
    var answered := Answered(config, sys, template, header, now, room);
    AnsweredIs(config, sys, template, header, now, room);
    DeliverKeepsInv(config, answered, order, room);
    var s := Deliver(config, answered, order, room);
    forall x | config.reader.initial <= x <= s.writer.last ensures RR.Has(s.reader, x) {
      FilledNumber(config, sys, answered, now, room, order, x);
    }
    KnowingAllIsBase(config, s);
  }

  lemma FilledNumber(config: Config, sys: System, answered: System, now: nat, room: nat, order: seq<Message>, x: nat)
    requires Inv(config, sys) && InReach(config, sys, room) && Repairable(config, sys, now)
    requires Inv(config, answered) && Repairs(config, sys, now) <= answered.network
    requires answered.reader.base == sys.reader.base && answered.reader.window == sys.reader.window
    requires |answered.reader.window| == config.reader.windowBits
    requires forall m :: m in Repairs(config, sys, now) ==> m in order
    requires config.reader.initial <= x <= sys.writer.last
    ensures RR.Has(Deliver(config, answered, order, room).reader, x)
  {
    hide W.Emitted, W.Survivors, W.Decide, Lacking, Repairable, Transmissions, NetworkOk, DeliveredOk, ReaderOk,
         Deliver;
    if sys.reader.base <= x && !RR.Has(sys.reader, x) {
      var m := GapIsRepaired(config, sys, now, room, x);
      assert m in Repairs(config, sys, now);
    }
    assert RR.Has(answered.reader, x) <==> RR.Has(sys.reader, x);
    DeliveredIsKnown(config, answered, order, room, x);
  }

  lemma {:induction false} AllDelivered(h: seq<W.Record>, d: seq<W.Decision>, n: nat)
    requires n <= |h| == |d| && forall i :: 0 <= i < |d| ==> d[i] == W.Deliver
    ensures W.Survivors(h, d, n) == []
    ensures forall i :: 0 <= i < n ==> SampleDelivered(h[i].sequence) in W.Emitted(h, d, n)
  {
    hide W.Survivors, W.Emitted;
    W.CompactionStart(h, d);
    if n > 0 {
      AllDelivered(h, d, n - 1);
      W.CompactionFacts(h, d, [], n - 1);
    }
  }

  /** Once the reader has everything, one more round empties the history, reporting each record delivered. */
  lemma RoundEmptiesHistory(config: Config, sys: System, template: Heartbeat, header: Header, now: nat, room: nat)
    requires Inv(config, sys) && Matched(config) && Ready(config, sys, room)
    requires sys.reader.base == sys.writer.last + 1
    requires !template.finalFlag && |sys.reader.window| == config.reader.windowBits
    ensures var s := Answered(config, sys, template, header, now, room);
            && s.writer.history == []
            && forall r :: r in sys.writer.history ==> r.sequence in s.delivered
  {
    hide W.Emitted, W.Survivors, W.Decide, Lacking, NetworkOk, DeliveredOk, ReaderOk, Answered;
    var h := sys.writer.history;
    var d := W.AckDecisions(config.writer, h, Lacking(sys), now);
    AnsweredIs(config, sys, template, header, now, room);
    forall i | 0 <= i < |h| ensures d[i] == W.Deliver {
      DeliverOrRepair(config, sys, now, room, i);
    }
    AllDelivered(h, d, |d|);
    var s := Answered(config, sys, template, header, now, room);
    forall r | r in h ensures r.sequence in s.delivered {
      assert SampleDelivered(r.sequence) in W.Emitted(h, d, |d|);
      assert r.sequence in Deliveries(W.Emitted(h, d, |d|));
    }
  }

  /**
   From any reachable state whose gaps are all repairable: heartbeat, answer and repairs
   without loss bring the reader up to date, and a second heartbeat and answer leave
   the writer with nothing to repair.
   */
  lemma TwoRoundsComplete(config: Config, steps: seq<Step>, first: Heartbeat, second: Heartbeat, header: Header,
                          now: nat, later: nat, room: nat, order: seq<Message>)
    requires Matched(config)
    requires Ready(config, Reached(config, steps), room) && Repairable(config, Reached(config, steps), now)
    requires Answerable(Reached(config, steps), first) && !second.finalFlag
    requires forall m :: m in Repairs(config, Reached(config, steps), now) ==> m in order
    ensures var sys := Reached(config, steps);
            var filled := Deliver(config, Answered(config, sys, first, header, now, room), order, room);
            var done := Answered(config, filled, second, header, later, room);
            && filled.reader.base == sys.writer.last + 1
            && done.writer.history == []
            && forall r :: r in filled.writer.history ==> r.sequence in done.delivered
  {
    hide Reached, Inv, Apply, Deliver, Answered, Repairs, Repairable;
    EveryRunInv(config, steps);
    var sys := Reached(config, steps);
    RoundFillsReader(config, sys, first, header, now, room, order);
    AnsweredIs(config, sys, first, header, now, room);
    var filled := Deliver(config, Answered(config, sys, first, header, now, room), order, room);
    NextIsNewer(filled.writer.heartbeatCount);
    NextIsNewer(filled.reader.ackNackCount);
    RoundEmptiesHistory(config, filled, second, header, later, room);
  }

  /**
   An instance: the first sample a reader expects is written and lost. It is repairable, so the first round
   delivers it and the second clears the history.
   */
  lemma LostSampleIsRecovered(config: Config, data: seq<byte>, sent: nat, first: Heartbeat, second: Heartbeat,
                              header: Header, now: nat, later: nat, order: seq<Message>)
    requires Matched(config) && ValidStateSequence(config.reader.initial)
    requires config.writer.depth >= 1 && config.writer.maxRepairAttempts >= 1 && |data| <= config.writer.maxPayload
    requires sent <= now < sent + config.writer.repairWindow && !second.finalFlag
    requires forall m :: m in Repairs(config, Lost(config, data, sent), now) ==> m in order
    ensures var lost, s := Lost(config, data, sent), config.reader.initial;
            var filled := Deliver(config, Answered(config, lost, first, header, now, 1), order, 1);
            && lost.accepted == [] && lost.writer.history == [W.Record(s, data, sent, 0)]
            && filled.reader.base == s + 1
            && Answered(config, filled, second, header, later, 1).writer.history == []
  {
    hide Repairs, Deliver, Answered;
    OneWrite(config, data, sent);
    var steps := [Write(W.Buffer(data), config.reader.initial, sent, 1)];
    TwoRoundsComplete(config, steps, first, second, header, now, later, 1, order);
  }

  /** The pair after one write that never arrived. */
  function Lost(config: Config, data: seq<byte>, sent: nat): (s: System)
    ensures |s.reader.window| == config.reader.windowBits
  {
    Reached(config, [Write(W.Buffer(data), config.reader.initial, sent, 1)])
  }

  lemma OneWrite(config: Config, data: seq<byte>, sent: nat)
    requires Matched(config) && ValidStateSequence(config.reader.initial)
    requires config.writer.depth >= 1 && config.writer.repairWindow != 0 && |data| <= config.writer.maxPayload
    ensures var lost, s := Lost(config, data, sent), config.reader.initial;
      && lost.writer == W.INITIAL.(history := [W.Record(s, data, sent, 0)], last := s)
      && lost.reader == R.Initial(config.reader) && lost.accepted == []
  {
    var steps := [Write(W.Buffer(data), config.reader.initial, sent, 1)];
    assert steps[..0] == [];
    assert Reached(config, steps[..|steps| - 1]) == Start(config);
  }
}
