/**
 What a call of the reliable writer does to each sample it holds, said by the numbers in the ACKNACK, the
 clock and the attempts alone; and what therefore lies behind every report a run ever makes.
 */
module WriterLaws {
  import opened SerialCount
  import opened SequenceSet
  import opened RtpsTypes
  import opened ReliabilityActions
  import opened ReliableWriter
  import opened WriterRuns

  /** The reader says that it has `s`. */
  predicate Acknowledged(numbers: NumberSet, s: nat)
  {
    s < numbers.base || (s < numbers.base + |numbers.bits| && !numbers.bits[s - numbers.base])
  }

  /** The reader asks for `s`. */
  predicate Requested(numbers: NumberSet, s: nat)
  {
    numbers.base <= s < numbers.base + |numbers.bits| && numbers.bits[s - numbers.base]
  }

  predicate Elapsed(config: Config, r: Record, now: nat)
  {
    r.firstSend + config.repairWindow <= now
  }

  /** `r` is held with one more attempt, and a retransmission points at where it is held. */
  ghost predicate Retransmitted(o: Outcome, r: Record)
  {
    exists slot :: 0 <= slot < |o.state.history| && o.state.history[slot] == r.(attempts := r.attempts + 1)
                   && RetransmitData(r.sequence, slot, |r.payload|) in o.actions
  }

  // ---------------------------------------------------------------- one record of a compaction

  /** An action is emitted exactly when some record's decision emits it. */
  lemma {:induction false} EmittedIsDecided(h: seq<Record>, d: seq<Decision>, n: nat, a: Action)
    requires n <= |h| == |d|
    ensures a in Emitted(h, d, n) <==> exists i :: 0 <= i < n && a in ActionFor(h[i], d[i], |Survivors(h, d, i)|)
  {
    hide Survivors, Emitted, ActionFor;
    CompactionStart(h, d);
    if n > 0 {
      EmittedIsDecided(h, d, n - 1, a);
      EmittedStep(h, d, n - 1, a);
    }
  }

  /** Every action is about a sample, and the samples ascend. */
  predicate InOrder(actions: seq<Action>)
  {
    && (forall a :: a in actions ==> !a.SendAckNack?)
    && forall i, j :: 0 <= i < j < |actions| ==> actions[i].sequence < actions[j].sequence
  }

  /** Reports come in the order of their samples. */
  lemma {:induction false} EmittedAscends(h: seq<Record>, d: seq<Decision>, n: nat)
    requires n <= |h| == |d| && Ascending(h)
    ensures InOrder(Emitted(h, d, n))
    ensures forall a :: a in Emitted(h, d, n) ==>
        !a.SendAckNack? && exists i :: 0 <= i < n && h[i].sequence == a.sequence
  {
    hide Survivors, Emitted;
    CompactionStart(h, d);
    if n > 0 {
      EmittedAscends(h, d, n - 1);
      CompactionFacts(h, d, [], n - 1);
      var emitted, more := Emitted(h, d, n - 1), ActionFor(h[n - 1], d[n - 1], |Survivors(h, d, n - 1)|);
      assert forall a :: a in emitted ==> a.sequence < h[n - 1].sequence;
      assert forall k :: 0 <= k < |emitted| ==> emitted[k] in emitted;
    }
  }

  /** In an ascending history a decision shows, and nothing but that decision does. */
  lemma DecisionShows(h: seq<Record>, d: seq<Decision>, i: nat, a: Action)
    requires i < |h| == |d| && Ascending(h) && !a.SendAckNack? && a.sequence == h[i].sequence
    ensures a in Emitted(h, d, |h|) <==> a in ActionFor(h[i], d[i], |Survivors(h, d, i)|)
  {
    hide Survivors, Emitted;
    EmittedIsDecided(h, d, |h|, a);
    forall j | 0 <= j < |h| && a in ActionFor(h[j], d[j], |Survivors(h, d, j)|) ensures j == i {
      assert h[j].sequence == h[i].sequence;
    }
  }

  lemma RecordShows(h: seq<Record>, d: seq<Decision>, i: nat, r: Record)
    requires i < |h| == |d| && Ascending(h) && r.sequence == h[i].sequence
    ensures r in Survivors(h, d, |h|) <==> r in Retained(h[i], d[i])
  {
    hide Survivors, Emitted;
    SurvivorsAreRetained(h, d, |h|, r);
    forall j | 0 <= j < |h| && r in Retained(h[j], d[j]) ensures j == i {
      assert h[j].sequence == h[i].sequence;
    }
  }

  /** A record is retransmitted, from the slot it ends up in, exactly when its decision is repair. */
  lemma RepairShows(h: seq<Record>, d: seq<Decision>, i: nat, o: Outcome)
    requires i < |h| == |d| && Ascending(h)
    requires o.state.history == Survivors(h, d, |h|) && o.actions == Emitted(h, d, |h|)
    ensures Retransmitted(o, h[i]) <==> d[i] == Repair
  {
    hide Survivors, Emitted;
    var r := h[i].(attempts := h[i].attempts + 1);
    var slot := |Survivors(h, d, i)|;
    var a := RetransmitData(r.sequence, slot, |r.payload|);
    if d[i] == Repair {
      DecisionShows(h, d, i, a);
      PointersStayGood(h, d, |h|, |h|, a);
      var k :| 0 <= k < |h| && d[k] == Repair && o.state.history[slot] == h[k].(attempts := h[k].attempts + 1);
      assert h[k].sequence == h[i].sequence;
    }
    if Retransmitted(o, h[i]) {
      var other :| 0 <= other < |o.state.history| && RetransmitData(r.sequence, other, |r.payload|) in o.actions;
      DecisionShows(h, d, i, RetransmitData(r.sequence, other, |r.payload|));
    }
  }

  // ---------------------------------------------------------------- a write

  /** A write is accepted exactly when its arguments are usable, its number is past all others, and there is room. */
  lemma WriteIsExact(config: Config, state: State, payload: Payload, s: nat, now: nat, room: nat)
    requires WellFormed(config, state)
    ensures var o := ApplyWrite(config, state, payload, s, now, room);
            var data := match payload case Buffer(data) => data case Null(_) => [];
            && (o.error == NoError <==>
                  && config.repairWindow != 0 && (payload == Null(0) || payload.Buffer?)
                  && |data| <= config.maxPayload && ValidStateSequence(s) && s > state.last
                  && |state.history| < config.depth && room > 0)
            && (o.error == NoError ==>
                  && o.actions == [SendData(s, |state.history|, |data|)]
                  && o.state == state.(last := s, history := state.history + [Record(sequence := s, payload := data,
                                                                                     firstSend := now, attempts := 0)]))
  {}

  // ---------------------------------------------------------------- an ACKNACK

  /**
   What a successful ACKNACK does to a held sample, case by case: said nothing about it is kept as it is,
   acknowledged it is delivered, and requested it fails for its window, else for its attempts, else is sent again.
   */
  lemma AckNackIsExact(config: Config, state: State, ack: AckNack, now: nat, room: nat, r: Record)
    requires Ascending(state.history) && r in state.history
    requires ApplyAckNack(config, state, ack, now, room).error == NoError
    ensures var o, s := ApplyAckNack(config, state, ack, now, room), r.sequence;
            var requested := Requested(ack.readerState, s);
            && (r in o.state.history <==> s >= ack.readerState.base + |ack.readerState.bits|)
            && (SampleDelivered(s) in o.actions <==> Acknowledged(ack.readerState, s))
            && (SampleFailed(s, RepairWindowExpired) in o.actions <==> requested && Elapsed(config, r, now))
            && (SampleFailed(s, RepairLimitExceeded) in o.actions
                <==> requested && !Elapsed(config, r, now) && r.attempts >= config.maxRepairAttempts)
            && (Retransmitted(o, r)
                <==> requested && !Elapsed(config, r, now) && r.attempts < config.maxRepairAttempts)
  {
    hide Survivors, Emitted, Retransmitted;
    var h, d := state.history, AckDecisions(config, state.history, ack.readerState, now);
    var i :| 0 <= i < |h| && h[i] == r;
    assert d[i] in d;
    RecordShows(h, d, i, r);
    DecisionShows(h, d, i, SampleDelivered(r.sequence));
    DecisionShows(h, d, i, SampleFailed(r.sequence, RepairWindowExpired));
    DecisionShows(h, d, i, SampleFailed(r.sequence, RepairLimitExceeded));
    RepairShows(h, d, i, ApplyAckNack(config, state, ack, now, room));
  }

  /** Beyond the samples it held, a successful ACKNACK adds no record and no report, and keeps both in order. */
  lemma AckNackAddsNothing(config: Config, state: State, ack: AckNack, now: nat, room: nat)
    requires Ascending(state.history) && ApplyAckNack(config, state, ack, now, room).error == NoError
    ensures var o := ApplyAckNack(config, state, ack, now, room);
            && Ascending(o.state.history) && InOrder(o.actions)
            && (forall q :: q in o.state.history ==>
                  q in state.history || exists r :: r in state.history && q == r.(attempts := r.attempts + 1))
            && (forall a :: a in o.actions ==> exists r :: r in state.history && r.sequence == a.sequence)
            && o.state == state.(history := o.state.history, lastAckNack := ack.count, ackNackSeen := true)
  {
    hide Survivors, Emitted;
    var h, d := state.history, AckDecisions(config, state.history, ack.readerState, now);
    var o := ApplyAckNack(config, state, ack, now, room);
    SurvivorsAscend(h, d, |h|);
    EmittedAscends(h, d, |h|);
    forall q | q in o.state.history
      ensures q in h || exists r :: r in h && q == r.(attempts := r.attempts + 1)
    {
      SurvivorsAreRetained(h, d, |h|, q);
    }
    forall a | a in o.actions ensures exists r :: r in h && r.sequence == a.sequence {
      var i :| 0 <= i < |h| && h[i].sequence == a.sequence;
      assert h[i] in h;
    }
  }

  /** How many of the first `n` samples an ACKNACK says something about. */
  function Addressed(h: seq<Record>, numbers: NumberSet, n: nat): (k: nat)
    requires n <= |h|
  {
    if n == 0 then 0
    else Addressed(h, numbers, n - 1) + (if h[n - 1].sequence < numbers.base + |numbers.bits| then 1 else 0)
  }

  lemma {:induction false} AddressedAreReported(config: Config, h: seq<Record>, numbers: NumberSet, now: nat, n: nat)
    requires n <= |h| && Regressed !in AckDecisions(config, h, numbers, now)
    ensures |Emitted(h, AckDecisions(config, h, numbers, now), n)| == Addressed(h, numbers, n)
  {
    hide Survivors, Emitted;
    var d := AckDecisions(config, h, numbers, now);
    CompactionStart(h, d);
    if n > 0 {
      AddressedAreReported(config, h, numbers, now, n - 1);
      CompactionFacts(h, d, [], n - 1);
      assert d[n - 1] in d;
    }
  }

  /** The clock ran backwards for a sample the reader asks for. */
  predicate RegressedAck(h: seq<Record>, numbers: NumberSet, now: nat)
  {
    exists i :: 0 <= i < |h| && Requested(numbers, h[i].sequence) && now < h[i].firstSend
  }

  /** Whether an ACKNACK gets as far as the history. */
  predicate Heard(config: Config, state: State, ack: AckNack)
  {
    && config.repairWindow != 0 && ack.readerId == config.readerId && ack.writerId == config.writerId
    && (state.ackNackSeen ==> IsNewer(ack.count, state.lastAckNack))
  }

  /** When an ACKNACK that is heard fails, and with what. */
  lemma AckNackRefusals(config: Config, state: State, ack: AckNack, now: nat, room: nat)
    requires Heard(config, state, ack)
    ensures var e, h := ApplyAckNack(config, state, ack, now, room).error, state.history;
            && (e == TimeRegression <==> RegressedAck(h, ack.readerState, now))
            && (e == ActionCapacityExceeded
                <==> !RegressedAck(h, ack.readerState, now) && Addressed(h, ack.readerState, |h|) > room)
            && (e == NoError
                <==> !RegressedAck(h, ack.readerState, now) && Addressed(h, ack.readerState, |h|) <= room)
  {
    hide Survivors, Emitted, Addressed;
    var h, d := state.history, AckDecisions(config, state.history, ack.readerState, now);
    if Regressed in d {
      var i :| 0 <= i < |d| && d[i] == Regressed;
      assert Requested(ack.readerState, h[i].sequence);
    } else {
      AddressedAreReported(config, h, ack.readerState, now, |h|);
      forall i | 0 <= i < |h| && Requested(ack.readerState, h[i].sequence) ensures h[i].firstSend <= now {
        assert d[i] in d;
      }
    }
  }

  /** An ACKNACK that is not heard is refused for the first of its faults. */
  lemma UnheardAckNack(config: Config, state: State, ack: AckNack, now: nat, room: nat)
    ensures var e := ApplyAckNack(config, state, ack, now, room).error;
            var known := ack.readerId == config.readerId && ack.writerId == config.writerId;
            && (e == InvalidConfiguration <==> config.repairWindow == 0)
            && (e == UnexpectedPeer <==> config.repairWindow != 0 && !known)
            && (e == StaleControl
                <==> config.repairWindow != 0 && known && !Heard(config, state, ack))
  {}

  // ---------------------------------------------------------------- a timer

  /** Those of the first `n` samples whose window is still open. */
  function Young(config: Config, h: seq<Record>, now: nat, n: nat): (y: seq<Record>)
    requires n <= |h|
  {
    if n == 0 then []
    else Young(config, h, now, n - 1) + (if Elapsed(config, h[n - 1], now) then [] else [h[n - 1]])
  }

  /** One report for each of the first `n` samples whose window has elapsed. */
  function Expiries(config: Config, h: seq<Record>, now: nat, n: nat): (a: seq<Action>)
    requires n <= |h|
  {
    if n == 0 then []
    else Expiries(config, h, now, n - 1)
         + (if Elapsed(config, h[n - 1], now) then [SampleFailed(h[n - 1].sequence, RepairWindowExpired)] else [])
  }

  predicate RegressedTimer(h: seq<Record>, now: nat)
  {
    exists i :: 0 <= i < |h| && now < h[i].firstSend
  }

  lemma {:induction false} TimerCompacts(config: Config, h: seq<Record>, now: nat, n: nat)
    requires n <= |h| && !RegressedTimer(h, now)
    ensures Survivors(h, TimerDecisions(config, h, now), n) == Young(config, h, now, n)
    ensures Emitted(h, TimerDecisions(config, h, now), n) == Expiries(config, h, now, n)
  {
    hide Survivors, Emitted;
    var d := TimerDecisions(config, h, now);
    CompactionStart(h, d);
    if n > 0 {
      TimerCompacts(config, h, now, n - 1);
      CompactionFacts(h, d, [], n - 1);
    }
  }

  /** A timer keeps exactly the young samples and reports exactly the others, in order; or it fails and does nothing. */
  lemma TimerIsExact(config: Config, state: State, now: nat, room: nat)
    ensures var o, h := ApplyTimer(config, state, now, room), state.history;
            var expiries := Expiries(config, h, now, |h|);
            && (o.error == InvalidConfiguration <==> config.repairWindow == 0)
            && (o.error == TimeRegression <==> config.repairWindow != 0 && RegressedTimer(h, now))
            && (o.error == ActionCapacityExceeded
                <==> config.repairWindow != 0 && !RegressedTimer(h, now) && |expiries| > room)
            && (o.error == NoError
                <==> config.repairWindow != 0 && !RegressedTimer(h, now) && |expiries| <= room)
            && (o.error == NoError ==>
                  o.state == state.(history := Young(config, h, now, |h|)) && o.actions == expiries)
  {
    hide Survivors, Emitted, Young, Expiries;
    var h, d := state.history, TimerDecisions(config, state.history, now);
    if Regressed in d {
      var i :| 0 <= i < |d| && d[i] == Regressed;
      assert now < h[i].firstSend;
    } else {
      forall i | 0 <= i < |h| ensures h[i].firstSend <= now {
        assert d[i] in d;
      }
      TimerCompacts(config, h, now, |h|);
    }
  }

  /** After a successful timer every held sample's window is open, and no such sample was lost. */
  lemma {:induction false} YoungAreHeld(config: Config, h: seq<Record>, now: nat, n: nat, r: Record)
    requires n <= |h|
    ensures r in Young(config, h, now, n) <==> r in h[..n] && !Elapsed(config, r, now)
  {
    if n > 0 {
      YoungAreHeld(config, h, now, n - 1, r);
      assert h[..n] == h[..n - 1] + [h[n - 1]];
    }
  }

  lemma {:induction false} ExpiriesAreReported(config: Config, h: seq<Record>, now: nat, n: nat, a: Action)
    requires n <= |h|
    ensures a in Expiries(config, h, now, n)
            <==> exists i :: 0 <= i < n && Elapsed(config, h[i], now)
                             && a == SampleFailed(h[i].sequence, RepairWindowExpired)
  {
    if n > 0 {
      ExpiriesAreReported(config, h, now, n - 1, a);
    }
  }

  // ---------------------------------------------------------------- a heartbeat

  /** A valid writer announces a range that holds every sample it can still send, starting with the first of them. */
  lemma HeartbeatIsFilled(config: Config, state: State, template: Heartbeat)
    requires WellFormed(config, state)
    ensures var o, h := ApplyHeartbeat(config, state), HeartbeatOf(config, state, template);
            && (o.error == InvalidConfiguration <==> config.repairWindow == 0)
            && (o.error == NoError <==> config.repairWindow != 0)
            && (o.error == NoError ==>
                  o.state == state.(heartbeatCount := h.count) && IsNewer(h.count, state.heartbeatCount))
            && (forall r :: r in state.history ==> h.first <= r.sequence <= h.last)
            && (state.history == [] ==> h.first == h.last + 1)
            && (state.history != [] ==> exists r :: r in state.history && r.sequence == h.first)
            && h.last == state.last && h.readerId == config.readerId && h.writerId == config.writerId
            && h.header == template.header && h.finalFlag == template.finalFlag
            && h.livelinessFlag == template.livelinessFlag
  {
    if state.history != [] {
      assert state.history[0] in state.history;
    }
  }

  // ---------------------------------------------------------------- every run

  lemma {:induction false} LogGrows(config: Config, events: seq<Event>, n: nat)
    requires n <= |events|
    ensures RunOf(config, events[..n]).log == RunOf(config, events).log[..n]
    decreases |events|
  {
    if n < |events| {
      var rest := events[..|events| - 1];
      LogGrows(config, rest, n);
      assert rest[..n] == events[..n];
    } else {
      assert events[..n] == events;
    }
  }

  /** `s` was sent in an earlier batch than the `i`-th, at least the repair window before it. */
  predicate SentLongBefore(config: Config, log: seq<Batch>, i: nat, s: nat)
    requires i < |log|
  {
    exists j, a :: 0 <= j < i && a in log[j].actions && IsAbout(a, Sent, s)
                   && log[j].time + config.repairWindow <= log[i].time
  }

  /** What lies behind a report: the event that caused it, and what the log showed before. */
  ghost predicate Justified(config: Config, log: seq<Batch>, i: nat, e: Event, a: Action)
    requires i < |log|
  {
    match a
    case SendData(s, _, _) => e.Write? && e.sequence == s
    case RetransmitData(s, _, _) => e.AckNacked? && Requested(e.ack.readerState, s)
    case SampleDelivered(s) => e.AckNacked? && Acknowledged(e.ack.readerState, s)
    case SampleFailed(s, RepairWindowExpired) =>
      SentLongBefore(config, log, i, s) && (e.Timer? || (e.AckNacked? && Requested(e.ack.readerState, s)))
    case SampleFailed(s, RepairLimitExceeded) =>
      && e.AckNacked? && Requested(e.ack.readerState, s)
      && Total(log[..i], Resent, s) == config.maxRepairAttempts
    case _ => false
  }

  lemma HeldWasSent(config: Config, state: State, log: seq<Batch>, r: Record)
    requires Conserved(config, state, log) && r in state.history
    ensures exists j, a :: 0 <= j < |log| && a in log[j].actions && IsAbout(a, Sent, r.sequence)
                           && log[j].time == r.firstSend
  {
    hide Held, Total;
    var i :| 0 <= i < |state.history| && state.history[i] == r;
    HeldOnce(state.history, |state.history|, i);
    TotalZero(log, Sent, r.sequence);
    assert SentAt(log, r.sequence, r.firstSend);
  }

  /** A sample of the history that was decided on was asked for, acknowledged or old, as the decision says. */
  lemma DecisionIsJustified(config: Config, state: State, log: seq<Batch>, numbers: NumberSet, now: nat, i: nat)
    requires Conserved(config, state, log) && i < |state.history|
    ensures var r := state.history[i];
            match Decide(config, r, numbers, now)
            case Deliver => Acknowledged(numbers, r.sequence)
            case Repair => Requested(numbers, r.sequence)
            case FailWindow => Requested(numbers, r.sequence) && Elapsed(config, r, now)
            case FailAttempts =>
              Requested(numbers, r.sequence) && Total(log, Resent, r.sequence) == config.maxRepairAttempts
            case _ => true
  {
    hide Held, Total;
    assert state.history[i] in state.history;
  }

  lemma AckReportIsJustified(config: Config, state: State, log: seq<Batch>, e: Event, a: Action, log': seq<Batch>)
    requires Conserved(config, state, log) && a in Apply(config, state, e).actions && e.AckNacked?
    requires |log'| == |log| + 1 && log'[..|log|] == log && log'[|log|].time == e.now
    ensures Justified(config, log', |log|, e, a)
  {
    hide Survivors, Emitted, Total, Held, SentLongBefore, Decide, Conserved, Elapsed, Requested, Acknowledged;
    var h, d := state.history, AckDecisions(config, state.history, e.ack.readerState, e.now);
    EmittedIsDecided(h, d, |h|, a);
    var i :| 0 <= i < |h| && a in ActionFor(h[i], d[i], |Survivors(h, d, i)|);
    DecisionIsJustified(config, state, log, e.ack.readerState, e.now, i);
    if d[i] == FailWindow {
      WasSentLongBefore(config, state, log, h[i], log');
    }
  }

  lemma TimerReportIsJustified(config: Config, state: State, log: seq<Batch>, e: Event, a: Action, log': seq<Batch>)
    requires Conserved(config, state, log) && a in Apply(config, state, e).actions && e.Timer?
    requires |log'| == |log| + 1 && log'[..|log|] == log && log'[|log|].time == e.now
    ensures Justified(config, log', |log|, e, a)
  {
    hide Total, SentLongBefore, Conserved, Expiries, Elapsed, Young, Settle;
    var h := state.history;
    TimerIsExact(config, state, e.now, e.room);
    ErrorsChangeNothing(config, state, e);
    ExpiriesAreReported(config, h, e.now, |h|, a);
    var i :| 0 <= i < |h| && Elapsed(config, h[i], e.now) && a == SampleFailed(h[i].sequence, RepairWindowExpired);
    WasSentLongBefore(config, state, log, h[i], log');
  }

  /** The last report of a run is justified. */
  lemma LastIsJustified(config: Config, state: State, log: seq<Batch>, e: Event, a: Action)
    requires Conserved(config, state, log) && a in Apply(config, state, e).actions
    ensures Justified(config, log + [Batch(e.now, Apply(config, state, e).actions)], |log|, e, a)
  {
    hide Survivors, Emitted, Total, SentLongBefore, Conserved, Settle;
    var log' := log + [Batch(e.now, Apply(config, state, e).actions)];
    assert log'[..|log|] == log;
    if e.AckNacked? {
      AckReportIsJustified(config, state, log, e, a, log');
    } else if e.Timer? {
      TimerReportIsJustified(config, state, log, e, a, log');
    }
  }

  lemma WasSentLongBefore(config: Config, state: State, log: seq<Batch>, r: Record, log': seq<Batch>)
    requires Conserved(config, state, log) && r in state.history
    requires |log'| == |log| + 1 && log'[..|log|] == log && Elapsed(config, r, log'[|log|].time)
    ensures SentLongBefore(config, log', |log|, r.sequence)
  {
    HeldWasSent(config, state, log, r);
    var j, x :| 0 <= j < |log| && x in log[j].actions && IsAbout(x, Sent, r.sequence) && log[j].time == r.firstSend;
    assert log'[j] == log'[..|log|][j];
  }

  /**
   Over every run: nothing is retransmitted unless the reader asked for it in that very call, nothing is reported
   delivered unless it acknowledged it, nothing fails for its window before its window has elapsed, and nothing
   fails for its attempts before they were all used.
   */
  lemma EveryReportIsJustified(config: Config, events: seq<Event>, i: nat, a: Action)
    requires i < |events| && a in RunOf(config, events).log[i].actions
    ensures Justified(config, RunOf(config, events).log, i, events[i], a)
  {
    hide Total;
    var before, log := RunOf(config, events[..i]), RunOf(config, events).log;
    EveryRunConserves(config, events[..i]);
    LogGrows(config, events, i);
    LogGrows(config, events, i + 1);
    assert events[..i + 1][..i] == events[..i] && events[..i + 1][i] == events[i];
    var last := Batch(events[i].now, Apply(config, before.state, events[i]).actions);
    assert log[..i + 1] == before.log + [last];
    assert log[i] == log[..i + 1][i] == last;
    LastIsJustified(config, before.state, before.log, events[i], a);
    assert log[..i + 1][..i] == log[..i];
    if SentLongBefore(config, log[..i + 1], i, a.sequence) {
      assert forall j :: 0 <= j < i ==> log[..i + 1][j] == log[j];
    }
  }
}
