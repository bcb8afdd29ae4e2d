/**
 The writer half of the HEARTBEAT/ACKNACK repair protocol: a bounded history
 whose records are decided one by one and then compacted in place.
 */
module ReliableWriter {
  import opened Bytes
  import opened SerialCount
  import opened SequenceSet
  import opened RtpsTypes
  import opened ReliabilityActions

  datatype Config = Config(readerId: EntityId, writerId: EntityId, maxRepairAttempts: byte, repairWindow: nat,
                           depth: nat, maxPayload: nat)

  datatype Record = Record(sequence: nat, payload: seq<byte>, firstSend: nat, attempts: nat)

  datatype State = State(history: seq<Record>, last: nat, heartbeatCount: i32, lastAckNack: i32, ackNackSeen: bool)

  const INITIAL := State([], 0, 0, 0, false)

  /** A caller's payload: a readable buffer, or a null pointer with a claimed size. */
  datatype Payload = Null(claimed: nat) | Buffer(data: seq<byte>)
  {
    function Size(): nat { if Null? then claimed else |data| }
    function Content(): seq<byte> { if Null? then [] else data }
  }

  datatype Decision = Keep | Deliver | Repair | FailWindow | FailAttempts | Regressed

  datatype Outcome = Outcome(state: State, error: Error, actions: seq<Action>)

  /** What one ACKNACK does to one record. */
  function Decide(config: Config, record: Record, ack: NumberSet, now: nat): (d: Decision)
  {
    if record.sequence < ack.base then Deliver
    else
      var offset := record.sequence - ack.base;
      if offset >= |ack.bits| then Keep
      else if !ack.bits[offset] then Deliver
      else if now < record.firstSend then Regressed
      else if now - record.firstSend >= config.repairWindow then FailWindow
      else if record.attempts >= config.maxRepairAttempts then FailAttempts
      else Repair
  }

  /** What a timer does to one record. */
  function DecideTimer(config: Config, record: Record, now: nat): (d: Decision)
  {
    if now < record.firstSend then Regressed
    else if now - record.firstSend >= config.repairWindow then FailWindow
    else Keep
  }

  /** What a decision leaves of a record; a repaired record counts one more attempt. */
  function Retained(record: Record, decision: Decision): (r: seq<Record>)
  {
    match decision
    case Keep => [record]
    case Repair => [record.(attempts := record.attempts + 1)]
    case _ => []
  }

  /** Those of the first `n` records that stay, in order. */
  function Survivors(history: seq<Record>, decisions: seq<Decision>, n: nat): (kept: seq<Record>)
    requires n <= |history| == |decisions|
    ensures |kept| <= n
  {
    if n == 0 then []
    else Survivors(history, decisions, n - 1) + Retained(history[n - 1], decisions[n - 1])
  }

  /** The action, if any, that a decision emits; a repair points at the slot the record ends up in. */
  function ActionFor(record: Record, decision: Decision, slot: nat): (a: seq<Action>)
  {
    match decision
    case Repair => [RetransmitData(record.sequence, slot, |record.payload|)]
    case Deliver => [SampleDelivered(record.sequence)]
    case FailWindow => [SampleFailed(record.sequence, RepairWindowExpired)]
    case FailAttempts => [SampleFailed(record.sequence, RepairLimitExceeded)]
    case _ => []
  }

  /** The actions of the first `n` records. */
  function Emitted(history: seq<Record>, decisions: seq<Decision>, n: nat): (actions: seq<Action>)
    requires n <= |history| == |decisions|
  {
    if n == 0 then []
    else Emitted(history, decisions, n - 1)
         + ActionFor(history[n - 1], decisions[n - 1], |Survivors(history, decisions, n - 1)|)
  }

  function AckDecisions(config: Config, history: seq<Record>, ack: NumberSet, now: nat): (d: seq<Decision>)
    ensures |d| == |history|
  {
    seq(|history|, i requires 0 <= i < |history| => Decide(config, history[i], ack, now))
  }

  function TimerDecisions(config: Config, history: seq<Record>, now: nat): (d: seq<Decision>)
    ensures |d| == |history|
  {
    seq(|history|, i requires 0 <= i < |history| => DecideTimer(config, history[i], now))
  }

  /** Apply a batch of decisions, or nothing at all when one regressed or the buffer is too small. */
  function Settle(state: State, decisions: seq<Decision>, room: nat): (o: Outcome)
    requires |decisions| == |state.history|
  {
    if Regressed in decisions then Outcome(state, TimeRegression, [])
    else
      var actions := Emitted(state.history, decisions, |decisions|);
      if |actions| > room then Outcome(state, ActionCapacityExceeded, [])
      else Outcome(state.(history := Survivors(state.history, decisions, |decisions|)), NoError, actions)
  }

  function ApplyWrite(config: Config, state: State, payload: Payload, sequence: nat, now: nat, room: nat): (o: Outcome)
  {
    if config.repairWindow == 0 then Outcome(state, InvalidConfiguration, [])
    else if payload.Null? && payload.Size() != 0 then Outcome(state, InvalidArgument, [])
    else if payload.Size() > config.maxPayload then Outcome(state, PayloadTooLarge, [])
    else if !ValidStateSequence(sequence) then Outcome(state, InvalidSequenceNumber, [])
    else if state.last != 0 && sequence <= state.last then Outcome(state, NonMonotonicSequence, [])
    else if |state.history| >= config.depth then Outcome(state, HistoryFull, [])
    else if room == 0 then Outcome(state, ActionCapacityExceeded, [])
    else
      Outcome(state.(history := state.history + [Record(sequence, payload.Content(), now, 0)], last := sequence),
              NoError,
              [SendData(sequence, |state.history|, payload.Size())])
  }

  function ApplyAckNack(config: Config, state: State, ack: AckNack, now: nat, room: nat): (o: Outcome)
  {
    if config.repairWindow == 0 then Outcome(state, InvalidConfiguration, [])
    else if ack.readerId != config.readerId || ack.writerId != config.writerId then Outcome(state, UnexpectedPeer, [])
    else if state.ackNackSeen && !IsNewer(ack.count, state.lastAckNack) then Outcome(state, StaleControl, [])
    else
      var o := Settle(state, AckDecisions(config, state.history, ack.readerState, now), room);
      if o.error.NoError? then o.(state := o.state.(lastAckNack := ack.count, ackNackSeen := true)) else o
  }

  function ApplyTimer(config: Config, state: State, now: nat, room: nat): (o: Outcome)
  {
    if config.repairWindow == 0 then Outcome(state, InvalidConfiguration, [])
    else Settle(state, TimerDecisions(config, state.history, now), room)
  }

  /** The state after filling a heartbeat; only its count changes. */
  function ApplyHeartbeat(config: Config, state: State): (o: Outcome)
  {
    if config.repairWindow == 0 then Outcome(state, InvalidConfiguration, [])
    else Outcome(state.(heartbeatCount := Next(state.heartbeatCount)), NoError, [])
  }

  function FirstHeld(state: State): (s: nat)
  {
    if state.history == [] then state.last + 1 else state.history[0].sequence
  }

  /** The fields a heartbeat filled in this state carries; flags and header stay the caller's. */
  function HeartbeatOf(config: Config, state: State, template: Heartbeat): (h: Heartbeat)
  {
    template.(first := FirstHeld(state), last := state.last, readerId := config.readerId,
              writerId := config.writerId, count := Next(state.heartbeatCount))
  }

  class Writer {
    const config: Config
    const records: array<Record>
    var size: nat
    var last: nat
    var heartbeatCount: i32
    var lastAckNackCount: i32
    var ackNackSeen: bool

    ghost predicate Valid()
      reads this
    {
      records.Length == config.depth && size <= config.depth
    }

    ghost function View(): (s: State)
      requires Valid()
      reads this, records
    {
      State(records[..size], last, heartbeatCount, lastAckNackCount, ackNackSeen)
    }

    constructor (config: Config)
      ensures Valid() && fresh(records) && this.config == config
      ensures View() == INITIAL
    {
      this.config := config;
      records := new Record[config.depth](_ => Record(0, [], 0, 0));
      size, last, heartbeatCount, lastAckNackCount, ackNackSeen := 0, 0, 0, 0, false;
    }

    method Write(payload: Payload, sequence: nat, now: nat, actions: ActionBuffer) returns (error: Error)
      requires Valid() && actions.Valid()
      modifies this, records, actions
      ensures Valid() && actions.Valid()
      ensures var o := old(ApplyWrite(config, View(), payload, sequence, now, actions.Remaining()));
              View() == o.state && error == o.error && actions.items == old(actions.items) + o.actions
    {
      if config.repairWindow == 0 {
        return InvalidConfiguration;
      }
      if payload.Null? && payload.Size() != 0 {
        return InvalidArgument;
      }
      if payload.Size() > config.maxPayload {
        return PayloadTooLarge;
      }
      if !ValidStateSequence(sequence) {
        return InvalidSequenceNumber;
      }
      if last != 0 && sequence <= last {
        return NonMonotonicSequence;
      }
      if size == config.depth {
        return HistoryFull;
      }
      if actions.Remaining() == 0 {
        return ActionCapacityExceeded;
      }
      records[size] := Record(sequence, payload.Content(), now, 0);
      size := size + 1;
      last := sequence;
      var _ := actions.Push(SendData(sequence, size - 1, |records[size - 1].payload|));
      assert records[..size] == old(records[..size]) + [records[size - 1]];
      return NoError;
    }

    /** Move one record to its place, or settle it; `destination` never passes `index`. */
    method Settle(decision: Decision, index: nat, destination: nat, actions: ActionBuffer) returns (next: nat)
      requires Valid() && actions.Valid()
      requires destination <= index < size && decision != Regressed
      requires decision != Keep ==> actions.Remaining() > 0
      modifies records, actions
      ensures actions.Valid()
      ensures next == destination + |Retained(old(records[index]), decision)|
      ensures records[..next] == old(records[..destination]) + Retained(old(records[index]), decision)
      ensures forall k :: index < k < size ==> records[k] == old(records[k])
      ensures actions.items == old(actions.items) + ActionFor(old(records[index]), decision, destination)
    {
      var sequence := records[index].sequence;
      next := destination;
      if decision == Keep || decision == Repair {
        if destination != index {
          records[destination] := records[index];
        }
        if decision == Repair {
          records[destination] := records[destination].(attempts := records[destination].attempts + 1);
          var _ := actions.Push(RetransmitData(sequence, destination, |records[destination].payload|));
        }
        next := destination + 1;
      } else if decision == Deliver {
        var _ := actions.Push(SampleDelivered(sequence));
      } else {
        var _ := actions.Push(SampleFailed(sequence, if decision == FailWindow then RepairWindowExpired
                                                     else RepairLimitExceeded));
      }
    }

    /** The compaction loops' invariant: `index` records are behind, their survivors sit in front of `destination`. */
    ghost predicate Compacting(h: seq<Record>, d: seq<Decision>, before: seq<Action>,
                               index: nat, destination: nat, actions: ActionBuffer)
      reads this, records, actions
    {
      && Valid() && actions.Valid()
      && destination <= index <= size == |h| == |d|
      && records[..destination] == Survivors(h, d, index)
      && (forall k :: index <= k < size ==> records[k] == h[k])
      && actions.items == before + Emitted(h, d, index)
      && |before| + |Emitted(h, d, |h|)| <= actions.capacity
    }

    method CompactStep(decision: Decision, index: nat, destination: nat, actions: ActionBuffer,
                       ghost h: seq<Record>, ghost d: seq<Decision>, ghost before: seq<Action>) returns (next: nat)
      requires Compacting(h, d, before, index, destination, actions)
      requires index < size && decision == d[index] != Regressed
      modifies records, actions
      ensures Compacting(h, d, before, index + 1, next, actions)
    {
      hide Survivors, Emitted;
      CompactionFacts(h, d, before, index);
      next := Settle(decision, index, destination, actions);
    }

    /** Decide every record before touching any; `ok` is false when time ran backwards. */
    method Plan(ack: NumberSet, now: nat, ghost h: seq<Record>, ghost d: seq<Decision>)
      returns (ok: bool, decisions: array<Decision>, required: nat)
      requires Valid()
      requires h == records[..size] && d == AckDecisions(config, h, ack, now)
      ensures ok <==> Regressed !in d
      ensures ok ==> decisions[..] == d && required == |Emitted(h, d, |h|)|
    {
      hide Survivors, Emitted, Decide;
      CompactionStart(h, d);
      decisions := new Decision[size](_ => Keep);
      required := 0;
      for index := 0 to size
        invariant forall k :: 0 <= k < index ==> decisions[k] == d[k] != Regressed
        invariant required == |Emitted(h, d, index)|
      {
        CompactionFacts(h, d, [], index);
        var decision := Decide(config, records[index], ack, now);
        assert decision == d[index];
        if decision == Regressed {
          return false, decisions, required;
        }
        decisions[index] := decision;
        if decision != Keep {
          required := required + 1;
        }
      }
      ok := true;
    }

    method OnAckNack(ack: AckNack, now: nat, actions: ActionBuffer) returns (error: Error)
      requires Valid() && actions.Valid()
      modifies this, records, actions
      ensures Valid() && actions.Valid()
      ensures var o := old(ApplyAckNack(config, View(), ack, now, actions.Remaining()));
              View() == o.state && error == o.error && actions.items == old(actions.items) + o.actions
    {
      if config.repairWindow == 0 {
        return InvalidConfiguration;
      }
      if ack.readerId != config.readerId || ack.writerId != config.writerId {
        return UnexpectedPeer;
      }
      if ackNackSeen && !IsNewer(ack.count, lastAckNackCount) {
        return StaleControl;
      }
      var ok, decisions, required :=
        Plan(ack.readerState, now, records[..size], AckDecisions(config, records[..size], ack.readerState, now));
      if !ok {
        return TimeRegression;
      }
      if required > actions.Remaining() {
        return ActionCapacityExceeded;
      }
      Compact(decisions, actions, records[..size], decisions[..]);
      lastAckNackCount, ackNackSeen := ack.count, true;
      return NoError;
    }

    /** Slide the surviving records to the front of the array, emitting one action per settled record. */
    method Compact(decisions: array<Decision>, actions: ActionBuffer, ghost h: seq<Record>, ghost d: seq<Decision>)
      requires Valid() && actions.Valid()
      requires h == records[..size] && d == decisions[..] && |d| == size && Regressed !in d
      requires |Emitted(h, d, |h|)| <= actions.Remaining()
      modifies this`size, records, actions
      ensures Valid() && actions.Valid()
      ensures records[..size] == Survivors(h, d, |h|)
      ensures actions.items == old(actions.items) + Emitted(h, d, |h|)
    {
      hide Survivors, Emitted;
      CompactionStart(h, d);
      ghost var before := actions.items;
      var destination := 0;
      for index := 0 to size
        invariant Compacting(h, d, before, index, destination, actions)
        invariant decisions[..] == d
      {
        destination := CompactStep(decisions[index], index, destination, actions, h, d, before);
      }
      size := destination;
    }

    /** How many records have outlived the repair window. */
    method CountExpired(now: nat) returns (ok: bool, expired: nat)
      requires Valid()
      ensures ok <==> Regressed !in TimerDecisions(config, records[..size], now)
      ensures ok ==> expired == |Emitted(records[..size], TimerDecisions(config, records[..size], now), size)|
    {
      ghost var h := records[..size];
      ghost var d := TimerDecisions(config, h, now);
      expired := 0;
      for index := 0 to size
        invariant forall k :: 0 <= k < index ==> d[k] != Regressed
        invariant expired == |Emitted(h, d, index)|
      {
        if now < records[index].firstSend {
          assert d[index] == Regressed;
          return false, expired;
        }
        if now - records[index].firstSend >= config.repairWindow {
          expired := expired + 1;
        }
      }
      ok := true;
    }

    /** Drop the expired records, keeping the others in order. */
    method CompactExpired(now: nat, actions: ActionBuffer, ghost h: seq<Record>, ghost d: seq<Decision>)
      requires Valid() && actions.Valid()
      requires h == records[..size] && d == TimerDecisions(config, h, now) && Regressed !in d
      requires |Emitted(h, d, |h|)| <= actions.Remaining()
      modifies this`size, records, actions
      ensures Valid() && actions.Valid()
      ensures records[..size] == Survivors(h, d, |h|)
      ensures actions.items == old(actions.items) + Emitted(h, d, |h|)
    {
      hide Survivors, Emitted;
      CompactionStart(h, d);
      ghost var before := actions.items;
      var destination := 0;
      for index := 0 to size
        invariant Compacting(h, d, before, index, destination, actions)
      {
        assert d[index] in d;
        var decision := if now - records[index].firstSend >= config.repairWindow then FailWindow else Keep;
        destination := CompactStep(decision, index, destination, actions, h, d, before);
      }
      size := destination;
    }

    method OnTimer(now: nat, actions: ActionBuffer) returns (error: Error)
      requires Valid() && actions.Valid()
      modifies this`size, records, actions
      ensures Valid() && actions.Valid()
      ensures var o := old(ApplyTimer(config, View(), now, actions.Remaining()));
              View() == o.state && error == o.error && actions.items == old(actions.items) + o.actions
    {
      if config.repairWindow == 0 {
        return InvalidConfiguration;
      }
      var ok, expired := CountExpired(now);
      if !ok {
        return TimeRegression;
      }
      if expired > actions.Remaining() {
        return ActionCapacityExceeded;
      }
      CompactExpired(now, actions, records[..size], TimerDecisions(config, records[..size], now));
      return NoError;
    }

    method FillHeartbeat(template: Heartbeat) returns (error: Error, heartbeat: Heartbeat)
      requires Valid()
      modifies this`heartbeatCount
      ensures Valid()
      ensures var o := old(ApplyHeartbeat(config, View())); View() == o.state && error == o.error
      ensures heartbeat == if error == NoError then old(HeartbeatOf(config, View(), template)) else template
    {
      if config.repairWindow == 0 {
        return InvalidConfiguration, template;
      }
      heartbeatCount := Next(heartbeatCount);
      heartbeat := template.(first := if size == 0 then last + 1 else records[0].sequence, last := last,
                             readerId := config.readerId, writerId := config.writerId, count := heartbeatCount);
      return NoError, heartbeat;
    }
  }

  lemma CompactionStart(history: seq<Record>, decisions: seq<Decision>)
    requires |history| == |decisions|
    ensures Survivors(history, decisions, 0) == [] && Emitted(history, decisions, 0) == []
  {}

  lemma CompactionFacts(history: seq<Record>, decisions: seq<Decision>, before: seq<Action>, n: nat)
    requires n < |history| == |decisions|
    ensures Survivors(history, decisions, n + 1) == Survivors(history, decisions, n) +
        Retained(history[n], decisions[n])
    ensures var more := ActionFor(history[n], decisions[n], |Survivors(history, decisions, n)|);
            && Emitted(history, decisions, n + 1) == Emitted(history, decisions, n) + more
            && before + Emitted(history, decisions, n) + more == before + Emitted(history, decisions, n + 1)
            && |Emitted(history, decisions, n)| + |more| <= |Emitted(history, decisions, |history|)|
  {
    EmittedGrows(history, decisions, n + 1, |history|);
  }

  lemma {:induction false} EmittedGrows(history: seq<Record>, decisions: seq<Decision>, m: nat, n: nat)
    requires m <= n <= |history| == |decisions|
    ensures |Emitted(history, decisions, m)| <= |Emitted(history, decisions, n)|
    decreases n
  {
    if m < n {
      EmittedGrows(history, decisions, m, n - 1);
    }
  }
}
