/** When the reliable reader accepts, refuses and answers, said by the set of numbers it has received. */
module ReaderLaws {
  import opened SerialCount
  import opened RtpsTypes
  import opened ReliabilityActions
  import opened ReliableReader
  import opened ReaderRuns

  /** Some number from the initial one up to `end`, exclusive, was never received. */
  ghost predicate MissesBelow(config: Config, received: set<nat>, end: nat)
  {
    exists s :: config.initial <= s < end && s !in received
  }

  /** `m` is the first number from the initial one on that was never received. */
  ghost predicate FirstMissing(config: Config, received: set<nat>, m: nat)
  {
    config.initial <= m && m !in received && !MissesBelow(config, received, m)
  }

  lemma BaseIsFirstMissing(config: Config, state: State, received: set<nat>)
    requires Refines(config, state, received)
    ensures FirstMissing(config, received, state.base)
  {
    RefinesMeans(config, state, received);
  }

  /** The base is past a number exactly when nothing below that number is missing. */
  lemma BelowBase(config: Config, state: State, received: set<nat>, end: nat)
    requires Refines(config, state, received)
    ensures MissesBelow(config, received, end) <==> state.base < end
  {
    hide Refines;
    BaseIsFirstMissing(config, state, received);
  }

  // ---------------------------------------------------------------- DATA

  /** Where a valid number stands with respect to the base and the window decides what becomes of it. */
  lemma DataByPlace(config: Config, state: State, s: nat, room: nat)
    requires |state.window| == config.windowBits && ValidStateSequence(config.initial) && ValidStateSequence(s)
    ensures var e, base := ApplyData(config, state, s, room).error, state.base;
            var acceptable := base <= s < base + config.windowBits && !Has(state, s);
            && (e == StaleData <==> s < base) && (e == ReceiveWindowExceeded <==> s >= base + config.windowBits)
            && (e == DuplicateData <==> base <= s < base + config.windowBits && Has(state, s))
            && (e == ActionCapacityExceeded <==> acceptable && room == 0) && (e == NoError <==> acceptable && room > 0)
  {
    hide Shift, Leading;
  }

  /** A number is accepted exactly when it is new and within a window's length of the first missing one. */
  lemma DataIsExact(config: Config, state: State, received: set<nat>, s: nat, room: nat, m: nat)
    requires Refines(config, state, received) && FirstMissing(config, received, m)
    requires ValidStateSequence(config.initial) && ValidStateSequence(s)
    ensures var e, inReach := ApplyData(config, state, s, room).error, m <= s < m + config.windowBits;
            && (e == StaleData <==> s < m)
            && (e == DuplicateData <==> inReach && s in received)
            && (e == ReceiveWindowExceeded <==> s >= m + config.windowBits)
            && (e == ActionCapacityExceeded <==> inReach && s !in received && room == 0)
            && (e == NoError <==> inReach && s !in received && room > 0)
  {
    hide ApplyData;
    BelowBase(config, state, received, m);
    BelowBase(config, state, received, m + 1);
    DataByPlace(config, state, s, room);
    assert config.initial <= s ==> (Has(state, s) <==> s in received);
  }

  /** Below the first missing number is what was received and what precedes the initial number. */
  lemma StaleIsKnown(config: Config, received: set<nat>, m: nat, s: nat)
    requires FirstMissing(config, received, m) && s < m
    ensures s < config.initial || s in received
  {}

  /** A reader with an invalid initial number refuses everything, and a valid one refuses what is no number. */
  lemma UnusableData(config: Config, state: State, s: nat, room: nat)
    requires |state.window| == config.windowBits
    ensures var e := ApplyData(config, state, s, room).error;
            && (e == InvalidConfiguration <==> !ValidStateSequence(config.initial))
            && (e == InvalidSequenceNumber <==> ValidStateSequence(config.initial) && !ValidStateSequence(s))
  {
    hide Shift, Leading;
  }

  // ---------------------------------------------------------------- HEARTBEAT

  /** The announced range starts at a sequence number and is empty or ends at one. */
  predicate RangeOk(h: Heartbeat)
  {
    1 <= h.first <= 0x7FFF_FFFF_FFFF_FFFF && h.first - 1 <= h.last <= 0x7FFF_FFFF_FFFF_FFFF
  }

  /** Whether a heartbeat gets as far as the window. */
  predicate Heard(config: Config, state: State, h: Heartbeat)
  {
    && ValidStateSequence(config.initial) && RangeOk(h)
    && h.readerId == config.readerId && h.writerId == config.writerId
    && (state.heartbeatSeen ==> IsNewer(h.count, state.lastHeartbeat))
  }

  /**
   A heartbeat that is heard announces a gap that cannot be repaired exactly when something before its first
   number is missing; it is answered exactly when something up to its last number is missing or it asks for it,
   and the answer is final exactly when nothing is.
   */
  lemma HeartbeatIsExact(config: Config, state: State, received: set<nat>, h: Heartbeat, room: nat)
    requires Refines(config, state, received) && Heard(config, state, h)
    ensures var o := ApplyHeartbeat(config, state, h, room);
            var lost, wanted := MissesBelow(config, received, h.first), MissesBelow(config, received, h.last + 1);
            var answers := wanted || !h.finalFlag;
            && (o.error == GapNotRepairable <==> lost)
            && (o.error == ActionCapacityExceeded <==> !lost && answers && room == 0)
            && (o.error == NoError <==> !lost && (answers ==> room > 0))
            && (o.error == NoError ==> |o.actions| == if answers then 1 else 0)
            && (o.error == NoError && answers ==>
                  && o.actions[0].SendAckNack? && o.actions[0].finalFlag == !wanted
                  && o.actions[0].count == Next(state.ackNackCount) == o.state.ackNackCount)
            && (o.error == NoError ==> o.state.heartbeatSeen && o.state.lastHeartbeat == h.count)
            && (o.error == NoError && !answers ==> o.state.ackNackCount == state.ackNackCount)
  {
    hide Refines, MissesBelow, Missing, Covered;
    BelowBase(config, state, received, h.first);
    BelowBase(config, state, received, h.last + 1);
  }

  /** A heartbeat that is not heard is refused for the first of its faults. */
  lemma UnheardHeartbeat(config: Config, state: State, h: Heartbeat, room: nat)
    ensures var e := ApplyHeartbeat(config, state, h, room).error;
            var known := h.readerId == config.readerId && h.writerId == config.writerId;
            var valid := ValidStateSequence(config.initial);
            && (e == InvalidConfiguration <==> !valid)
            && (e == InvalidSequenceNumber <==> valid && !RangeOk(h))
            && (e == UnexpectedPeer <==> valid && RangeOk(h) && !known)
            && (e == StaleControl <==> valid && RangeOk(h) && known && !Heard(config, state, h))
  {}

  /** The count of the last heartbeat that a run accepted. */
  function LastAccepted(config: Config, events: seq<Event>): (count: Option<i32>)
    requires ValidWindow(config)
  {
    if events == [] then None
    else
      var before, e := events[..|events| - 1], events[|events| - 1];
      if e.HeartbeatIn? && Apply(config, RunOf(config, before).state, e).error == NoError then Some(e.heartbeat.count)
      else LastAccepted(config, before)
  }

  lemma StepRemembersCount(config: Config, state: State, e: Event)
    requires |state.window| == config.windowBits
    ensures var o := Apply(config, state, e);
            if e.HeartbeatIn? && o.error == NoError
            then o.state.heartbeatSeen && o.state.lastHeartbeat == e.heartbeat.count
            else o.state.heartbeatSeen == state.heartbeatSeen && o.state.lastHeartbeat == state.lastHeartbeat
  {
    hide Shift, Leading, Missing, Covered;
  }

  /** Staleness is judged against the last accepted heartbeat; refused ones and DATA leave no trace. */
  lemma {:induction false} StaleMeansNotNewer(config: Config, events: seq<Event>)
    requires ValidWindow(config)
    ensures var s := RunOf(config, events).state;
            LastAccepted(config, events) == if s.heartbeatSeen then Some(s.lastHeartbeat) else None
  {
    if events != [] {
      hide Apply;
      var n := |events| - 1;
      StaleMeansNotNewer(config, events[..n]);
      StepRemembersCount(config, RunOf(config, events[..n]).state, events[n]);
    }
  }
}
