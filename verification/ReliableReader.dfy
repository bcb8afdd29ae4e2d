/**
 The reader half of the repair protocol: a window of received flags kept in a
 circular array whose first slot stands for the next expected sequence number.
 */
module ReliableReader {
  import opened Bytes
  import opened SerialCount
  import opened SequenceSet
  import opened RtpsTypes
  import opened ReliabilityActions

  datatype Config = Config(readerId: EntityId, writerId: EntityId, initial: nat, windowBits: nat)

  /** The template's static requirement on the window. */
  predicate ValidWindow(config: Config)
  {
    0 < config.windowBits <= MAXIMUM_BITS
  }

  /** `window[i]` says whether `base + i` has been received. */
  datatype State = State(base: nat, window: seq<bool>, ackNackCount: i32, lastHeartbeat: i32, heartbeatSeen: bool)

  datatype Outcome = Outcome(state: State, error: Error, actions: seq<Action>)

  function Initial(config: Config): (s: State)
  {
    State(config.initial, seq(config.windowBits, _ => false), 0, 0, false)
  }

  /** The number of leading received flags. */
  function Leading(window: seq<bool>): (n: nat)
    ensures n <= |window|
    ensures forall i :: 0 <= i < n ==> window[i]
    ensures n < |window| ==> !window[n]
  {
    if window == [] || !window[0] then 0 else 1 + Leading(window[1..])
  }

  /** Move the window forward by `n` numbers. */
  function Shift(window: seq<bool>, n: nat): (w: seq<bool>)
    requires n <= |window|
    ensures |w| == |window|
  {
    window[n..] + seq(n, _ => false)
  }

  function ApplyData(config: Config, state: State, sequence: nat, room: nat): (o: Outcome)
    requires |state.window| == config.windowBits
  {
    if !ValidStateSequence(config.initial) then Outcome(state, InvalidConfiguration, [])
    else if !ValidStateSequence(sequence) then Outcome(state, InvalidSequenceNumber, [])
    else if sequence < state.base then Outcome(state, StaleData, [])
    else if sequence - state.base >= config.windowBits then Outcome(state, ReceiveWindowExceeded, [])
    else if state.window[sequence - state.base] then Outcome(state, DuplicateData, [])
    else if room == 0 then Outcome(state, ActionCapacityExceeded, [])
    else
      var window := state.window[sequence - state.base := true];
      var n := Leading(window);
      Outcome(state.(base := state.base + n, window := Shift(window, n)), NoError, [SampleReceived(sequence)])
  }

  predicate ValidHeartbeatRange(h: Heartbeat)
  {
    h.first != 0 && h.first <= INT64_MAX && h.last <= INT64_MAX && h.last >= h.first - 1
  }

  /** The numbers an ACKNACK for writer position `last` covers. */
  function Covered(state: State, last: nat): (n: nat)
    ensures n <= |state.window|
  {
    if last < state.base then 0
    else if last - state.base + 1 < |state.window| then last - state.base + 1
    else |state.window|
  }

  /** The set of missing numbers: a bit is set where nothing was received. */
  function Missing(window: seq<bool>, n: nat): (b: seq<bool>)
    requires n <= |window|
    ensures |b| == n
    ensures forall i :: 0 <= i < n ==> b[i] == !window[i]
  {
    seq(n, i requires 0 <= i < n => !window[i])
  }

  function ApplyHeartbeat(config: Config, state: State, h: Heartbeat, room: nat): (o: Outcome)
  {
    if !ValidStateSequence(config.initial) then Outcome(state, InvalidConfiguration, [])
    else if !ValidHeartbeatRange(h) then Outcome(state, InvalidSequenceNumber, [])
    else if h.readerId != config.readerId || h.writerId != config.writerId then Outcome(state, UnexpectedPeer, [])
    else if state.heartbeatSeen && !IsNewer(h.count, state.lastHeartbeat) then Outcome(state, StaleControl, [])
    else if h.last >= state.base && h.first > state.base then Outcome(state, GapNotRepairable, [])
    else
      var covers := h.last >= state.base;
      var respond := covers || !h.finalFlag;
      if respond && room == 0 then Outcome(state, ActionCapacityExceeded, [])
      else
        var seen := state.(lastHeartbeat := h.count, heartbeatSeen := true);
        if !respond then Outcome(seen, NoError, [])
        else
          var count := Next(state.ackNackCount);
          Outcome(seen.(ackNackCount := count), NoError,
                  [SendAckNack(NumberSet(state.base, Missing(state.window, Covered(state, h.last))), count, !covers)])
  }

  /** What every reachable reader keeps: its base is a sequence number not yet received, as is anything too large. */
  predicate Sane(config: Config, base: nat, window: seq<bool>)
  {
    && ValidWindow(config) && |window| == config.windowBits && !window[0]
    && (ValidStateSequence(config.initial) ==>
          ValidSequenceNumber(base) && forall i :: 0 <= i < |window| && window[i] ==> base + i < INT64_MAX)
  }

  lemma DataKeepsSane(config: Config, state: State, sequence: nat, room: nat)
    requires Sane(config, state.base, state.window)
    ensures var s := ApplyData(config, state, sequence, room).state; Sane(config, s.base, s.window)
  {
    var o := ApplyData(config, state, sequence, room);
    if o.error == NoError {
      var window := state.window[sequence - state.base := true];
      var n := Leading(window);
      assert n > 0 ==> window[n - 1];
      assert forall i :: 0 <= i < |window| && o.state.window[i] ==> window[n + i];
    }
  }

  /** A circular array read from slot `k`. */
  function Rotate(slots: seq<bool>, k: nat): (w: seq<bool>)
    requires k <= |slots|
    ensures |w| == |slots|
  {
    slots[k..] + slots[..k]
  }

  function SlotOf(k: nat, offset: nat, n: nat): (s: nat)
    requires k < n && offset < n
    ensures s < n
    ensures s == if k + offset < n then k + offset else k + offset - n
  {
    WrapIndex(k + offset, n);
    (k + offset) % n
  }

  lemma WrapIndex(i: nat, n: nat)
    requires 0 < n && i < 2 * n
    ensures i % n == if i < n then i else i - n
  {
    if i < n {
      DivUnique(i, n, 0, i);
    } else {
      DivUnique(i, n, 1, i - n);
    }
  }

  lemma RotateAt(slots: seq<bool>, k: nat, offset: nat)
    requires k < |slots| && offset < |slots|
    ensures Rotate(slots, k)[offset] == slots[SlotOf(k, offset, |slots|)]
  {}

  lemma RotateMark(slots: seq<bool>, k: nat, offset: nat)
    requires k < |slots| && offset < |slots|
    ensures Rotate(slots[SlotOf(k, offset, |slots|) := true], k) == Rotate(slots, k)[offset := true]
  {}

  lemma RotateNext(slots: seq<bool>, k: nat)
    requires k < |slots|
    ensures var next := if k + 1 == |slots| then 0 else k + 1;
            Rotate(slots[k := false], next) == Rotate(slots, k)[1..] + [false]
  {}

  class Reader {
    const config: Config
    const received: array<bool>
    var base: nat
    var baseIndex: nat
    var ackNackCount: i32
    var lastHeartbeatCount: i32
    var heartbeatSeen: bool

    ghost predicate Shaped()
      reads this
    {
      ValidWindow(config) && received.Length == config.windowBits && baseIndex < config.windowBits
    }

    ghost predicate Valid()
      reads this, received
    {
      Shaped() && Sane(config, base, Window())
    }

    ghost function Window(): (w: seq<bool>)
      requires Shaped()
      reads this, received
      ensures |w| == config.windowBits
    {
      Rotate(received[..], baseIndex)
    }

    ghost function View(): (s: State)
      requires Shaped()
      reads this, received
    {
      State(base, Window(), ackNackCount, lastHeartbeatCount, heartbeatSeen)
    }

    /** The flag of the number `offset` past the base. */
    predicate Received(offset: nat)
      requires Shaped() && offset < config.windowBits
      reads this, received
      ensures Received(offset) == Window()[offset]
    {
      RotateAt(received[..], baseIndex, offset);
      received[SlotOf(baseIndex, offset, config.windowBits)]
    }

    constructor (config: Config)
      requires ValidWindow(config)
      ensures Valid() && fresh(received) && this.config == config
      ensures View() == Initial(config)
    {
      this.config := config;
      received := new bool[config.windowBits](_ => false);
      base, baseIndex, ackNackCount, lastHeartbeatCount, heartbeatSeen := config.initial, 0, 0, 0, false;
    }

    method Mark(offset: nat)
      requires Shaped() && offset < config.windowBits
      modifies received
      ensures Window() == old(Window())[offset := true]
    {
      var slot := SlotOf(baseIndex, offset, config.windowBits);
      RotateMark(received[..], baseIndex, offset);
      received[slot] := true;
      assert received[..] == old(received[..])[slot := true];
    }

    /** Drop the base slot and reuse it for the number one window ahead. */
    method AdvanceOne()
      requires Shaped()
      modifies this`baseIndex, this`base, received
      ensures Shaped() && base == old(base) + 1
      ensures Window() == old(Window())[1..] + [false]
    {
      RotateNext(received[..], baseIndex);
      WrapIndex(baseIndex + 1, config.windowBits);
      received[baseIndex] := false;
      assert received[..] == old(received[..])[baseIndex := false];
      baseIndex := (baseIndex + 1) % config.windowBits;
      base := base + 1;
    }

    /** Advance past every received number; this ends even when the whole window was received. */
    method Advance()
      requires Shaped()
      modifies this`baseIndex, this`base, received
      ensures Shaped()
      ensures var n := Leading(old(Window()));
              base == old(base) + n && Window() == Shift(old(Window()), n)
    {
      hide Shift, Leading;
      ghost var w, start := Window(), base;
      ShiftNone(w);
      ghost var k := 0;
      while received[baseIndex]
        invariant Shaped() && k <= |w| && base == start + k
        invariant forall i :: 0 <= i < k ==> w[i]
        invariant Window() == Shift(w, k)
        decreases |w| - k
      {
        ShiftNext(w, k);
        AdvanceOne();
        k := k + 1;
      }
      ShiftNext(w, k);
      LeadingIs(w, k);
    }

    method OnData(sequence: nat, actions: ActionBuffer) returns (error: Error)
      requires Valid() && actions.Valid()
      modifies this, received, actions
      ensures Valid() && actions.Valid()
      ensures var o := old(ApplyData(config, View(), sequence, actions.Remaining()));
              View() == o.state && error == o.error && actions.items == old(actions.items) + o.actions
    {
      if !ValidStateSequence(config.initial) {
        return InvalidConfiguration;
      }
      if !ValidStateSequence(sequence) {
        return InvalidSequenceNumber;
      }
      if sequence < base {
        return StaleData;
      }
      var offset := sequence - base;
      if offset >= config.windowBits {
        return ReceiveWindowExceeded;
      }
      if Received(offset) {
        return DuplicateData;
      }
      if actions.Remaining() == 0 {
        return ActionCapacityExceeded;
      }
      DataKeepsSane(config, View(), sequence, actions.Remaining());
      Mark(offset);
      var _ := actions.Push(SampleReceived(sequence));
      Advance();
      return NoError;
    }

    /** The set of missing numbers; neither `reset` nor any `set` can fail here. */
    method MissingSet(last: nat) returns (missing: NumberSet)
      requires Valid() && ValidStateSequence(config.initial) && last <= INT64_MAX
      ensures missing == NumberSet(base, Missing(Window(), Covered(View(), last)))
    {
      var readerState := new SequenceNumberSet();
      if last < base {
        var ok := readerState.Reset(base, 0);
        assert ok;
      } else {
        var available := last - base + 1;
        var numBits := if available < config.windowBits then available else config.windowBits;
        var ok := readerState.Reset(base, numBits);
        assert ok;
        FillMissing(readerState, numBits);
      }
      missing := readerState.Copy();
      assert missing.bits == Missing(Window(), Covered(View(), last));
    }

    method FillMissing(readerState: SequenceNumberSet, numBits: nat)
      requires Shaped() && readerState.Valid() && numBits <= config.windowBits
      requires readerState.View().bits == seq(numBits, _ => false)
      modifies readerState.bitmap
      ensures readerState.Valid()
      ensures readerState.View() == NumberSet(old(readerState.View().base), Missing(Window(), numBits))
    {
      hide Packed, MemberBits;
      ghost var window := Window();
      for offset := 0 to numBits
        invariant Shaped() && Window() == window && readerState.Valid()
        invariant readerState.View().base == old(readerState.View().base) && |readerState.View().bits| == numBits
        invariant forall i :: 0 <= i < numBits ==> readerState.View().bits[i] == (i < offset && !window[i])
      {
        if !Received(offset) {
          var ok := readerState.Set(offset);
          assert ok;
        }
      }
      assert readerState.View().bits == Missing(window, numBits);
    }

    method OnHeartbeat(heartbeat: Heartbeat, actions: ActionBuffer) returns (error: Error)
      requires Valid() && actions.Valid()
      modifies this, actions
      ensures Valid() && actions.Valid()
      ensures var o := old(ApplyHeartbeat(config, View(), heartbeat, actions.Remaining()));
              View() == o.state && error == o.error && actions.items == old(actions.items) + o.actions
    {
      if !ValidStateSequence(config.initial) {
        return InvalidConfiguration;
      }
      if !ValidHeartbeatRange(heartbeat) {
        return InvalidSequenceNumber;
      }
      if heartbeat.readerId != config.readerId || heartbeat.writerId != config.writerId {
        return UnexpectedPeer;
      }
      if heartbeatSeen && !IsNewer(heartbeat.count, lastHeartbeatCount) {
        return StaleControl;
      }
      if heartbeat.last >= base && heartbeat.first > base {
        return GapNotRepairable;
      }
      var covers := heartbeat.last >= base;
      var respond := covers || !heartbeat.finalFlag;
      if respond && actions.Remaining() == 0 {
        return ActionCapacityExceeded;
      }
      if respond {
        var missing := MissingSet(heartbeat.last);
        var count := Next(ackNackCount);
        var _ := actions.Push(SendAckNack(missing, count, !covers));
        ackNackCount := count;
      }
      lastHeartbeatCount, heartbeatSeen := heartbeat.count, true;
      return NoError;
    }
  }

  lemma ShiftNone(window: seq<bool>)
    ensures Shift(window, 0) == window
  {}

  lemma ShiftNext(window: seq<bool>, k: nat)
    requires k <= |window| && 0 < |window|
    ensures Shift(window, k)[0] == (k < |window| && window[k])
    ensures k < |window| ==> Shift(window, k)[1..] + [false] == Shift(window, k + 1)
  {}

  lemma {:induction false} LeadingIs(window: seq<bool>, n: nat)
    requires n <= |window| && (forall i :: 0 <= i < n ==> window[i]) && (n < |window| ==> !window[n])
    ensures Leading(window) == n
  {
    if n > 0 {
      LeadingIs(window[1..], n - 1);
    }
  }
}
