/** The circular window refines a base and a set of received numbers, over every run. */
module ReaderRuns {
  import opened SequenceSet
  import opened RtpsTypes
  import opened ReliabilityActions
  import opened ReliableReader

  predicate Distinct(s: seq<nat>)
  {
    forall i, j :: 0 <= i < j < |s| ==> s[i] != s[j]
  }

  /** The state knows that `s` was received. */
  predicate Has(state: State, s: nat)
  {
    s < state.base || (s - state.base < |state.window| && state.window[s - state.base])
  }

  /**
   The abstraction: from the initial number on, the received numbers are those below
   the base and those flagged in the window.
   */
  ghost predicate Refines(config: Config, state: State, received: set<nat>)
  {
    && Sane(config, state.base, state.window)
    && config.initial <= state.base
    && (forall s :: s in received ==> config.initial <= s)
    && (forall s :: config.initial <= s ==> (Has(state, s) <==> s in received))
  }

  lemma HasAfterShift(window: seq<bool>, base: nat, k: nat, s: nat, state: State)
    requires k <= |window| && (forall i :: 0 <= i < k ==> window[i])
    requires state.base == base + k && state.window == Shift(window, k)
    ensures Has(state, s) <==> s < base || (s - base < |window| && window[s - base])
  {
    if state.base <= s < state.base + |window| {
      var i := s - state.base;
      assert state.window[i] == (k + i < |window| && window[k + i]);
    }
  }

  /** Accepting a number adds that number and no other; refusing it changes nothing. */
  lemma DataAddsOne(config: Config, state: State, sequence: nat, room: nat, s: nat)
    requires |state.window| == config.windowBits
    ensures var o := ApplyData(config, state, sequence, room);
            && (Has(o.state, s) <==> Has(state, s) || (o.error == NoError && s == sequence))
            && (o.error == NoError ==> !Has(state, sequence) && o.actions == [SampleReceived(sequence)])
            && (o.error != NoError ==> o.state == state && o.actions == [])
  {
    hide Shift;
    var o := ApplyData(config, state, sequence, room);
    if o.error == NoError {
      var window := state.window[sequence - state.base := true];
      HasAfterShift(window, state.base, Leading(window), s, o.state);
    }
  }

  datatype Event = Data(sequence: nat, room: nat) | HeartbeatIn(heartbeat: Heartbeat, room: nat)

  function Apply(config: Config, state: State, e: Event): (o: Outcome)
    requires |state.window| == config.windowBits
  {
    match e
    case Data(sequence, room) => ApplyData(config, state, sequence, room)
    case HeartbeatIn(heartbeat, room) => ApplyHeartbeat(config, state, heartbeat, room)
  }

  /** The numbers reported as received by a list of actions, in order. */
  function Reported(actions: seq<Action>): (r: seq<nat>)
  {
    if actions == [] then []
    else (if actions[0].SampleReceived? then [actions[0].sequence] else []) + Reported(actions[1..])
  }

  datatype Run = Run(state: State, received: seq<nat>)

  function RunOf(config: Config, events: seq<Event>): (r: Run)
    requires ValidWindow(config)
    ensures |r.state.window| == config.windowBits
  {
    if events == [] then Run(Initial(config), [])
    else
      var before := RunOf(config, events[..|events| - 1]);
      var o := Apply(config, before.state, events[|events| - 1]);
      Run(o.state, before.received + Reported(o.actions))
  }

  function Elements(s: seq<nat>): (e: set<nat>)
  {
    set x | x in s
  }

  lemma StepRefines(config: Config, state: State, received: set<nat>, e: Event)
    requires Refines(config, state, received)
    ensures var o := Apply(config, state, e);
            && Refines(config, o.state, received + Elements(Reported(o.actions)))
            && |Reported(o.actions)| <= 1 && forall s :: s in Reported(o.actions) ==> s !in received
  {
    var o := Apply(config, state, e);
    match e
    case Data(sequence, room) =>
      DataKeepsSane(config, state, sequence, room);
      forall s: nat
        ensures Has(o.state, s) <==> Has(state, s) || (o.error == NoError && s == sequence)
      {
        DataAddsOne(config, state, sequence, room, s);
      }
      DataAddsOne(config, state, sequence, room, sequence);
      if o.error == NoError {
        assert o.actions[1..] == [];
        assert Reported(o.actions) == [sequence];
      }
    case HeartbeatIn(heartbeat, room) =>
      HeartbeatOnlyAnswers(config, state, heartbeat, room);
      assert forall s :: Has(o.state, s) <==> Has(state, s);
  }

  lemma HeartbeatOnlyAnswers(config: Config, state: State, h: Heartbeat, room: nat)
    ensures var o := ApplyHeartbeat(config, state, h, room);
            o.state.base == state.base && o.state.window == state.window && Reported(o.actions) == []
  {
    var o := ApplyHeartbeat(config, state, h, room);
    if o.actions != [] {
      assert o.actions[1..] == [];
    }
  }

  lemma InitialRefines(config: Config)
    requires ValidWindow(config)
    ensures Refines(config, Initial(config), Elements([])) && Distinct([])
  {}

  lemma AppendDistinct(received: seq<nat>, more: seq<nat>)
    requires Distinct(received) && |more| <= 1 && forall s :: s in more ==> s !in Elements(received)
    ensures Distinct(received + more)
    ensures Elements(received + more) == Elements(received) + Elements(more)
  {
    if more != [] {
      assert more[0] in more;
    }
  }

  lemma {:induction false} EveryRunRefines(config: Config, events: seq<Event>)
    requires ValidWindow(config)
    ensures var r := RunOf(config, events); Refines(config, r.state, Elements(r.received)) && Distinct(r.received)
  {
    hide Refines, Apply, Reported, Distinct;
    if events == [] {
      InitialRefines(config);
    } else {
      var n := |events| - 1;
      EveryRunRefines(config, events[..n]);
      var r := RunOf(config, events[..n]);
      StepRefines(config, r.state, Elements(r.received), events[n]);
      AppendDistinct(r.received, Reported(Apply(config, r.state, events[n]).actions));
    }
  }

  /**
   Over every run: each number is reported at most once, everything from the initial
   number up to the base was received, the base was not, and a window flag is set
   exactly for the received numbers.
   */
  lemma WindowIsReceivedSet(config: Config, events: seq<Event>)
    requires ValidWindow(config)
    ensures var r := RunOf(config, events);
            && Distinct(r.received)
            && (forall s :: config.initial <= s < r.state.base ==> s in r.received)
            && r.state.base !in r.received
            && forall i :: 0 <= i < config.windowBits ==> (r.state.window[i] <==> r.state.base + i in r.received)
  {
    hide RunOf, Refines, Distinct;
    EveryRunRefines(config, events);
    var r := RunOf(config, events);
    RefinesMeans(config, r.state, Elements(r.received));
    assert forall s :: s in Elements(r.received) <==> s in r.received;
  }

  lemma RefinesMeans(config: Config, state: State, received: set<nat>)
    requires Refines(config, state, received)
    ensures forall s :: config.initial <= s < state.base ==> s in received
    ensures state.base !in received
    ensures |state.window| == config.windowBits
    ensures forall i :: 0 <= i < config.windowBits ==> (state.window[i] <==> state.base + i in received)
  {
    assert forall s :: config.initial <= s < state.base ==> Has(state, s);
    forall i | 0 <= i < config.windowBits
      ensures state.window[i] <==> state.base + i in received
    {
      assert Has(state, state.base + i) <==> state.window[i];
    }
    assert !Has(state, state.base);
  }

  /** The numbers an ACKNACK set reports as received. */
  predicate Acknowledges(numbers: NumberSet, s: nat)
  {
    s < numbers.base || (s - numbers.base < |numbers.bits| && !numbers.bits[s - numbers.base])
  }

  /** An answer acknowledges only what was received, and asks for everything in reach that was not. */
  lemma AnswersAreTruthful(config: Config, state: State, received: set<nat>, h: Heartbeat, room: nat, s: nat)
    requires Refines(config, state, received) && config.initial <= s
    ensures var o := ApplyHeartbeat(config, state, h, room);
            forall a :: a in o.actions ==>
              && a.SendAckNack? && a.readerState.base == state.base
              && |a.readerState.bits| == Covered(state, h.last)
              && (Acknowledges(a.readerState, s) ==> s in received)
              && (s < state.base + Covered(state, h.last) && s in received ==> Acknowledges(a.readerState, s))
  {
    assert Has(state, s) <==> s in received;
  }
}
