/** What the reliable writer keeps over every run: conservation of samples and bounded repair. */
module WriterRuns {
  import Bytes
  import opened SerialCount
  import opened SequenceSet
  import opened RtpsTypes
  import opened ReliabilityActions
  import opened ReliableWriter

  // ---------------------------------------------------------------- compaction

  predicate Ascending(history: seq<Record>)
  {
    forall i, j :: 0 <= i < j < |history| ==> history[i].sequence < history[j].sequence
  }

  /** A survivor is exactly what some decision retained. */
  lemma {:induction false} SurvivorsAreRetained(h: seq<Record>, d: seq<Decision>, n: nat, r: Record)
    requires n <= |h| == |d|
    ensures r in Survivors(h, d, n) <==> exists i :: 0 <= i < n && r in Retained(h[i], d[i])
  {
    hide Survivors, Emitted, Retained;
    CompactionStart(h, d);
    if n > 0 {
      SurvivorsAreRetained(h, d, n - 1, r);
      CompactionFacts(h, d, [], n - 1);
    }
  }

  /** Compaction keeps the order of the sequence numbers. */
  lemma {:induction false} SurvivorsAscend(h: seq<Record>, d: seq<Decision>, n: nat)
    requires n <= |h| == |d| && Ascending(h)
    ensures Ascending(Survivors(h, d, n))
    ensures forall k :: 0 <= k < |Survivors(h, d, n)| ==>
              exists i :: 0 <= i < n && Survivors(h, d, n)[k].sequence == h[i].sequence
  {
    if n > 0 {
      SurvivorsAscend(h, d, n - 1);
      var s := Survivors(h, d, n - 1);
      assert forall k :: 0 <= k < |s| ==> s[k].sequence < h[n - 1].sequence;
      assert Survivors(h, d, n) == s + Retained(h[n - 1], d[n - 1]);
    }
  }

  /**
   Every retransmit pointer addresses, once compaction is over, the very payload
   that was in the history under that sequence number before it began.
   */
  lemma {:induction false} PointersStayGood(h: seq<Record>, d: seq<Decision>, n: nat, m: nat, a: Action)
    requires n <= m <= |h| == |d|
    requires a in Emitted(h, d, n) && a.RetransmitData?
    ensures a.slot < |Survivors(h, d, m)|
    ensures var held := Survivors(h, d, m)[a.slot];
            && held.sequence == a.sequence && |held.payload| == a.size
            && exists i :: 0 <= i < n && d[i] == Repair && held == h[i].(attempts := h[i].attempts + 1)
    decreases m
  {
    hide Survivors, Emitted;
    if n < m {
      PointersStayGood(h, d, n, m - 1, a);
      CompactionFacts(h, d, [], m - 1);
    } else {
      CompactionStart(h, d);
      EmittedStep(h, d, n - 1, a);
      CompactionFacts(h, d, [], n - 1);
      if a in Emitted(h, d, n - 1) {
        PointersStayGood(h, d, n - 1, n - 1, a);
      }
    }
  }

  lemma EmittedStep(h: seq<Record>, d: seq<Decision>, n: nat, a: Action)
    requires n < |h| == |d|
    ensures a in Emitted(h, d, n + 1)
            <==> a in Emitted(h, d, n) || a in ActionFor(h[n], d[n], |Survivors(h, d, n)|)
  {}

  // ---------------------------------------------------------------- counting actions

  datatype Kind = Sent | Resent | Terminal

  predicate IsAbout(a: Action, kind: Kind, s: nat)
  {
    match kind
    case Sent => a.SendData? && a.sequence == s
    case Resent => a.RetransmitData? && a.sequence == s
    case Terminal => (a.SampleDelivered? || a.SampleFailed?) && a.sequence == s
  }

  function Count(actions: seq<Action>, kind: Kind, s: nat): (n: nat)
  {
    if actions == [] then 0
    else Count(actions[..|actions| - 1], kind, s) + (if IsAbout(actions[|actions| - 1], kind, s) then 1 else 0)
  }

  lemma CountAppend(actions: seq<Action>, a: Action, kind: Kind, s: nat)
    ensures Count(actions + [a], kind, s) == Count(actions, kind, s) + (if IsAbout(a, kind, s) then 1 else 0)
  {
    assert (actions + [a])[..|actions|] == actions;
  }

  lemma {:induction false} CountZero(actions: seq<Action>, kind: Kind, s: nat)
    ensures Count(actions, kind, s) == 0 <==> forall a :: a in actions ==> !IsAbout(a, kind, s)
  {
    if actions != [] {
      var rest, last := actions[..|actions| - 1], actions[|actions| - 1];
      CountZero(rest, kind, s);
      assert actions == rest + [last];
    }
  }

  /** How many of the first `n` records carry sequence number `s`. */
  function Held(h: seq<Record>, n: nat, s: nat): (c: nat)
    requires n <= |h|
  {
    if n == 0 then 0 else Held(h, n - 1, s) + (if h[n - 1].sequence == s then 1 else 0)
  }

  lemma {:induction false} HeldAppend(h: seq<Record>, r: seq<Record>, n: nat, s: nat)
    requires n <= |h|
    ensures Held(h + r, n, s) == Held(h, n, s)
  {
    if n > 0 {
      HeldAppend(h, r, n - 1, s);
    }
  }

  lemma {:induction false} HeldZero(h: seq<Record>, n: nat, s: nat)
    requires n <= |h| && forall i :: 0 <= i < n ==> h[i].sequence != s
    ensures Held(h, n, s) == 0
  {
    if n > 0 {
      HeldZero(h, n - 1, s);
    }
  }

  lemma {:induction false} HeldOnce(h: seq<Record>, n: nat, i: nat)
    requires i < n <= |h| && Ascending(h)
    ensures Held(h, n, h[i].sequence) == 1
  {
    if i == n - 1 {
      HeldZero(h, n - 1, h[i].sequence);
    } else {
      HeldOnce(h, n - 1, i);
    }
  }

  /** One more record: its action and what is left of it. */
  lemma CompactionStep(h: seq<Record>, d: seq<Decision>, n: nat, kind: Kind, s: nat)
    requires n < |h| == |d|
    ensures var act := ActionFor(h[n], d[n], |Survivors(h, d, n)|);
            Count(Emitted(h, d, n + 1), kind, s)
            == Count(Emitted(h, d, n), kind, s) + (if act != [] && IsAbout(act[0], kind, s) then 1 else 0)
    ensures var kept, kept' := Survivors(h, d, n), Survivors(h, d, n + 1);
            Held(kept', |kept'|, s)
            == Held(kept, |kept|, s) + (if Retained(h[n], d[n]) != [] && h[n].sequence == s then 1 else 0)
    ensures Held(h, n + 1, s) == Held(h, n, s) + (if h[n].sequence == s then 1 else 0)
  {
    hide Survivors, Emitted, Count;
    CompactionFacts(h, d, [], n);
    var kept, more := Survivors(h, d, n), Retained(h[n], d[n]);
    var emitted, act := Emitted(h, d, n), ActionFor(h[n], d[n], |kept|);
    if act == [] {
      assert emitted + act == emitted;
    } else {
      CountAppend(emitted, act[0], kind, s);
      assert act == [act[0]];
    }
    HeldAppend(kept, more, |kept|, s);
    if more == [] {
      assert kept + more == kept;
    }
  }

  lemma CompactionBase(h: seq<Record>, d: seq<Decision>, kind: Kind, s: nat)
    requires |h| == |d|
    ensures Survivors(h, d, 0) == [] && Emitted(h, d, 0) == []
    ensures Count([], kind, s) == 0 && Held(h, 0, s) == 0 && Held([], 0, s) == 0
  {}

  /** What compaction takes out of the history it reports, once each. */
  lemma {:induction false} CompactionConserves(h: seq<Record>, d: seq<Decision>, n: nat, s: nat)
    requires n <= |h| == |d| && Regressed !in d
    ensures Count(Emitted(h, d, n), Terminal, s) + Held(Survivors(h, d, n), |Survivors(h, d, n)|, s) == Held(h, n, s)
    ensures Count(Emitted(h, d, n), Sent, s) == 0
  {
    hide Count, Emitted, Survivors, Held;
    if n == 0 {
      CompactionBase(h, d, Terminal, s);
      CompactionBase(h, d, Sent, s);
    } else {
      CompactionConserves(h, d, n - 1, s);
      CompactionStep(h, d, n - 1, Terminal, s);
      CompactionStep(h, d, n - 1, Sent, s);
      assert d[n - 1] in d;
    }
  }

  /** A record is retransmitted once when its decision is repair, and not otherwise. */
  lemma {:induction false} ResentByDecision(h: seq<Record>, d: seq<Decision>, n: nat, i: nat)
    requires n <= |h| == |d| && i < |h| && Ascending(h)
    ensures Count(Emitted(h, d, n), Resent, h[i].sequence) == if i < n && d[i] == Repair then 1 else 0
  {
    hide Count, Emitted, Survivors, Held;
    if n == 0 {
      CompactionBase(h, d, Resent, h[i].sequence);
    } else {
      ResentByDecision(h, d, n - 1, i);
      CompactionStep(h, d, n - 1, Resent, h[i].sequence);
      assert i != n - 1 ==> h[i].sequence != h[n - 1].sequence;
    }
  }

  lemma {:induction false} NotResentUnlessHeld(h: seq<Record>, d: seq<Decision>, n: nat, s: nat)
    requires n <= |h| == |d| && forall i :: 0 <= i < |h| ==> h[i].sequence != s
    ensures Count(Emitted(h, d, n), Resent, s) == 0
  {
    hide Count, Emitted, Survivors, Held;
    if n == 0 {
      CompactionBase(h, d, Resent, s);
    } else {
      NotResentUnlessHeld(h, d, n - 1, s);
      CompactionStep(h, d, n - 1, Resent, s);
    }
  }

  // ---------------------------------------------------------------- runs

  datatype Event =
    | Write(payload: Payload, sequence: nat, now: nat, room: nat)
    | AckNacked(ack: AckNack, now: nat, room: nat)
    | Timer(now: nat, room: nat)
    | FillHeartbeat(now: nat)

  function Apply(config: Config, state: State, e: Event): (o: Outcome)
  {
    match e
    case Write(payload, sequence, now, room) => ApplyWrite(config, state, payload, sequence, now, room)
    case AckNacked(ack, now, room) => ApplyAckNack(config, state, ack, now, room)
    case Timer(now, room) => ApplyTimer(config, state, now, room)
    case FillHeartbeat(_) => ApplyHeartbeat(config, state)
  }

  /** The actions of one call, with the time the caller gave it. */
  datatype Batch = Batch(time: nat, actions: seq<Action>)

  datatype Run = Run(state: State, log: seq<Batch>)

  function RunOf(config: Config, events: seq<Event>): (r: Run)
    ensures |r.log| == |events|
  {
    if events == [] then Run(INITIAL, [])
    else
      var before, e := RunOf(config, events[..|events| - 1]), events[|events| - 1];
      var o := Apply(config, before.state, e);
      Run(o.state, before.log + [Batch(e.now, o.actions)])
  }

  function Total(log: seq<Batch>, kind: Kind, s: nat): (n: nat)
  {
    if log == [] then 0
    else Total(log[..|log| - 1], kind, s) + Count(log[|log| - 1].actions, kind, s)
  }

  lemma TotalAppend(log: seq<Batch>, b: Batch, kind: Kind, s: nat)
    ensures Total(log + [b], kind, s) == Total(log, kind, s) + Count(b.actions, kind, s)
  {
    assert (log + [b])[..|log|] == log;
  }

  lemma {:induction false} TotalZero(log: seq<Batch>, kind: Kind, s: nat)
    ensures Total(log, kind, s) == 0
            <==> forall i, a :: 0 <= i < |log| && a in log[i].actions ==> !IsAbout(a, kind, s)
  {
    if log != [] {
      var rest, last := log[..|log| - 1], log[|log| - 1];
      TotalZero(rest, kind, s);
      CountZero(last.actions, kind, s);
      assert log == rest + [last];
    }
  }

  /** A history is ascending, bounded by the last sequence number, and made of valid numbers. */
  predicate WellFormed(config: Config, state: State)
  {
    && |state.history| <= config.depth
    && Ascending(state.history)
    && (state.last != 0 ==> ValidStateSequence(state.last))
    && forall i :: 0 <= i < |state.history| ==> 0 < state.history[i].sequence <= state.last
  }

  lemma AckDecisionsSound(config: Config, h: seq<Record>, ack: NumberSet, now: nat)
    ensures Sound(config, h, AckDecisions(config, h, ack, now), now)
  {}

  /** Only a record inside its attempt limit and its time window is ever repaired. */
  predicate Sound(config: Config, h: seq<Record>, d: seq<Decision>, now: nat)
    requires |h| == |d|
  {
    forall i :: 0 <= i < |h| && d[i] == Repair ==>
      h[i].attempts < config.maxRepairAttempts && h[i].firstSend <= now < h[i].firstSend + config.repairWindow
  }

  /** Every batch in which `s` was sent carries time `t`. */
  predicate SentAt(log: seq<Batch>, s: nat, t: nat)
  {
    forall i, a :: 0 <= i < |log| && a in log[i].actions && IsAbout(a, Sent, s) ==> log[i].time == t
  }

  /** No retransmission precedes its sample or comes once the window has elapsed. */
  predicate InWindow(config: Config, log: seq<Batch>)
  {
    forall i, j, a, b :: 0 <= i < |log| && 0 <= j < |log| && a in log[i].actions && b in log[j].actions &&
                         a.SendData? && b.RetransmitData? && a.sequence == b.sequence
                         ==> log[i].time <= log[j].time < log[i].time + config.repairWindow
  }

  /** The run invariant. */
  ghost predicate Conserved(config: Config, state: State, log: seq<Batch>)
  {
    && WellFormed(config, state)
    && (forall s: nat :: Total(log, Sent, s) == Total(log, Terminal, s) + Held(state.history, |state.history|, s))
    && (forall s: nat :: Total(log, Sent, s) <= 1)
    && (forall s: nat :: s > state.last ==> Total(log, Sent, s) == 0 && Total(log, Resent, s) == 0)
    && (forall s: nat :: Total(log, Resent, s) <= config.maxRepairAttempts)
    && (forall r :: r in state.history ==> Total(log, Resent, r.sequence) == r.attempts)
    && (forall r :: r in state.history ==> SentAt(log, r.sequence, r.firstSend))
    && InWindow(config, log)
  }

  lemma SettleKeepsCounts(config: Config, state: State, log: seq<Batch>, d: seq<Decision>, now: nat, s: nat)
    requires Conserved(config, state, log)
    requires |d| == |state.history| && Regressed !in d && Sound(config, state.history, d, now)
    ensures var h := Survivors(state.history, d, |d|);
            var log' := log + [Batch(now, Emitted(state.history, d, |d|))];
            && Total(log', Sent, s) == Total(log, Sent, s) == Total(log', Terminal, s) + Held(h, |h|, s)
            && Total(log', Resent, s) <= config.maxRepairAttempts
            && (s > state.last ==> Total(log', Resent, s) == 0)
  {
    hide Emitted, Survivors, Count, Held, Total;
    var h, b := state.history, Batch(now, Emitted(state.history, d, |d|));
    TotalAppend(log, b, Sent, s);
    TotalAppend(log, b, Terminal, s);
    TotalAppend(log, b, Resent, s);
    CompactionConserves(h, d, |d|, s);
    if i :| 0 <= i < |h| && h[i].sequence == s {
      ResentByDecision(h, d, |d|, i);
      assert h[i] in h;
    } else {
      NotResentUnlessHeld(h, d, |d|, s);
    }
  }

  lemma SettleKeepsRecords(config: Config, state: State, log: seq<Batch>, d: seq<Decision>, now: nat, r: Record)
    requires Conserved(config, state, log)
    requires |d| == |state.history| && Regressed !in d
    requires r in Survivors(state.history, d, |d|)
    ensures var log' := log + [Batch(now, Emitted(state.history, d, |d|))];
            Total(log', Resent, r.sequence) == r.attempts && SentAt(log', r.sequence, r.firstSend)
  {
    hide Emitted, Survivors, Count, Held, Total;
    var h, b := state.history, Batch(now, Emitted(state.history, d, |d|));
    SurvivorsAreRetained(h, d, |d|, r);
    var i :| 0 <= i < |d| && r in Retained(h[i], d[i]);
    ResentByDecision(h, d, |d|, i);
    TotalAppend(log, b, Resent, r.sequence);
    CompactionConserves(h, d, |d|, r.sequence);
    CountZero(b.actions, Sent, r.sequence);
    assert h[i] in h;
  }

  lemma {:induction false} ResentIsDecided(h: seq<Record>, d: seq<Decision>, n: nat, a: Action)
    requires n <= |h| == |d| && a in Emitted(h, d, n)
    ensures !a.SendData?
    ensures a.RetransmitData? ==> exists i :: 0 <= i < n && d[i] == Repair && h[i].sequence == a.sequence
  {
    hide Emitted, Survivors;
    CompactionStart(h, d);
    EmittedStep(h, d, n - 1, a);
    if a in Emitted(h, d, n - 1) {
      ResentIsDecided(h, d, n - 1, a);
    }
  }

  lemma SettleStaysInWindow(config: Config, state: State, log: seq<Batch>, d: seq<Decision>, now: nat)
    requires Conserved(config, state, log)
    requires |d| == |state.history| && Regressed !in d && Sound(config, state.history, d, now)
    ensures InWindow(config, log + [Batch(now, Emitted(state.history, d, |d|))])
  {
    hide Emitted, Survivors, Count, Held, Total;
    var h, b := state.history, Batch(now, Emitted(state.history, d, |d|));
    var log' := log + [b];
    forall i, j, x, y | 0 <= i < |log'| && 0 <= j < |log'| && x in log'[i].actions && y in log'[j].actions &&
                        x.SendData? && y.RetransmitData? && x.sequence == y.sequence
      ensures log'[i].time <= log'[j].time < log'[i].time + config.repairWindow
    {
      if i == |log| {
        ResentIsDecided(h, d, |d|, x);
      } else if j == |log| {
        ResentIsDecided(h, d, |d|, y);
        var k :| 0 <= k < |d| && d[k] == Repair && h[k].sequence == y.sequence;
        assert h[k] in h && SentAt(log, y.sequence, h[k].firstSend) && IsAbout(x, Sent, y.sequence);
      }
    }
  }

  lemma SettleConserves(config: Config, state: State, log: seq<Batch>, d: seq<Decision>, now: nat, last: i32,
                        seen: bool)
    requires Conserved(config, state, log)
    requires |d| == |state.history| && Regressed !in d && Sound(config, state.history, d, now)
    ensures Conserved(config,
                      state.(history := Survivors(state.history, d, |d|), lastAckNack := last, ackNackSeen := seen),
                      log + [Batch(now, Emitted(state.history, d, |d|))])
  {
    hide Emitted, Survivors, Count, Held, Total;
    var h := Survivors(state.history, d, |d|);
    var log' := log + [Batch(now, Emitted(state.history, d, |d|))];
    SurvivorsAscend(state.history, d, |d|);
    forall s: nat
      ensures Total(log', Sent, s) == Total(log, Sent, s) == Total(log', Terminal, s) + Held(h, |h|, s)
      ensures Total(log', Resent, s) <= config.maxRepairAttempts
      ensures s > state.last ==> Total(log', Resent, s) == 0
    {
      SettleKeepsCounts(config, state, log, d, now, s);
    }
    forall r | r in h
      ensures Total(log', Resent, r.sequence) == r.attempts && SentAt(log', r.sequence, r.firstSend)
    {
      SettleKeepsRecords(config, state, log, d, now, r);
    }
    SettleStaysInWindow(config, state, log, d, now);
  }

  lemma QuietConserves(config: Config, state: State, log: seq<Batch>, now: nat, count: i32)
    requires Conserved(config, state, log)
    ensures Conserved(config, state.(heartbeatCount := count), log + [Batch(now, [])])
  {
    hide Count, Held, Total;
    var b := Batch(now, []);
    forall s: nat, kind: Kind ensures Total(log + [b], kind, s) == Total(log, kind, s) {
      TotalAppend(log, b, kind, s);
      CountZero([], kind, s);
    }
  }

  lemma WriteCounts(config: Config, state: State, log: seq<Batch>, r: Record, b: Batch, slot: nat, size: nat, s: nat)
    requires Conserved(config, state, log) && r.sequence > state.last
    requires b.actions == [SendData(r.sequence, slot, size)]
    ensures var h := state.history + [r];
            && Total(log + [b], Sent, s) == Total(log, Sent, s) + (if s == r.sequence then 1 else 0)
            && Total(log + [b], Resent, s) == Total(log, Resent, s)
            && Total(log + [b], Terminal, s) == Total(log, Terminal, s)
            && Held(h, |h|, s) == Held(state.history, |state.history|, s) + (if s == r.sequence then 1 else 0)
  {
    TotalAppend(log, b, Sent, s);
    TotalAppend(log, b, Resent, s);
    TotalAppend(log, b, Terminal, s);
    forall kind: Kind { CountAppend([], b.actions[0], kind, s); }
    assert [] + b.actions == b.actions;
    HeldAppend(state.history, [r], |state.history|, s);
  }

  lemma WriteConserves(config: Config, state: State, log: seq<Batch>, r: Record, slot: nat, size: nat)
    requires Conserved(config, state, log)
    requires r.sequence > state.last && ValidStateSequence(r.sequence) && r.attempts == 0
    requires |state.history| < config.depth
    ensures Conserved(config, state.(history := state.history + [r], last := r.sequence),
                      log + [Batch(r.firstSend, [SendData(r.sequence, slot, size)])])
  {
    hide Count, Held, Total;
    var b := Batch(r.firstSend, [SendData(r.sequence, slot, size)]);
    var h, log' := state.history + [r], log + [b];
    forall s: nat
      ensures Total(log', Sent, s) == Total(log, Sent, s) + (if s == r.sequence then 1 else 0)
      ensures Total(log', Resent, s) == Total(log, Resent, s)
      ensures Total(log', Terminal, s) == Total(log, Terminal, s)
      ensures Held(h, |h|, s) == Held(state.history, |state.history|, s) + (if s == r.sequence then 1 else 0)
    {
      WriteCounts(config, state, log, r, b, slot, size, s);
    }
    TotalZero(log, Sent, r.sequence);
    TotalZero(log, Resent, r.sequence);
    forall q | q in h
      ensures Total(log', Resent, q.sequence) == q.attempts && SentAt(log', q.sequence, q.firstSend)
    {
      if q in state.history {
        assert q.sequence != r.sequence;
      }
    }
    assert forall a :: a in b.actions ==> a.SendData? && a.sequence == r.sequence;
    WriteStaysInWindow(config, state, log, b, r.sequence);
  }

  lemma WriteStaysInWindow(config: Config, state: State, log: seq<Batch>, b: Batch, s: nat)
    requires InWindow(config, log) && Total(log, Resent, s) == 0
    requires forall a :: a in b.actions ==> a.SendData? && a.sequence == s
    ensures InWindow(config, log + [b])
  {
    hide Count, Total;
    TotalZero(log, Resent, s);
    var log' := log + [b];
    forall i, j, x, y | 0 <= i < |log'| && 0 <= j < |log'| && x in log'[i].actions && y in log'[j].actions &&
                        x.SendData? && y.RetransmitData? && x.sequence == y.sequence
      ensures log'[i].time <= log'[j].time < log'[i].time + config.repairWindow
    {
      assert j < |log| ==> IsAbout(y, Resent, y.sequence);
    }
  }

  lemma StepConserves(config: Config, state: State, log: seq<Batch>, e: Event)
    requires Conserved(config, state, log)
    ensures Conserved(config, Apply(config, state, e).state, log + [Batch(e.now, Apply(config, state, e).actions)])
  {
    hide Emitted, Survivors, Conserved;
    var o := Apply(config, state, e);
    if o.error != NoError {
      assert o.state == state.(heartbeatCount := state.heartbeatCount) && o.actions == [];
      QuietConserves(config, state, log, e.now, state.heartbeatCount);
    } else {
      match e
      case Write(payload, sequence, now, room) =>
        WriteConserves(config, state, log, Record(sequence, payload.Content(), now, 0), |state.history|,
                       payload.Size());
      case AckNacked(ack, now, room) =>
        AckDecisionsSound(config, state.history, ack.readerState, now);
        SettleConserves(config, state, log, AckDecisions(config, state.history, ack.readerState, now), now,
                        ack.count, true);
      case Timer(now, room) =>
        SettleConserves(config, state, log, TimerDecisions(config, state.history, now), now,
                        state.lastAckNack, state.ackNackSeen);
      case FillHeartbeat(now) =>
        QuietConserves(config, state, log, now, Next(state.heartbeatCount));
    }
  }

  /**
   Over every run: a written sample is in exactly one of the history, the delivered
   and the failed, with one terminal action; it is retransmitted at most
   `maxRepairAttempts` times and only inside its repair window.
   */
  lemma {:induction false} EveryRunConserves(config: Config, events: seq<Event>)
    ensures Conserved(config, RunOf(config, events).state, RunOf(config, events).log)
  {
    if events != [] {
      var n := |events| - 1;
      EveryRunConserves(config, events[..n]);
      var r := RunOf(config, events[..n]);
      StepConserves(config, r.state, r.log, events[n]);
    }
  }

  /** An error return leaves the writer as it was and emits nothing. */
  lemma ErrorsChangeNothing(config: Config, state: State, e: Event)
    ensures var o := Apply(config, state, e); o.error != NoError ==> o.state == state && o.actions == []
  {}

  /** The heartbeat of any reachable writer passes the sequence checks of the message builder. */
  lemma HeartbeatIsBuildable(config: Config, events: seq<Event>, template: Heartbeat)
    ensures var h := HeartbeatOf(config, RunOf(config, events).state, template);
            ValidSequenceNumber(h.first) && h.first - 1 <= h.last <= Bytes.INT64_MAX
  {
    EveryRunConserves(config, events);
  }
}
