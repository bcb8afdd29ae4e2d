/**
 The wait set: any number of producers that commit data, bump a shared generation and notify, and any number
 of waiters that check their conditions under the wait mutex and then sleep until the generation moves.
 Every step below is what one thread does inside one critical section, or one call on the condition variable.
 */
module WaitSet {
  import opened RtpsTypes

  /** The shared generation runs through 1 .. 2^64 - 1 and skips zero when it wraps. */
  const CYCLE: nat := 0xFFFF_FFFF_FFFF_FFFF

  /** What one call of the wait function waits for. */
  datatype Wait = Wait(conditions: seq<nat>, finite: bool)

  /** How a wait ends; `ready` are positions in the caller's list. */
  datatype Result = Ready(ready: set<nat>) | TimedOut | ShutDown

  datatype Thread =
    | Idle
    | MustBump(condition: nat)        // has committed data, has not bumped the generation yet
    | MustNotify                      // has bumped, has not called notify_all yet
    | Checking(wait: Wait, next: nat, found: set<nat>)    // holds the wait mutex
    | Blocked(wait: Wait, observed: nat, since: nat)      // on the condition variable
    | Awake(wait: Wait, observed: nat, since: nat)        // woken, about to reacquire the mutex
    | Done(result: Result)

  /** `bumps` counts how often the generation was advanced, and `since` is that count when a sleeper read it. */
  datatype State = State(
    ready: set<nat>, guards: set<nat>, shutdown: bool, generation: nat, bumps: nat,
    holder: Option<nat>, threads: map<nat, Thread>)

  datatype Step =
    | Commit(t: nat, condition: nat)
    | Bump(t: nat)
    | Notify(t: nat)
    | Trigger(t: nat, condition: nat)
    | Shutdown(t: nat)
    | Take(condition: nat)
    | Enter(t: nat, wait: Wait)
    | CheckOne(t: nat)
    | Conclude(t: nat, expired: bool)
    | Wake(t: nat)
    | Reacquire(t: nat, expired: bool)
    | Leave(t: nat)

  function Start(guards: set<nat>): (s: State)
  {
    State({}, guards, false, 1, 0, None, map[])
  }

  function Phase(s: State, t: nat): (p: Thread)
  {
    if t in s.threads then s.threads[t] else Idle
  }

  function Next(g: nat): (r: nat)
  {
    if g == CYCLE then 1 else g + 1
  }

  function Moved(s: State, t: nat, p: Thread): (r: State)
  {
    s.(threads := s.threads[t := p])
  }

  function Bumped(s: State): (r: State)
  {
    s.(generation := Next(s.generation), bumps := s.bumps + 1)
  }

  /** The start of the loop, with the mutex held: shutdown ends the wait, otherwise every condition is checked. */
  function Round(s: State, t: nat, w: Wait): (r: State)
  {
    if s.shutdown then Moved(s, t, Done(ShutDown)).(holder := None)
    else Moved(s, t, Checking(w, 0, {})).(holder := Some(t))
  }

  /** The guard conditions among the positions found ready. */
  function Observed(s: State, w: Wait, found: set<nat>): (r: set<nat>)
  {
    set i | i in found && i < |w.conditions| && w.conditions[i] in s.guards :: w.conditions[i]
  }

  function Woken(threads: map<nat, Thread>): (r: map<nat, Thread>)
  {
    map t | t in threads ::
      if threads[t].Blocked? then Awake(threads[t].wait, threads[t].observed, threads[t].since) else threads[t]
  }

  predicate Enabled(s: State, step: Step)
  {
    match step
    case Commit(t, _) => Phase(s, t).Idle?
    case Bump(t) => Phase(s, t).MustBump? && s.holder.None?
    case Notify(t) => Phase(s, t).MustNotify?
    case Trigger(t, _) => Phase(s, t).Idle? && s.holder.None?
    case Shutdown(t) => Phase(s, t).Idle? && s.holder.None?
    case Take(_) => true
    case Enter(t, _) => Phase(s, t).Idle? && s.holder.None?
    case CheckOne(t) => Phase(s, t).Checking? && Phase(s, t).next < |Phase(s, t).wait.conditions|
    case Conclude(t, expired) =>
      var p := Phase(s, t);
      p.Checking? && p.next == |p.wait.conditions| && (expired ==> p.wait.finite)
    case Wake(t) => Phase(s, t).Blocked?
    case Reacquire(t, expired) => Phase(s, t).Awake? && s.holder.None? && (expired ==> Phase(s, t).wait.finite)
    case Leave(t) => Phase(s, t).Done?
  }

  function Apply(s: State, step: Step): (r: State)
    requires Enabled(s, step)
  {
    match step
    case Commit(t, c) => Moved(s, t, MustBump(c)).(ready := s.ready + {c})
    case Bump(t) => Bumped(Moved(s, t, MustNotify))
    case Notify(t) => s.(threads := Woken(s.threads)[t := Idle])
    case Trigger(t, c) => Bumped(Moved(s, t, MustNotify)).(ready := s.ready + {c})
    case Shutdown(t) => Bumped(Moved(s, t, MustNotify)).(shutdown := true)
    case Take(c) => s.(ready := s.ready - {c})
    case Enter(t, w) => Round(s, t, w)
    case CheckOne(t) =>
      var p := Phase(s, t);
      var found := if p.wait.conditions[p.next] in s.ready then p.found + {p.next} else p.found;
      Moved(s, t, Checking(p.wait, p.next + 1, found))
    case Conclude(t, expired) =>
      var p := Phase(s, t);
      if p.found != {} then
        Moved(s, t, Done(Ready(p.found))).(holder := None, ready := s.ready - Observed(s, p.wait, p.found))
      else if expired then Moved(s, t, Done(TimedOut)).(holder := None)
      else Moved(s, t, Blocked(p.wait, s.generation, s.bumps)).(holder := None)
    case Wake(t) =>
      var p := Phase(s, t);
      Moved(s, t, Awake(p.wait, p.observed, p.since))
    case Reacquire(t, expired) =>
      var p := Phase(s, t);
      if s.shutdown || s.generation != p.observed || expired then Round(s, t, p.wait)
      else Moved(s, t, Blocked(p.wait, p.observed, p.since))
    case Leave(t) => Moved(s, t, Idle)
  }

  /** A run takes any steps in any order; a step that is not enabled does nothing. */
  function Run(s: State, steps: seq<Step>, n: nat): (r: State)
    requires n <= |steps|
  {
    if n == 0 then s
    else
      var before := Run(s, steps, n - 1);
      if Enabled(before, steps[n - 1]) then Apply(before, steps[n - 1]) else before
  }

  // ---------------------------------------------------------------- the generation

  /** The generation after `k` advances from the start. */
  function GenerationAt(k: nat): (g: nat)
  {
    k % CYCLE + 1
  }

  lemma GenerationAdvances(k: nat)
    ensures Next(GenerationAt(k)) == GenerationAt(k + 1)
  {
    var q, r := k / CYCLE, k % CYCLE;
    assert k == CYCLE * q + r;
    if r + 1 < CYCLE {
      ModuloIs(k + 1, q, r + 1);
    } else {
      ModuloIs(k + 1, q + 1, 0);
    }
  }

  lemma ModuloIs(k: nat, q: nat, r: nat)
    requires k == CYCLE * q + r && r < CYCLE
    ensures k % CYCLE == r
  {
    var d := k / CYCLE - q;
    assert CYCLE * d == r - k % CYCLE;
    assert d >= 1 ==> CYCLE * d >= CYCLE;
    assert d <= -1 ==> CYCLE * d + CYCLE <= 0;
  }

  /** A sleeper sees the generation unchanged exactly when it advanced a whole number of cycles. */
  lemma UnchangedIffWholeCycles(since: nat, now: nat)
    requires since <= now
    ensures GenerationAt(now) == GenerationAt(since) <==> (now - since) % CYCLE == 0
  {
    var q, r := since / CYCLE, since % CYCLE;
    var a, b := (now - since) / CYCLE, (now - since) % CYCLE;
    assert now == CYCLE * (q + a) + (r + b);
    if r + b < CYCLE {
      ModuloIs(now, q + a, r + b);
    } else {
      ModuloIs(now, q + a + 1, r + b - CYCLE);
    }
  }

  // ---------------------------------------------------------------- the invariant

  ghost predicate PendingBump(s: State, c: nat)
  {
    exists t :: t in s.threads && s.threads[t] == MustBump(c)
  }

  ghost predicate PendingNotify(s: State)
  {
    exists t :: t in s.threads && s.threads[t] == MustNotify
  }

  /** Every ready condition among the first `n` has a producer that is still to bump. */
  ghost predicate Announced(s: State, w: Wait, n: nat)
    requires n <= |w.conditions|
  {
    forall i :: 0 <= i < n && w.conditions[i] in s.ready ==> PendingBump(s, w.conditions[i])
  }

  ghost predicate SleepOk(s: State, w: Wait, observed: nat, since: nat)
  {
    && since <= s.bumps && observed == GenerationAt(since)
    && (s.bumps == since ==> !s.shutdown && Announced(s, w, |w.conditions|))
  }

  ghost predicate ThreadOk(s: State, p: Thread)
  {
    match p
    case Checking(w, next, found) =>
      && !s.shutdown && next <= |w.conditions| && (forall i :: i in found ==> i < next)
      && (forall i :: 0 <= i < next && i !in found && w.conditions[i] in s.ready ==> PendingBump(s, w.conditions[i]))
    case Blocked(w, observed, since) => SleepOk(s, w, observed, since) && (s.bumps > since ==> PendingNotify(s))
    case Awake(w, observed, since) => SleepOk(s, w, observed, since)
    case Done(result) => result.Ready? ==> result.ready != {}
    case _ => true
  }

  ghost predicate Inv(s: State)
  {
    && s.generation == GenerationAt(s.bumps)
    && (forall t :: t in s.threads && s.threads[t].Checking? ==> s.holder == Some(t))
    && (forall t :: t in s.threads ==> ThreadOk(s, s.threads[t]))
  }

  /** No sleeper sleeps through a full cycle of the 64-bit generation. */
  ghost predicate NoWrap(s: State)
  {
    forall t :: t in s.threads && (s.threads[t].Blocked? || s.threads[t].Awake?) ==>
        s.bumps - s.threads[t].since < CYCLE
  }

  /** What a step of one thread leaves true for the others. */
  ghost predicate Gentle(s: State, r: State)
  {
    && (forall c :: PendingBump(s, c) ==> PendingBump(r, c) || r.bumps > s.bumps)
    && (forall c :: c in r.ready && c !in s.ready ==> PendingBump(r, c) || r.bumps > s.bumps)
    && (PendingNotify(s) || r.bumps > s.bumps ==> PendingNotify(r))
    && r.bumps >= s.bumps && (r.shutdown && !s.shutdown ==> r.bumps > s.bumps)
  }

  lemma GentleKeeps(s: State, r: State, p: Thread)
    requires Gentle(s, r) && ThreadOk(s, p) && (p.Checking? ==> r.bumps == s.bumps)
    ensures ThreadOk(r, p)
  {
    match p
    case Checking(w, next, found) =>
      forall i | 0 <= i < next && i !in found && w.conditions[i] in r.ready ensures PendingBump(r, w.conditions[i]) {
        if w.conditions[i] in s.ready {
          assert PendingBump(s, w.conditions[i]);
        }
      }
    case Blocked(w, observed, since) => SleepKept(s, r, w, observed, since);
    case Awake(w, observed, since) => SleepKept(s, r, w, observed, since);
    case _ =>
  }

  lemma SleepKept(s: State, r: State, w: Wait, observed: nat, since: nat)
    requires Gentle(s, r) && SleepOk(s, w, observed, since)
    ensures SleepOk(r, w, observed, since)
  {
    if r.bumps == since {
      forall i | 0 <= i < |w.conditions| && w.conditions[i] in r.ready ensures PendingBump(r, w.conditions[i]) {
        if w.conditions[i] in s.ready {
          assert PendingBump(s, w.conditions[i]);
        }
      }
    }
  }

  /** A step that moves one thread keeps the invariant if it is gentle and right for that thread. */
  lemma OneMoves(s: State, r: State, t: nat)
    requires Inv(s) && Gentle(s, r) && r.generation == GenerationAt(r.bumps)
    requires forall u :: u != t ==>
        (u in r.threads <==> u in s.threads) && (u in r.threads ==> r.threads[u] == s.threads[u])
    requires t in r.threads && ThreadOk(r, r.threads[t]) && (r.threads[t].Checking? ==> r.holder == Some(t))
    requires r.holder == s.holder || (s.holder.None? && r.holder == Some(t)) || s.holder == Some(t)
    requires r.bumps > s.bumps ==> s.holder.None?
    ensures Inv(r)
  {
    hide ThreadOk;
    forall u | u in r.threads && u != t ensures ThreadOk(r, r.threads[u]) {
      GentleKeeps(s, r, s.threads[u]);
    }
  }

  lemma PendingMoved(s: State, t: nat, p: Thread)
    ensures forall c :: PendingBump(s, c) && Phase(s, t) != MustBump(c) ==> PendingBump(Moved(s, t, p), c)
    ensures PendingNotify(s) && !Phase(s, t).MustNotify? ==> PendingNotify(Moved(s, t, p))
    ensures p.MustBump? ==> PendingBump(Moved(s, t, p), p.condition)
    ensures p.MustNotify? ==> PendingNotify(Moved(s, t, p))
  {
    var r := Moved(s, t, p);
    forall c | PendingBump(s, c) && Phase(s, t) != MustBump(c) ensures PendingBump(r, c) {
      var u :| u in s.threads && s.threads[u] == MustBump(c);
      assert u in r.threads && r.threads[u] == MustBump(c);
    }
    if PendingNotify(s) && !Phase(s, t).MustNotify? {
      var u :| u in s.threads && s.threads[u] == MustNotify;
      assert u in r.threads && r.threads[u] == MustNotify;
    }
    assert t in r.threads && r.threads[t] == p;
  }

  // ---------------------------------------------------------------- every step keeps it

  lemma ProducerStep(s: State, step: Step)
    requires Inv(s) && Enabled(s, step) && (step.Commit? || step.Bump? || step.Trigger? || step.Shutdown?)
    ensures Inv(Apply(s, step))
  {
    hide ThreadOk, PendingBump, PendingNotify, GenerationAt;
    GenerationAdvances(s.bumps);
    var p := match step case Commit(_, c) => MustBump(c) case _ => MustNotify;
    var r := Apply(s, step);
    var m := Moved(s, step.t, p);
    PendingMoved(s, step.t, p);
    PendingSame(m, r);
    ProducerOk(r, p);
    OneMoves(s, r, step.t);
  }

  lemma ProducerOk(s: State, p: Thread)
    requires p.MustBump? || p.MustNotify? || p.Idle?
    ensures ThreadOk(s, p)
  {}

  /** What is pending depends on the threads only. */
  lemma PendingSame(s: State, r: State)
    requires r.threads == s.threads
    ensures forall c :: PendingBump(r, c) <==> PendingBump(s, c)
    ensures PendingNotify(r) <==> PendingNotify(s)
  {}

  lemma NotifyStep(s: State, t: nat)
    requires Inv(s) && Enabled(s, Notify(t))
    ensures Inv(Apply(s, Notify(t)))
  {
    hide GenerationAt;
    var r := Apply(s, Notify(t));
    forall c | PendingBump(s, c) ensures PendingBump(r, c) {
      var u :| u in s.threads && s.threads[u] == MustBump(c);
      assert u in r.threads && r.threads[u] == MustBump(c);
    }
    forall u | u in r.threads ensures ThreadOk(r, r.threads[u]) {
      if u != t {
        NotifyKeeps(s, r, s.threads[u]);
      }
    }
  }

  lemma NotifyKeeps(s: State, r: State, p: Thread)
    requires r.ready == s.ready && r.shutdown == s.shutdown && r.bumps == s.bumps && ThreadOk(s, p)
    requires forall c :: PendingBump(s, c) ==> PendingBump(r, c)
    ensures ThreadOk(r, if p.Blocked? then Awake(p.wait, p.observed, p.since) else p)
  {
    hide PendingBump, PendingNotify, GenerationAt;
  }

  lemma TakeStep(s: State, c: nat)
    requires Inv(s)
    ensures Inv(Apply(s, Take(c)))
  {
    hide ThreadOk, PendingBump, PendingNotify, GenerationAt;
    var r := Apply(s, Take(c));
    PendingSame(s, r);
    forall u | u in r.threads ensures ThreadOk(r, r.threads[u]) {
      GentleKeeps(s, r, s.threads[u]);
    }
  }

  lemma RoundStep(s: State, t: nat, w: Wait)
    requires Inv(s) && s.holder.None? && !Phase(s, t).MustBump? && !Phase(s, t).MustNotify?
    ensures Inv(Round(s, t, w))
  {
    hide PendingBump, PendingNotify, GenerationAt;
    var r := Round(s, t, w);
    PendingMoved(s, t, r.threads[t]);
    PendingSame(Moved(s, t, r.threads[t]), r);
    OneMoves(s, r, t);
  }

  lemma CheckStep(s: State, t: nat)
    requires Inv(s) && Enabled(s, CheckOne(t))
    ensures Inv(Apply(s, CheckOne(t)))
  {
    hide PendingBump, PendingNotify, GenerationAt;
    var r := Apply(s, CheckOne(t));
    PendingMoved(s, t, r.threads[t]);
    var p, q := s.threads[t], r.threads[t];
    forall i | 0 <= i < q.next && i !in q.found && q.wait.conditions[i] in r.ready
      ensures PendingBump(r, q.wait.conditions[i])
    {
      assert i < p.next;
    }
    OneMoves(s, r, t);
  }

  lemma ConcludeStep(s: State, t: nat, expired: bool)
    requires Inv(s) && Enabled(s, Conclude(t, expired))
    ensures Inv(Apply(s, Conclude(t, expired)))
  {
    hide PendingBump, PendingNotify, GenerationAt, Observed;
    var r := Apply(s, Conclude(t, expired));
    PendingMoved(s, t, r.threads[t]);
    PendingSame(Moved(s, t, r.threads[t]), r);
    OneMoves(s, r, t);
  }

  lemma WakeStep(s: State, t: nat)
    requires Inv(s) && Enabled(s, Wake(t))
    ensures Inv(Apply(s, Wake(t)))
  {
    hide PendingBump, PendingNotify, GenerationAt;
    var r := Apply(s, Wake(t));
    PendingMoved(s, t, r.threads[t]);
    OneMoves(s, r, t);
  }

  lemma LeaveStep(s: State, t: nat)
    requires Inv(s) && Enabled(s, Leave(t))
    ensures Inv(Apply(s, Leave(t)))
  {
    hide PendingBump, PendingNotify, GenerationAt;
    var r := Apply(s, Leave(t));
    PendingMoved(s, t, r.threads[t]);
    OneMoves(s, r, t);
  }

  lemma ReacquireStep(s: State, t: nat, expired: bool)
    requires Inv(s) && NoWrap(s) && Enabled(s, Reacquire(t, expired))
    ensures Inv(Apply(s, Reacquire(t, expired)))
  {
    hide PendingBump, PendingNotify, GenerationAt, Round;
    var p := s.threads[t];
    var r := Apply(s, Reacquire(t, expired));
    if s.shutdown || s.generation != p.observed || expired {
      RoundStep(s, t, p.wait);
    } else {
      UnchangedIffWholeCycles(p.since, s.bumps);
      SmallRemainder(s.bumps - p.since);
      PendingMoved(s, t, r.threads[t]);
      OneMoves(s, r, t);
    }
  }

  lemma SmallRemainder(d: nat)
    requires d < CYCLE && d % CYCLE == 0
    ensures d == 0
  {
    ModuloIs(d, 0, d);
  }

  lemma StepKeepsInv(s: State, step: Step)
    requires Inv(s) && NoWrap(s) && Enabled(s, step)
    ensures Inv(Apply(s, step))
  {
    hide Inv, Apply, NoWrap;
    match step
    case Commit(_, _) => ProducerStep(s, step);
    case Bump(_) => ProducerStep(s, step);
    case Trigger(_, _) => ProducerStep(s, step);
    case Shutdown(_) => ProducerStep(s, step);
    case Notify(t) => NotifyStep(s, t);
    case Take(c) => TakeStep(s, c);
    case Enter(t, w) => EnterStep(s, t, w);
    case CheckOne(t) => CheckStep(s, t);
    case Conclude(t, expired) => ConcludeStep(s, t, expired);
    case Wake(t) => WakeStep(s, t);
    case Reacquire(t, expired) => ReacquireStep(s, t, expired);
    case Leave(t) => LeaveStep(s, t);
  }

  lemma EnterStep(s: State, t: nat, w: Wait)
    requires Inv(s) && Enabled(s, Enter(t, w))
    ensures Inv(Apply(s, Enter(t, w)))
  {
    hide Inv, Round;
    RoundStep(s, t, w);
  }

  /** No sleeper sleeps through a full cycle anywhere in the run. */
  ghost predicate NeverWraps(s: State, steps: seq<Step>, n: nat)
    requires n <= |steps|
  {
    forall i: nat :: i <= n ==> NoWrap(Run(s, steps, i))
  }

  lemma {:induction false} EveryRunKeepsInv(guards: set<nat>, steps: seq<Step>, n: nat)
    requires n <= |steps| && NeverWraps(Start(guards), steps, n)
    ensures Inv(Run(Start(guards), steps, n))
  {
    if n > 0 {
      hide Inv, Apply, Enabled, NoWrap, Start;
      assert NeverWraps(Start(guards), steps, n - 1);
      EveryRunKeepsInv(guards, steps, n - 1);
      var before := Run(Start(guards), steps, n - 1);
      if Enabled(before, steps[n - 1]) {
        StepKeepsInv(before, steps[n - 1]);
      }
    }
  }

  // ---------------------------------------------------------------- no lost wakeup

  /** Something the waiter waits for has happened. */
  ghost predicate Signalled(s: State, w: Wait)
  {
    s.shutdown || exists i :: 0 <= i < |w.conditions| && w.conditions[i] in s.ready
  }

  /** Some producer has committed one of the waiter's ready conditions and is still to bump the generation. */
  ghost predicate CommittedNotBumped(s: State, w: Wait)
  {
    exists i :: 0 <= i < |w.conditions| && w.conditions[i] in s.ready && PendingBump(s, w.conditions[i])
  }

  /**
   No lost wakeup, in every interleaving: while something it waits for is ready, a sleeper either sees a
   different generation, or a producer that committed is still to bump it; and a sleeper that sees a
   different generation is about to be notified.
   */
  lemma NoLostWakeup(guards: set<nat>, steps: seq<Step>, t: nat)
    requires NeverWraps(Start(guards), steps, |steps|)
    ensures var s := Run(Start(guards), steps, |steps|);
      t in s.threads && s.threads[t].Blocked? ==>
        && (Signalled(s, s.threads[t].wait) ==>
              s.generation != s.threads[t].observed || CommittedNotBumped(s, s.threads[t].wait))
        && (s.generation != s.threads[t].observed ==> PendingNotify(s))
  {
    EveryRunKeepsInv(guards, steps, |steps|);
    var s := Run(Start(guards), steps, |steps|);
    hide Run, GenerationAt, PendingBump, PendingNotify;
    if t in s.threads && s.threads[t].Blocked? {
      var p := s.threads[t];
      assert NoWrap(s);
      UnchangedIffWholeCycles(p.since, s.bumps);
      if s.bumps > p.since {
        if s.generation == p.observed {
          SmallRemainder(s.bumps - p.since);
        }
      }
    }
  }
}
