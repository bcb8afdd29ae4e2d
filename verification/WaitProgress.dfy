/** What a pending signal leads to, and how a finished wait rewrites the caller's arrays. */
module WaitProgress {
  import opened RtpsTypes
  import opened WaitSet

  lemma {:induction false} RunAppend(s: State, a: seq<Step>, b: seq<Step>, m: nat)
    requires m <= |b|
    ensures Run(s, a + b, |a| + m) == Run(Run(s, a, |a|), b, m)
  {
    hide Apply, Enabled;
    if m == 0 {
      RunPrefix(s, a, b, |a|);
    } else {
      RunAppend(s, a, b, m - 1);
      assert (a + b)[|a| + m - 1] == b[m - 1];
    }
  }

  lemma {:induction false} RunPrefix(s: State, a: seq<Step>, b: seq<Step>, n: nat)
    requires n <= |a|
    ensures Run(s, a + b, n) == Run(s, a, n)
  {
    hide Apply, Enabled;
    if n > 0 {
      RunPrefix(s, a, b, n - 1);
    }
  }

  /** One more step at the end of a run. */
  lemma RunOne(s: State, a: seq<Step>, step: Step)
    requires Enabled(Run(s, a, |a|), step)
    ensures Run(s, a + [step], |a| + 1) == Apply(Run(s, a, |a|), step)
  {
    hide Apply, Enabled;
    RunPrefix(s, a, [step], |a|);
  }

  function ReadyAmong(s: State, w: Wait, n: nat): (r: set<nat>)
  {
    set i: nat | i < n && i < |w.conditions| && w.conditions[i] in s.ready
  }

  function Checks(t: nat, n: nat): (steps: seq<Step>)
    ensures |steps| == n
  {
    seq(n, _ => CheckOne(t))
  }

  /** Checking `n` conditions with nothing in between finds exactly the ready ones. */
  lemma {:induction false} ChecksFind(s: State, t: nat, w: Wait, m: nat, n: nat)
    requires n <= m <= |w.conditions| && t in s.threads && s.threads[t] == Checking(w, 0, {})
    ensures var r := Run(s, Checks(t, m), n);
      r == s.(threads := r.threads) && t in r.threads && r.threads[t] == Checking(w, n, ReadyAmong(s, w, n))
  {
    if n == 0 {
      assert ReadyAmong(s, w, 0) == {};
    } else {
      ChecksFind(s, t, w, m, n - 1);
      assert ReadyAmong(s, w, n) ==
        ReadyAmong(s, w, n - 1) + (if w.conditions[n - 1] in s.ready then {n - 1} else {});
    }
  }

  /** A woken waiter that sees a new generation ends its wait with everything that is ready. */
  lemma RoundEnds(s: State, t: nat) returns (steps: seq<Step>)
    requires t in s.threads && s.threads[t].Awake? && s.holder.None? && s.generation != s.threads[t].observed
    requires Signalled(s, s.threads[t].wait)
    ensures var r := Run(s, steps, |steps|);
      && t in r.threads
      && r.threads[t] == Done(if s.shutdown then ShutDown
                              else Ready(ReadyAmong(s, s.threads[t].wait, |s.threads[t].wait.conditions|)))
      && r.holder.None?
  {
    var w := s.threads[t].wait;
    var n := |w.conditions|;
    ReacquireStarts(s, t);
    hide Apply, Enabled, Run, ReadyAmong, Signalled, Checks;
    var first := Apply(s, Reacquire(t, false));
    RunOne(s, [], Reacquire(t, false));
    RunNone(s);
    steps := [] + [Reacquire(t, false)];
    if !s.shutdown {
      SameReady(s, first, w, n);
      var rest := ChecksReturn(first, t, w);
      RunAppend(s, steps, rest, |rest|);
      steps := steps + rest;
    }
  }

  lemma ChecksReturn(s: State, t: nat, w: Wait) returns (steps: seq<Step>)
    requires t in s.threads && s.threads[t] == Checking(w, 0, {}) && !s.shutdown && Signalled(s, w)
    ensures var r := Run(s, steps, |steps|);
      t in r.threads && r.holder.None? && r.threads[t] == Done(Ready(ReadyAmong(s, w, |w.conditions|)))
  {
    hide Apply, Enabled, Run, ReadyAmong, Signalled, Checks;
    var n := |w.conditions|;
    ChecksFind(s, t, w, n, n);
    var r := Run(s, Checks(t, n), n);
    SameReady(s, r, w, n);
    ConcludeReturns(r, t, w);
    RunOne(s, Checks(t, n), Conclude(t, false));
    steps := Checks(t, n) + [Conclude(t, false)];
  }

  lemma RunNone(s: State)
    ensures Run(s, [], 0) == s
  {}

  lemma ReacquireStarts(s: State, t: nat)
    requires t in s.threads && s.threads[t].Awake? && s.holder.None? && s.generation != s.threads[t].observed
    ensures Enabled(s, Reacquire(t, false))
    ensures var r := Apply(s, Reacquire(t, false));
      && t in r.threads && r.ready == s.ready && r.shutdown == s.shutdown
      && r.threads[t] == (if s.shutdown then Done(ShutDown) else Checking(s.threads[t].wait, 0, {}))
      && (s.shutdown ==> r.holder.None?)
  {}

  lemma ConcludeReturns(s: State, t: nat, w: Wait)
    requires t in s.threads && s.threads[t] == Checking(w, |w.conditions|, ReadyAmong(s, w, |w.conditions|))
    requires !s.shutdown && Signalled(s, w)
    ensures Enabled(s, Conclude(t, false))
    ensures var r := Apply(s, Conclude(t, false));
      t in r.threads && r.holder.None? && r.threads[t] == Done(Ready(ReadyAmong(s, w, |w.conditions|)))
  {
    var i :| 0 <= i < |w.conditions| && w.conditions[i] in s.ready;
    assert i in ReadyAmong(s, w, |w.conditions|);
  }

  /** A signalled sleeper is notified by steps its producers are already committed to. */
  lemma GetsNotified(s: State, t: nat) returns (steps: seq<Step>)
    requires Inv(s) && NoWrap(s) && s.holder.None?
    requires t in s.threads && s.threads[t].Blocked? && Signalled(s, s.threads[t].wait)
    ensures 1 <= |steps| <= 2 && forall i :: 0 <= i < |steps| ==> steps[i].Bump? || steps[i].Notify?
    ensures var p, r := s.threads[t], Run(s, steps, |steps|);
      && t in r.threads && r.threads[t] == Awake(p.wait, p.observed, p.since)
      && r.generation != p.observed && r.holder.None? && r.ready == s.ready && r.shutdown == s.shutdown
  {
    hide GenerationAt;
    var p := s.threads[t];
    UnchangedIffWholeCycles(p.since, s.bumps);
    steps := [];
    if s.bumps == p.since {
      var i :| 0 <= i < |p.wait.conditions| && p.wait.conditions[i] in s.ready;
      var u :| u in s.threads && s.threads[u] == MustBump(p.wait.conditions[i]);
      RunOne(s, [], Bump(u));
      assert [] + [Bump(u)] == [Bump(u)];
      GenerationAdvances(s.bumps);
      UnchangedIffWholeCycles(p.since, s.bumps + 1);
      ModuloIs(1, 0, 1);
      RunOne(s, [Bump(u)], Notify(u));
      steps := [Bump(u)] + [Notify(u)];
    } else {
      if s.generation == p.observed {
        SmallRemainder(s.bumps - p.since);
      }
      var u :| u in s.threads && s.threads[u] == MustNotify;
      RunOne(s, [], Notify(u));
      steps := [] + [Notify(u)];
    }
  }

  /**
   With the mutex free, a sleeper with something ready can reach the end of its wait by the steps of one producer
   followed by its own, and returns exactly what is ready.
   */
  lemma SignalledWaitEnds(s: State, t: nat) returns (steps: seq<Step>)
    requires Inv(s) && NoWrap(s) && s.holder.None?
    requires t in s.threads && s.threads[t].Blocked? && Signalled(s, s.threads[t].wait)
    ensures var r := Run(s, steps, |steps|);
      && t in r.threads
      && r.threads[t] == Done(if s.shutdown then ShutDown
                              else Ready(ReadyAmong(s, s.threads[t].wait, |s.threads[t].wait.conditions|)))
  {
    hide Inv, NoWrap, Apply, Enabled, Run;
    var wakeup := GetsNotified(s, t);
    var r := Run(s, wakeup, |wakeup|);
    SameReady(s, r, s.threads[t].wait, |s.threads[t].wait.conditions|);
    var rest := RoundEnds(r, t);
    RunAppend(s, wakeup, rest, |rest|);
    steps := wakeup + rest;
  }

  lemma SameReady(s: State, r: State, w: Wait, n: nat)
    requires r.ready == s.ready && r.shutdown == s.shutdown
    ensures Signalled(s, w) <==> Signalled(r, w)
    ensures ReadyAmong(r, w, n) == ReadyAmong(s, w, n)
  {}

  /** What the holder of the mutex leaves alone while it finishes its round. */
  ghost predicate OnlyHolderMoved(s: State, r: State, t: nat)
  {
    && r.generation == s.generation && r.bumps == s.bumps && r.shutdown == s.shutdown && r.guards == s.guards
    && r.ready <= s.ready
    && (forall u :: u != t ==>
          (u in r.threads <==> u in s.threads) && (u in r.threads ==> r.threads[u] == s.threads[u]))
  }

  /**
   A waiter that holds the mutex can always finish its checks and give it back, and touches nothing else: every
   other thread stays where it is, and conditions stop being ready only if the holder returns them.
   */
  lemma {:induction false} HolderReleases(s: State, t: nat) returns (steps: seq<Step>)
    requires Inv(s) && NoWrap(s) && t in s.threads && s.threads[t].Checking?
    ensures var r := Run(s, steps, |steps|);
      && r.holder.None? && Inv(r) && NoWrap(r) && OnlyHolderMoved(s, r, t)
      && t in r.threads && (r.ready == s.ready || (r.threads[t].Done? && r.threads[t].result.Ready?))
    decreases |s.threads[t].wait.conditions| - s.threads[t].next
  {
    var p := s.threads[t];
    assert ThreadOk(s, p);
    if p.next == |p.wait.conditions| {
      RunOne(s, [], Conclude(t, false));
      ConcludeStep(s, t, false);
      steps := [] + [Conclude(t, false)];
      ConcludeMoves(s, t);
    } else {
      RunOne(s, [], CheckOne(t));
      CheckStep(s, t);
      CheckMoves(s, t);
      var one := [] + [CheckOne(t)];
      var rest := HolderReleases(Apply(s, CheckOne(t)), t);
      RunAppend(s, one, rest, |rest|);
      steps := one + rest;
    }
  }

  lemma ConcludeMoves(s: State, t: nat)
    requires Inv(s) && NoWrap(s) && Enabled(s, Conclude(t, false))
    ensures var r := Apply(s, Conclude(t, false));
      && r.holder.None? && NoWrap(r) && OnlyHolderMoved(s, r, t)
      && t in r.threads && (r.ready == s.ready || (r.threads[t].Done? && r.threads[t].result.Ready?))
  {}

  lemma CheckMoves(s: State, t: nat)
    requires NoWrap(s) && Enabled(s, CheckOne(t))
    ensures var r := Apply(s, CheckOne(t));
      && r.holder == s.holder && NoWrap(r) && OnlyHolderMoved(s, r, t) && r.ready == s.ready
      && t in r.threads && r.threads[t].Checking? && r.threads[t].wait == s.threads[t].wait
      && r.threads[t].next == s.threads[t].next + 1
  {}

  /** Whoever holds the mutex between two steps is a waiter in the middle of its checks. */
  ghost predicate HolderIsChecking(s: State)
  {
    s.holder.Some? ==> s.holder.value in s.threads && s.threads[s.holder.value].Checking?
  }

  lemma {:induction false} HolderAlwaysChecking(guards: set<nat>, steps: seq<Step>, n: nat)
    requires n <= |steps| && NeverWraps(Start(guards), steps, n)
    ensures HolderIsChecking(Run(Start(guards), steps, n))
  {
    if n > 0 {
      hide Inv, Apply, Enabled, NoWrap, Start, HolderIsChecking;
      assert NeverWraps(Start(guards), steps, n - 1);
      HolderAlwaysChecking(guards, steps, n - 1);
      EveryRunKeepsInv(guards, steps, n - 1);
      var before := Run(Start(guards), steps, n - 1);
      if Enabled(before, steps[n - 1]) {
        StepKeepsHolder(before, steps[n - 1]);
      }
    }
  }

  lemma StepKeepsHolder(s: State, step: Step)
    requires Inv(s) && HolderIsChecking(s) && Enabled(s, step)
    ensures HolderIsChecking(Apply(s, step))
  {
    hide ThreadOk;
  }

  /** Nothing this waiter waits for is left, because another waiter that held the mutex returned it. */
  ghost predicate TakenByHolder(s: State, w: Wait, holder: nat)
  {
    && !Signalled(s, w) && holder in s.threads
    && s.threads[holder].Done? && s.threads[holder].result.Ready?
  }

  /**
   From every reachable state a signalled sleeper can finish its wait, with exactly what is ready or with the
   shutdown error; unless the waiter that holds the mutex just then takes what it was waiting for.
   */
  lemma SignalledWaitCanEnd(guards: set<nat>, taken: seq<Step>, t: nat) returns (more: seq<Step>)
    requires NeverWraps(Start(guards), taken, |taken|)
    requires var s := Run(Start(guards), taken, |taken|);
             t in s.threads && s.threads[t].Blocked? && Signalled(s, s.threads[t].wait)
    ensures var s := Run(Start(guards), taken, |taken|);
            var r, w := Run(s, more, |more|), s.threads[t].wait;
      || (t in r.threads && r.threads[t].Done? && (s.shutdown ==> r.threads[t].result == ShutDown)
          && (!s.shutdown ==> r.threads[t].result.Ready? && r.threads[t].result.ready != {}
                              && r.threads[t].result.ready <= ReadyAmong(s, w, |w.conditions|)))
      || (s.holder.Some? && TakenByHolder(r, w, s.holder.value))
  {
    EveryRunKeepsInv(guards, taken, |taken|);
    var s := Run(Start(guards), taken, |taken|);
    assert NoWrap(s);
    HolderAlwaysChecking(guards, taken, |taken|);
    more := FinishFrom(s, t);
  }

  lemma FinishFrom(s: State, t: nat) returns (more: seq<Step>)
    requires Inv(s) && NoWrap(s) && HolderIsChecking(s)
    requires t in s.threads && s.threads[t].Blocked? && Signalled(s, s.threads[t].wait)
    ensures var r, w := Run(s, more, |more|), s.threads[t].wait;
      || (t in r.threads && r.threads[t].Done? && (s.shutdown ==> r.threads[t].result == ShutDown)
          && (!s.shutdown ==> r.threads[t].result.Ready? && r.threads[t].result.ready != {}
                              && r.threads[t].result.ready <= ReadyAmong(s, w, |w.conditions|)))
      || (s.holder.Some? && TakenByHolder(r, w, s.holder.value))
  {
    hide Inv, NoWrap, Run;
    var w := s.threads[t].wait;
    if s.holder.None? {
      more := SignalledWaitEnds(s, t);
      SignalIsFound(s, w);
    } else {
      var first := HolderReleases(s, s.holder.value);
      var r := Run(s, first, |first|);
      if Signalled(r, w) {
        var rest := SignalledWaitEnds(r, t);
        RunAppend(s, first, rest, |rest|);
        more := first + rest;
        SignalIsFound(r, w);
      } else {
        more := first;
      }
    }
  }

  lemma SignalIsFound(s: State, w: Wait)
    requires Signalled(s, w)
    ensures !s.shutdown ==> ReadyAmong(s, w, |w.conditions|) != {}
  {
    if !s.shutdown {
      var i :| 0 <= i < |w.conditions| && w.conditions[i] in s.ready;
      assert i in ReadyAmong(s, w, |w.conditions|);
    }
  }

  // ---------------------------------------------------------------- the caller's arrays

  /**
   Note which conditions are ready, and whether any is. Observing a guard condition can fail;
   the first failure ends the wait.
   */
  method Check(observations: seq<Option<bool>>, ready: array<bool>) returns (failed: bool, any: bool)
    requires |observations| <= ready.Length
    modifies ready
    ensures failed <==> None in observations
    ensures !failed ==> forall i :: 0 <= i < |observations| ==> ready[i] == observations[i].value
    ensures !failed ==> (any <==> Some(true) in observations)
    ensures ready[|observations|..] == old(ready[|observations|..])
  {
    any := false;
    for i := 0 to |observations|
      invariant None !in observations[..i]
      invariant forall j :: 0 <= j < i ==> ready[j] == observations[j].value
      invariant ready[|observations|..] == old(ready[|observations|..])
      invariant any <==> Some(true) in observations[..i]
    {
      assert observations[..i + 1] == observations[..i] + [observations[i]];
      if observations[i].None? {
        return true, any;
      }
      ready[i] := observations[i].value;
      any := any || ready[i];
    }
    assert observations[..|observations|] == observations;
    return false, any;
  }

  /** Entries that are not ready become null; the others stay where they are. */
  function Kept<T>(entries: seq<Option<T>>, ready: seq<bool>): (r: seq<Option<T>>)
    requires |entries| <= |ready|
    ensures |r| == |entries|
    ensures forall i :: 0 <= i < |r| ==> r[i] == if ready[i] then entries[i] else None
  {
    seq(|entries|, i requires 0 <= i < |entries| => if ready[i] then entries[i] else None)
  }

  method KeepReady<T>(entries: array<Option<T>>, ready: array<bool>)
    requires entries.Length <= ready.Length
    modifies entries
    ensures entries[..] == Kept(old(entries[..]), ready[..])
  {
    ghost var was := entries[..];
    for i := 0 to entries.Length
      invariant forall j :: 0 <= j < i ==> entries[j] == if ready[j] then was[j] else None
      invariant forall j :: i <= j < entries.Length ==> entries[j] == was[j]
    {
      if !ready[i] {
        entries[i] := None;
      }
    }
  }

  method ClearEntries<T>(entries: array<Option<T>>)
    modifies entries
    ensures forall i :: 0 <= i < entries.Length ==> entries[i] == None
  {
    for i := 0 to entries.Length
      invariant forall j :: 0 <= j < i ==> entries[j] == None
    {
      entries[i] := None;
    }
  }
}
