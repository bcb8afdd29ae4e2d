/** What becomes of a ready condition: who makes it ready, who may take it away, and who must find it meanwhile. */
module WaitLaws {
  import opened WaitSet
  import opened WaitProgress

  // ---------------------------------------------------------------- one step

  /** The step is the end of a round that found condition `c`. */
  ghost predicate Returns(s: State, step: Step, c: nat)
  {
    && step.Conclude? && Phase(s, step.t).Checking?
    && exists i :: i in Phase(s, step.t).found && i < |Phase(s, step.t).wait.conditions|
                   && Phase(s, step.t).wait.conditions[i] == c
  }

  /** A ready condition stops being ready exactly when it is taken, or is a guard that a wait returns. */
  lemma ReadinessEnds(s: State, step: Step, c: nat)
    requires Enabled(s, step) && c in s.ready
    ensures c !in Apply(s, step).ready <==> step == Take(c) || (c in s.guards && Returns(s, step, c))
  {
    if step.Conclude? {
      var p := Phase(s, step.t);
      if p.found != {} {
        assert c in Observed(s, p.wait, p.found) <==> c in s.guards && Returns(s, step, c);
      } else {
        assert Apply(s, step).ready == s.ready;
      }
    }
  }

  /** A condition becomes ready exactly when it is committed or triggered. */
  lemma ReadinessBegins(s: State, step: Step, c: nat)
    requires Enabled(s, step) && c !in s.ready
    ensures c in Apply(s, step).ready <==> (step.Commit? || step.Trigger?) && step.condition == c
  {
    if step.Conclude? {
      assert Apply(s, step).ready <= s.ready;
    }
  }

  /** A wait ends with exactly what its last round found, or by its deadline with nothing found, or by shutdown. */
  lemma ResultsAreTrue(s: State, step: Step, t: nat)
    requires Enabled(s, step) && !Phase(s, t).Done? && Phase(Apply(s, step), t).Done?
    ensures match Phase(Apply(s, step), t).result
            case Ready(found) => step.Conclude? && step.t == t && Phase(s, t).found == found != {}
            case TimedOut => step == Conclude(t, true) && Phase(s, t).wait.finite && Phase(s, t).found == {}
            case ShutDown => s.shutdown && (step.Enter? || step.Reacquire?) && step.t == t
  {}

  /** A round that found something returns it and ends the wait, whether or not the deadline has passed. */
  lemma FoundIsReturned(s: State, t: nat, expired: bool, c: nat)
    requires Enabled(s, Conclude(t, expired)) && Phase(s, t).found != {}
    ensures var r := Apply(s, Conclude(t, expired));
            && Phase(r, t) == Done(Ready(Phase(s, t).found)) && r.holder.None?
            && (c in r.ready <==> c in s.ready && !(c in s.guards && Returns(s, Conclude(t, expired), c)))
  {
    if c in s.ready {
      ReadinessEnds(s, Conclude(t, expired), c);
    } else {
      ReadinessBegins(s, Conclude(t, expired), c);
    }
  }

  // ---------------------------------------------------------------- every run

  lemma {:induction false} GuardsStay(s: State, steps: seq<Step>, n: nat)
    requires n <= |steps|
    ensures Run(s, steps, n).guards == s.guards
  {
    if n > 0 {
      GuardsStay(s, steps, n - 1);
    }
  }

  /** At point `k` of the run the condition is taken, or it is a guard and a wait returns it. */
  ghost predicate Consumed(s: State, steps: seq<Step>, k: nat, c: nat)
    requires k < |steps|
  {
    steps[k] == Take(c) || (c in s.guards && Returns(Run(s, steps, k), steps[k], c))
  }

  ghost predicate Unconsumed(s: State, steps: seq<Step>, m: nat, n: nat, c: nat)
    requires m <= n <= |steps|
  {
    forall k :: m <= k < n ==> !Consumed(s, steps, k, c)
  }

  /** A condition stays ready until it is consumed; if it is no guard, until somebody takes it. */
  lemma {:induction false} UnconsumedStaysReady(s: State, steps: seq<Step>, m: nat, n: nat, c: nat)
    requires m <= n <= |steps| && c in Run(s, steps, m).ready && Unconsumed(s, steps, m, n, c)
    ensures c in Run(s, steps, n).ready
    decreases n
  {
    if m < n {
      hide Apply, Enabled, Returns;
      UnconsumedStaysReady(s, steps, m, n - 1, c);
      GuardsStay(s, steps, n - 1);
      var before := Run(s, steps, n - 1);
      assert !Consumed(s, steps, n - 1, c);
      if Enabled(before, steps[n - 1]) {
        ReadinessEnds(before, steps[n - 1], c);
      }
    }
  }

  /** Over every run the context is shut down exactly when a shutdown step was taken. */
  lemma {:induction false} ShutdownIsAsked(guards: set<nat>, steps: seq<Step>, n: nat)
    requires n <= |steps|
    ensures Run(Start(guards), steps, n).shutdown
       <==> exists k: nat :: k < n && steps[k].Shutdown? && Enabled(Run(Start(guards), steps, k), steps[k])
  {
    if n > 0 {
      ShutdownIsAsked(guards, steps, n - 1);
      var before := Run(Start(guards), steps, n - 1);
      hide Enabled, Run, Start;
      if Enabled(before, steps[n - 1]) {
        ShutdownStep(before, steps[n - 1]);
      }
      RunStep(Start(guards), steps, n);
    }
  }

  lemma ShutdownStep(s: State, step: Step)
    requires Enabled(s, step)
    ensures Apply(s, step).shutdown <==> s.shutdown || step.Shutdown?
  {}

  lemma RunStep(s: State, steps: seq<Step>, n: nat)
    requires 0 < n <= |steps|
    ensures var before := Run(s, steps, n - 1);
            Run(s, steps, n) == if Enabled(before, steps[n - 1]) then Apply(before, steps[n - 1]) else before
  {}

  /** Thread `t` does not finish its round between the two points of the run. */
  predicate SameRound(steps: seq<Step>, m: nat, n: nat, t: nat)
    requires m <= n <= |steps|
  {
    forall k :: m <= k < n ==> !(steps[k].Conclude? && steps[k].t == t)
  }

  /** What one step of anybody does to a thread in the middle of its round. */
  lemma RoundGoesOn(s: State, step: Step, t: nat)
    requires Phase(s, t).Checking? && Enabled(s, step) && !(step.Conclude? && step.t == t)
    ensures var p, q := Phase(s, t), Phase(Apply(s, step), t);
            if step == CheckOne(t)
            then q == Checking(p.wait, p.next + 1,
                               if p.wait.conditions[p.next] in s.ready then p.found + {p.next} else p.found)
            else q == p
  {}

  /** In the round, every position already passed where the condition stands has been found. */
  ghost predicate FoundSoFar(s: State, t: nat, w: Wait, c: nat)
  {
    var p := Phase(s, t);
    && p.Checking? && p.wait == w
    && forall i :: 0 <= i < p.next && i < |w.conditions| && w.conditions[i] == c ==> i in p.found
  }

  lemma {:induction false} RoundFinds(s: State, steps: seq<Step>, m: nat, n: nat, t: nat, w: Wait, c: nat)
    requires m <= n <= |steps| && Phase(Run(s, steps, m), t) == Checking(w, 0, {})
    requires c in Run(s, steps, m).ready && Unconsumed(s, steps, m, n, c) && SameRound(steps, m, n, t)
    ensures FoundSoFar(Run(s, steps, n), t, w, c)
    decreases n
  {
    if m < n {
      hide Apply, Enabled;
      RoundFinds(s, steps, m, n - 1, t, w, c);
      UnconsumedStaysReady(s, steps, m, n - 1, c);
      var before := Run(s, steps, n - 1);
      if Enabled(before, steps[n - 1]) {
        RoundGoesOn(before, steps[n - 1], t);
      }
    }
  }

  /** The thread makes `c` ready at point `k` of the run. */
  predicate MakesReady(s: State, steps: seq<Step>, k: nat, c: nat)
    requires k < |steps|
  {
    (steps[k].Commit? || steps[k].Trigger?) && steps[k].condition == c && Enabled(Run(s, steps, k), steps[k])
  }

  /**
   Over every run: what was made ready and not consumed since is found by every round that begins later and is
   carried to its end, at each position the wait lists it; that wait returns it, and consumes it only if it is a guard.
   */
  lemma CommittedIsFound(s: State, steps: seq<Step>, k: nat, m: nat, n: nat, t: nat, w: Wait, c: nat, expired: bool)
    requires k < m <= n <= |steps| && MakesReady(s, steps, k, c) && Unconsumed(s, steps, k + 1, n, c)
    requires Phase(Run(s, steps, m), t) == Checking(w, 0, {}) && SameRound(steps, m, n, t)
    requires Enabled(Run(s, steps, n), Conclude(t, expired)) && c in w.conditions
    ensures var p := Phase(Apply(Run(s, steps, n), Conclude(t, expired)), t);
            && p.Done? && p.result.Ready?
            && forall i :: 0 <= i < |w.conditions| && w.conditions[i] == c ==> i in p.result.ready
    ensures c in Apply(Run(s, steps, n), Conclude(t, expired)).ready <==> c !in s.guards
  {
    hide Run, Apply, Enabled, FoundSoFar, MakesReady, Unconsumed;
    CommitMakesReady(s, steps, k, c);
    UnconsumedSplits(s, steps, k + 1, m, n, c);
    UnconsumedStaysReady(s, steps, k + 1, m, c);
    RoundFinds(s, steps, m, n, t, w, c);
    UnconsumedStaysReady(s, steps, m, n, c);
    GuardsStay(s, steps, n);
    FoundAllIsReturned(Run(s, steps, n), t, w, c, expired);
  }

  lemma UnconsumedSplits(s: State, steps: seq<Step>, k: nat, m: nat, n: nat, c: nat)
    requires k <= m <= n <= |steps| && Unconsumed(s, steps, k, n, c)
    ensures Unconsumed(s, steps, k, m, c) && Unconsumed(s, steps, m, n, c)
  {}

  lemma FoundAllIsReturned(s: State, t: nat, w: Wait, c: nat, expired: bool)
    requires Enabled(s, Conclude(t, expired)) && FoundSoFar(s, t, w, c) && c in w.conditions && c in s.ready
    ensures var r := Apply(s, Conclude(t, expired)); var p := Phase(r, t);
            && p.Done? && p.result.Ready?
            && (forall i :: 0 <= i < |w.conditions| && w.conditions[i] == c ==> i in p.result.ready)
            && (c in r.ready <==> c !in s.guards)
  {
    var i :| 0 <= i < |w.conditions| && w.conditions[i] == c;
    assert i in Phase(s, t).found;
    FoundIsReturned(s, t, expired, c);
    hide Apply;
  }

  lemma CommitMakesReady(s: State, steps: seq<Step>, k: nat, c: nat)
    requires k < |steps| && MakesReady(s, steps, k, c)
    ensures c in Run(s, steps, k + 1).ready
  {}

  // ---------------------------------------------------------------- deadlines

  /** A round begun after the deadline ends the wait, whatever it finds. */
  lemma ExpiredRoundEnds(s: State, t: nat, w: Wait) returns (steps: seq<Step>)
    requires t in s.threads && s.threads[t] == Checking(w, 0, {}) && w.finite
    ensures var found := ReadyAmong(s, w, |w.conditions|);
            Phase(Run(s, steps, |steps|), t) == Done(if found != {} then Ready(found) else TimedOut)
  {
    hide Run, Checks, ReadyAmong;
    var n := |w.conditions|;
    ChecksFind(s, t, w, n, n);
    RunOne(s, Checks(t, n), Conclude(t, true));
    steps := Checks(t, n) + [Conclude(t, true)];
  }

  /** A waiter whose deadline has passed can always end its wait once it is awake and the mutex is free. */
  lemma ExpiredWaitEnds(s: State, t: nat) returns (steps: seq<Step>)
    requires t in s.threads && s.threads[t].Awake? && s.threads[t].wait.finite && s.holder.None?
    ensures var r, w := Run(s, steps, |steps|), s.threads[t].wait;
            var found := ReadyAmong(s, w, |w.conditions|);
            Phase(r, t) == Done(if s.shutdown then ShutDown else if found != {} then Ready(found) else TimedOut)
  {
    hide Run, Checks, ReadyAmong, Signalled;
    var w := s.threads[t].wait;
    RunNone(s);
    RunOne(s, [], Reacquire(t, true));
    steps := [] + [Reacquire(t, true)];
    if !s.shutdown {
      var first := Apply(s, Reacquire(t, true));
      SameReady(s, first, w, |w.conditions|);
      var rest := ExpiredRoundEnds(first, t, w);
      RunAppend(s, steps, rest, |rest|);
      steps := steps + rest;
    }
  }
}
