/** `Loop::run` (include/coroutines/coro.cpp): resume the root, then drain
    the timer set, resuming the front sleeper once its expiry has strictly
    passed and sleeping until it otherwise; repeat until the root is done,
    which it also is once an exception escaped it.
    The clock is virtual: it moves only when the loop sleeps. */
module EventLoop {
  import opened Basics
  import opened Timers
  import opened Combinators
  import opened Scheduler
  import opened SchedulerProofs
  import opened LoopProofs

  /** Every helper of the combinator awaited at step `k` has finished, each
      once; its group is the replay of that order, its parent has finished,
      and the first helper to finish is one that asked to wake earliest,
      counted from the combinator's dispatch. */
  ghost predicate Settled(s: State, steps: seq<Step>, k: nat)
    requires ValidScript(steps) && k < |steps| && steps[k].Gather?
  {
    && k in s.groups && k in s.orders && k in s.dispatchedAt
    && IsOrder(s.orders[k], |steps[k].children|)
    && s.groups[k] == Replay(steps[k].all, steps[k].children, s.orders[k])
    && s.groups[k].parent.Finished?
    && forall j :: 0 <= j < |steps[k].children| ==>
         Deadline(steps[k].children[s.orders[k][0]].wake, s.dispatchedAt[k])
           <= Deadline(steps[k].children[j].wake, s.dispatchedAt[k])
  }

  /** The root ran to its end exactly when every combinator it awaited
      handed it a value; otherwise the combinator it stopped in rethrew a
      child's exception into it. */
  ghost predicate Ended(s: State, steps: seq<Step>) {
    && (s.root.Done? <==>
          forall k :: k in s.groups ==> s.groups[k].parent.Finished? && s.groups[k].parent.result.Returned?)
    && (s.root.Failed? ==>
          && s.root.step < |steps| && steps[s.root.step].Gather? && s.root.step in s.groups
          && s.groups[s.root.step].parent == Finished(Threw(s.root.exc)))
  }

  /** Before the loop starts nothing is registered and nothing waits. */
  lemma InitialInv(steps: seq<Step>, start: int)
    requires ValidScript(steps)
    ensures Inv(Initial(start), steps, 0)
  {
  }

  /** A finished root, done or failed, with an empty timer set: the loop
      resumed it once plus once per yield it reached, every sleeper the
      steps it reached registered has fired once per registration, in
      order, every combinator it reached has settled, and it ended as
      `Ended` says. */
  lemma FinalState(s: State, steps: seq<Step>, rp: nat)
    requires Inv(s, steps, rp) && Logged(s) && s.root.IsDone() && s.timers == []
    ensures rp <= |steps| && (s.root.Done? ==> rp == |steps|)
    ensures ResumeCount(s.root, steps) == 1 + Yields(steps, rp)
    ensures |s.fired| == Registered(steps, rp) && FiredInOrder(s.fired)
    ensures multiset(FiredTimers(s.fired)) == multiset(s.registered)
    ensures forall k :: 0 <= k < rp && k < |steps| && steps[k].Gather? ==> Settled(s, steps, k)
    ensures Ended(s, steps)
  {
    FinalEnded(s, steps, rp);
    FinalCounts(s, steps, rp);
    FinalSettled(s, steps, rp);
  }

  /** A finished root was resumed by the loop once plus once per yield it
      reached, and every sleeper those steps registered is in the log. */
  lemma FinalCounts(s: State, steps: seq<Step>, rp: nat)
    requires RootPos(s.root, steps) == rp && Counted(s, steps, rp) && FiredInOrder(s.fired)
    requires s.root.IsDone() && s.timers == []
    requires s.root.Failed? ==> s.root.step < |steps| && steps[s.root.step].Gather?
    ensures rp <= |steps| && (s.root.Done? ==> rp == |steps|)
    ensures ResumeCount(s.root, steps) == 1 + Yields(steps, rp)
    ensures |s.fired| == Registered(steps, rp) && FiredInOrder(s.fired)
  {
    if s.root.Failed? {
      YieldsPast(steps, s.root.step);
    }
  }

  /** Once the timer set is empty, every combinator the root reached has
      settled. */
  lemma FinalSettled(s: State, steps: seq<Step>, rp: nat)
    requires Inv(s, steps, rp) && s.timers == []
    ensures forall k :: 0 <= k < rp && k < |steps| && steps[k].Gather? ==> Settled(s, steps, k)
  {
    EmptyMeansCompleted(s, steps);
    forall k | 0 <= k < rp && k < |steps| && steps[k].Gather?
      ensures Settled(s, steps, k)
    {
      assert k in s.groups;
    }
  }

  /** A finished root with an empty timer set ended as `Ended` says. */
  lemma FinalEnded(s: State, steps: seq<Step>, rp: nat)
    requires Inv(s, steps, rp) && s.root.IsDone() && s.timers == []
    ensures Ended(s, steps)
  {
    EmptyMeansCompleted(s, steps);
  }

  /** `Loop::run(coroutine)` for the root script `steps`, starting at clock
      reading `start`; `resumes` counts the loop's own `coroutine.resume()`
      calls. */
  method Run(steps: seq<Step>, start: int, ties: seq<nat>) returns (s: State, resumes: nat)
    requires ValidScript(steps)
    ensures s.root.IsDone() && s.timers == []
    ensures RootPos(s.root, steps) <= |steps| && (s.root.Done? ==> RootPos(s.root, steps) == |steps|)
    ensures resumes == 1 + Yields(steps, RootPos(s.root, steps))
    ensures |s.fired| == Registered(steps, RootPos(s.root, steps)) && FiredInOrder(s.fired)
    ensures multiset(FiredTimers(s.fired)) == multiset(s.registered)
    ensures forall k :: 0 <= k < RootPos(s.root, steps) && k < |steps| && steps[k].Gather? ==>
              Settled(s, steps, k)
    ensures Ended(s, steps)
  {
    s := Initial(start);
    resumes := 0;
    InitialInv(steps, start);
    while !s.root.IsDone()
      invariant Inv(s, steps, RootPos(s.root, steps))
      invariant s.timers == [] && Logged(s)
      invariant resumes == ResumeCount(s.root, steps)
      decreases Measure(s, steps)
    {
      ghost var before := s;
      ResumeKeepsInv(s, steps, ties, RootPos(s.root, steps));
      ResumeLogged(s, steps, ties);
      s := ResumeRoot(s, steps, ties);
      ResumedOnceCounts(before.root, s.root, steps);
      resumes := resumes + 1;
      s := RunTimers(s, steps, ties);
    }
    FinalState(s, steps, RootPos(s.root, steps));
  }

  /** Loop::run's inner loop: fires every expired timer and otherwise
      sleeps until the earliest deadline, until no timer is left. */
  method RunTimers(s0: State, steps: seq<Step>, ties: seq<nat>) returns (s: State)
    requires Inv(s0, steps, RootPos(s0.root, steps)) && Logged(s0)
    ensures Inv(s, steps, RootPos(s.root, steps)) && s.timers == [] && Measure(s, steps) <= Measure(s0, steps)
    ensures Logged(s)
    ensures ResumeCount(s.root, steps) == ResumeCount(s0.root, steps)
  {
    s := s0;
    while s.timers != []
      invariant Inv(s, steps, RootPos(s.root, steps)) && Logged(s)
      invariant ResumeCount(s.root, steps) == ResumeCount(s0.root, steps)
      invariant Measure(s, steps) <= Measure(s0, steps)
      decreases Measure(s, steps), if |s.timers| > 0 && s.timers[0].expiry < s.now then 0 else 1
    {
      ghost var prev := s;
      if s.timers[0].expiry < s.now {
        FireKeepsInv(s, steps, ties, RootPos(s.root, steps));
        FireLogged(s, steps, ties);
        s := Fire(s, steps, ties);
        AdvancedKeepsCount(prev.root, s.root, steps);
      } else {
        SleepKeepsInv(s, steps, RootPos(s.root, steps));
        s := SleepUntilFront(s);
      }
    }
  }

  /** A sleep whose deadline has already passed, `sleep_for` a negative
      duration or `sleep_until` a time point before the clock, leaves the
      front expired: the inner loop fires at the same clock reading instead
      of sleeping. With no other sleeper waiting, the front has expired
      exactly when the deadline has passed. */
  lemma PastDeadlineFiresWithoutSleeping(s: State, steps: seq<Step>, j: nat, ties: seq<nat>)
    requires ValidScript(steps) && j < |steps| && steps[j].Sleep? && Sorted(s.timers)
    ensures var r, w := RunFrom(s, steps, j, ties), steps[j].wake;
            var past := (w.For? && w.duration < 0) || (w.Until? && w.deadline < s.now);
            && |r.timers| > 0 && r.now == s.now
            && (past ==> r.timers[0].expiry < r.now)
            && (s.timers == [] ==> (r.timers[0].expiry < r.now <==> past))
  {
    var r := RunFrom(s, steps, j, ties);
    var t := Timer(Deadline(steps[j].wake, s.now), RootSleeper);
    assert r == SleepStep(s, steps, j, ties);
    InsertMembers(s.timers, t, TieAt(ties, s.inserted));
    InsertSorted(s.timers, t, TieAt(ties, s.inserted));
    SortedFront(r.timers, t);
    if s.timers == [] {
      assert r.timers == [t];
    }
  }

  /** After the loop, a `when_any` has handed its parent the outcome of a
      child that asked to wake earliest: that child's value at its own
      index, or its exception. */
  lemma {:induction false} WhenAnyTakesShortestSleep(s: State, steps: seq<Step>, k: nat)
    requires ValidScript(steps) && k < |steps| && steps[k].Gather? && !steps[k].all
    requires Settled(s, steps, k)
    ensures var children := steps[k].children;
            exists w :: 0 <= w < |children|
              && (forall j :: 0 <= j < |children| ==>
                    Deadline(children[w].wake, s.dispatchedAt[k]) <= Deadline(children[j].wake, s.dispatchedAt[k]))
              && s.groups[k].parent == Finished(if children[w].outcome.Threw? then Threw(children[w].outcome.exc)
                                                else Returned(Alternative(w, children[w].outcome.value)))
  {
    var children, cs := steps[k].children, s.orders[k];
    WhenAnyFirstCompletionDecides(children, cs);
    assert 0 <= cs[0] < |children|;
  }

  /** After the loop, a `when_all` whose children all return has handed its
      parent every child's value at the child's own position. */
  lemma WhenAllCollectsInDeclarationOrder(s: State, steps: seq<Step>, k: nat)
    requires ValidScript(steps) && k < |steps| && steps[k].Gather? && steps[k].all
    requires Settled(s, steps, k)
    requires forall i :: 0 <= i < |steps[k].children| ==> steps[k].children[i].outcome.Returned?
    ensures s.groups[k].parent == Finished(Returned(Tuple(Values(steps[k].children))))
  {
    WhenAllKeepsDeclarationOrder(steps[k].children, s.orders[k]);
  }

  /** A `when_all` whose only child throws 7 after one tick, followed by a
      sleep: the exception ends the root in the combinator's step, so the
      loop resumes it once and fires the helper's sleeper only; the sleep
      after it never registers. */
  method RethrowEndsRoot() returns (s: State, resumes: nat)
    ensures s.root == Failed(0, 7) && |s.fired| == 1 && resumes == 1
  {
    var steps := [Gather(true, [Child(For(1), Threw(7))]), Sleep(For(5))];
    s, resumes := Run(steps, 0, []);
    assert Settled(s, steps, 0);
    var children := [Child(For(1), Threw(7))];
    assert s.orders[0] == [0];
    assert [0][..0] == [];
    assert Replay(true, children, [0]) == Complete(Dispatched(true, 1), 0, Threw(7));
    assert s.groups[0].parent == Finished(Threw(7));
  }
}
