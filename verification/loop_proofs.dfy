/** The loop's own transitions in `Loop::run` (include/coroutines/coro.cpp):
    erasing and resuming the front sleeper, sleeping until it expires, and
    resuming the root once the timer set is empty. Each keeps the scheduler
    invariant; firing and resuming shrink the work left. */
module LoopProofs {
  import opened Basics
  import opened Timers
  import opened Combinators
  import opened Scheduler
  import opened SchedulerProofs

  /** Erasing the front leaves a sorted set with one sleeper per frame,
      the same sleepers but the front, and no sleeper of the front's owner. */
  lemma PopSet(s: State)
    requires |s.timers| > 0 && Sorted(s.timers) && UniqueOwners(s.timers)
    ensures var rest := s.timers[1..];
            && Sorted(rest) && UniqueOwners(rest)
            && Owners(rest) == Owners(s.timers) - {s.timers[0].owner}
            && forall x :: x in rest ==> x in s.timers
  {
  }

  /** Erasing the front moves it from the timer set to the fired log. */
  lemma PopLogged(s: State, steps: seq<Step>)
    requires |s.timers| > 0 && Logged(s)
    ensures Logged(Pop(s, steps))
  {
    var r := Pop(s, steps);
    assert FiredTimers(r.fired) == FiredTimers(s.fired) + [s.timers[0]];
    assert s.timers == [s.timers[0]] + r.timers;
  }

  /** Running the root logs every sleeper it adds to the timer set. */
  lemma RunFromLogged(s: State, steps: seq<Step>, j: nat, ties: seq<nat>)
    requires ValidScript(steps) && j <= |steps| && Logged(s)
    ensures Logged(RunFrom(s, steps, j, ties))
  {
    RunFromLogs(s, steps, j, ties);
    if j < |steps| {
      RunFromRegisters(s, steps, j, ties);
    }
  }

  /** Resuming the root keeps the registration log accounted for. */
  lemma ResumeLogged(s: State, steps: seq<Step>, ties: seq<nat>)
    requires ValidScript(steps) && Logged(s)
    ensures Logged(ResumeRoot(s, steps, ties))
  {
    if s.root.Fresh? || (s.root.SuspendedAt? && s.root.step < |steps|) {
      var j := if s.root.Fresh? then 0 else s.root.step + 1;
      assert ResumeRoot(s, steps, ties) == RunFrom(s, steps, j, ties);
      RunFromLogged(s, steps, j, ties);
    }
  }

  /** Firing the front logs it as fired, and whatever the resumed owner
      registers next is logged as registered. */
  lemma FireLogged(s: State, steps: seq<Step>, ties: seq<nat>)
    requires ValidScript(steps) && Sorted(s.timers) && GroupsReplayed(s, steps) && ChildTimers(s, steps)
    requires |s.timers| > 0 && s.timers[0].expiry < s.now && Logged(s)
    ensures Logged(Fire(s, steps, ties))
  {
    var t := Pop(s, steps);
    PopLogged(s, steps);
    if s.timers[0].owner.RootSleeper? {
      FireRootIs(s, steps, ties);
      ResumeLogged(t, steps, ties);
    } else {
      var k := s.timers[0].owner.gather;
      var u := FinishFront(s, steps);
      FireChildIs(s, steps, ties);
      if s.groups[k].parent.Waiting? && u.groups[k].parent.Finished? && u.groups[k].parent.result.Returned? {
        ResumeLogged(u, steps, ties);
      }
    }
  }

  /** The front has the least expiry of every sleeper registered. */
  lemma FrontIsEarliest(s: State)
    requires |s.timers| > 0 && Sorted(s.timers)
    ensures forall x :: x in s.timers ==> s.timers[0].expiry <= x.expiry
  {
    forall x | x in s.timers
      ensures s.timers[0].expiry <= x.expiry
    {
      SortedFront(s.timers, x);
    }
  }

  /** The front fires strictly after its expiry, at no earlier clock
      reading and progress than any sleeper fired before it, and it expires
      no earlier than every earlier firing it was registered before. */
  lemma PopFired(s: State, steps: seq<Step>, rp: nat)
    requires |s.timers| > 0 && s.timers[0].expiry < s.now && RootPos(s.root, steps) == rp
    requires FiredInOrder(s.fired) && ClockAhead(s, rp)
    ensures FiredInOrder(Pop(s, steps).fired)
  {
    var t := Pop(s, steps);
    var front := s.timers[0];
    var f := t.fired[|s.fired|];
    assert f == Firing(front, s.now, Origin(front.owner, rp), rp);
    assert front in s.timers;
    forall i | 0 <= i < |t.fired|
      ensures t.fired[i].timer.expiry < t.fired[i].at
    {
      if i < |s.fired| {
        assert t.fired[i] == s.fired[i];
      }
    }
    forall i, j | 0 <= i < j < |t.fired|
      ensures t.fired[i].at <= t.fired[j].at && t.fired[i].progress <= t.fired[j].progress
    {
      assert t.fired[i] == s.fired[i];
      if j == |s.fired| {
        assert s.fired[i].at <= s.fired[|s.fired| - 1].at;
      } else {
        assert t.fired[j] == s.fired[j];
      }
    }
    forall i, j | 0 <= i < j < |t.fired| && t.fired[j].origin < t.fired[i].progress
      ensures t.fired[i].timer.expiry <= t.fired[j].timer.expiry
    {
      assert t.fired[i] == s.fired[i];
      if j < |s.fired| {
        assert t.fired[j] == s.fired[j];
      }
    }
  }

  /** After the front fired, no sleeper left expires before it, and the
      older firings keep their bounds. */
  lemma PopAhead(s: State, steps: seq<Step>, rp: nat)
    requires |s.timers| > 0 && Sorted(s.timers) && RootPos(s.root, steps) == rp
    requires ClockAhead(s, rp)
    ensures ClockAhead(Pop(s, steps), rp)
  {
    var t := Pop(s, steps);
    FrontIsEarliest(s);
    forall i, x | 0 <= i < |t.fired| && x in t.timers && Origin(x.owner, rp) < t.fired[i].progress
      ensures t.fired[i].timer.expiry <= x.expiry
    {
      assert x in s.timers;
      if i < |s.fired| {
        assert t.fired[i] == s.fired[i];
      }
    }
    forall i | 0 <= i < |t.fired|
      ensures t.fired[i].progress <= rp
    {
      if i < |s.fired| {
        assert t.fired[i] == s.fired[i];
      }
    }
  }

  /** Erasing moves one sleeper from the set to the log. */
  lemma PopCounted(s: State, steps: seq<Step>, rp: nat)
    requires |s.timers| > 0 && Counted(s, steps, rp)
    ensures Counted(Pop(s, steps), steps, rp)
  {
  }

  /** The timer half of the invariant survives erasing the front. */
  lemma PopTimers(s: State, steps: seq<Step>, rp: nat)
    requires |s.timers| > 0 && s.timers[0].expiry < s.now && RootPos(s.root, steps) == rp
    requires Sorted(s.timers) && UniqueOwners(s.timers)
    requires FiredInOrder(s.fired) && ClockAhead(s, rp) && Counted(s, steps, rp)
    ensures var t := Pop(s, steps);
            && Sorted(t.timers) && UniqueOwners(t.timers)
            && FiredInOrder(t.fired) && ClockAhead(t, rp) && Counted(t, steps, rp)
  {
    PopSet(s);
    PopFired(s, steps, rp);
    PopAhead(s, steps, rp);
    PopCounted(s, steps, rp);
  }

  /** Erasing the root's sleeper leaves the helpers' sleepers as they were. */
  lemma PopRootChildTimers(s: State, steps: seq<Step>)
    requires |s.timers| > 0 && s.timers[0].owner == RootSleeper
    requires Sorted(s.timers) && UniqueOwners(s.timers) && ChildTimers(s, steps)
    ensures ChildTimers(Pop(s, steps), steps)
  {
    PopSet(s);
  }

  /** A step counts among the yields exactly when it is one. */
  lemma YieldsPast(steps: seq<Step>, k: nat)
    requires k < |steps|
    ensures Yields(steps, k + 1) == Yields(steps, k) + if steps[k].Yield? then 1 else 0
  {
  }

  /** Where a root suspended in step `k` is once it has run on from the
      step after: suspended in that step, or finished. */
  function After(k: nat, steps: seq<Step>): Root {
    if k + 1 >= |steps| then Done else SuspendedAt(k + 1)
  }

  /** The root stayed where it was; or it was resumed from a sleep or a
      combinator, not by the loop itself, and ran its next step; or the
      combinator it awaited rethrew into it and it finished there. */
  ghost predicate Advanced(a: Root, b: Root, steps: seq<Step>) {
    || b == a
    || (a.SuspendedAt? && a.step < |steps| && !steps[a.step].Yield? && b == After(a.step, steps))
    || (a.SuspendedAt? && a.step < |steps| && steps[a.step].Gather? && b.Failed? && b.step == a.step)
  }

  /** The loop itself resumed the root, which was fresh or in a yield, and
      it ran its next step. */
  ghost predicate ResumedOnce(a: Root, b: Root, steps: seq<Step>) {
    || (a.Fresh? && b == (if |steps| == 0 then Done else SuspendedAt(0)))
    || (a.SuspendedAt? && a.step < |steps| && steps[a.step].Yield? && b == After(a.step, steps))
  }

  /** Resumptions by a sleeper or a combinator are not counted. */
  lemma AdvancedKeepsCount(a: Root, b: Root, steps: seq<Step>)
    requires Advanced(a, b, steps)
    ensures ResumeCount(b, steps) == ResumeCount(a, steps)
  {
    if b != a && !b.Failed? {
      YieldsPast(steps, a.step);
    }
  }

  /** Each resumption by the loop itself is counted once. */
  lemma ResumedOnceCounts(a: Root, b: Root, steps: seq<Step>)
    requires ResumedOnce(a, b, steps)
    ensures ResumeCount(b, steps) == ResumeCount(a, steps) + 1
  {
    if a.SuspendedAt? {
      YieldsPast(steps, a.step);
    }
  }

  /** Which combinators have been dispatched depends only on the groups. */
  lemma SameGroupsDispatched(s: State, r: State, steps: seq<Step>, rp: nat)
    requires r.groups.Keys == s.groups.Keys && DispatchedBefore(s, steps, rp)
    ensures DispatchedBefore(r, steps, rp)
  {
  }

  /** A front that is the root's sleeper belongs to a root suspended in a
      sleep; once it is erased, nothing waits on the root. */
  lemma RootFrontQuiet(s: State, steps: seq<Step>)
    requires |s.timers| > 0 && s.timers[0].owner == RootSleeper
    requires Sorted(s.timers) && UniqueOwners(s.timers)
    requires RootLinked(s, steps) && GroupsLinked(s) && GroupsReplayed(s, steps) && FailureLinked(s)
    ensures s.root.SuspendedAt? && s.root.step < |steps| && steps[s.root.step].Sleep?
    ensures Quiet(Pop(s, steps))
  {
    PopSet(s);
    assert RootSleeper in Owners(s.timers);
  }

  /** Erasing the root's sleeper keeps the bookkeeping part of the
      invariant, for the step after the sleep. */
  lemma PopRootCore(s: State, steps: seq<Step>, rp: nat)
    requires Core(s, steps, rp) && |s.timers| > 0 && s.timers[0].expiry < s.now
    requires s.timers[0].owner == RootSleeper
    ensures Core(Pop(s, steps), steps, rp)
  {
    var t := Pop(s, steps);
    PopTimers(s, steps, rp);
    PopRootChildTimers(s, steps);
    BookkeepingFrame(s, t, steps);
    SameGroupsDispatched(s, t, steps, rp);
  }

  /** The front is the root's sleeper: the root continues after its sleep. */
  lemma FireRootIs(s: State, steps: seq<Step>, ties: seq<nat>)
    requires Sorted(s.timers) && GroupsReplayed(s, steps) && ChildTimers(s, steps)
    requires |s.timers| > 0 && s.timers[0].expiry < s.now && s.timers[0].owner == RootSleeper
    ensures Fire(s, steps, ties) == ResumeRoot(Pop(s, steps), steps, ties)
  {
  }

  /** Firing the root's sleeper erases it and resumes a root suspended in a
      sleep, with nothing else waiting on it, at the step after the sleep. */
  lemma FireRootResumes(s: State, steps: seq<Step>, ties: seq<nat>, rp: nat)
    requires Inv(s, steps, rp) && |s.timers| > 0 && s.timers[0].expiry < s.now
    requires s.timers[0].owner == RootSleeper
    ensures s.root.SuspendedAt? && s.root.step < |steps| && steps[s.root.step].Sleep?
    ensures rp == s.root.step + 1
    ensures Core(Pop(s, steps), steps, rp) && Quiet(Pop(s, steps))
    ensures Fire(s, steps, ties) == RunFrom(Pop(s, steps), steps, rp, ties)
  {
    RootFrontQuiet(s, steps);
    PopRootCore(s, steps, rp);
    FireRootIs(s, steps, ties);
  }

  /** Firing the root's sleeper resumes the root, which runs its next step;
      the invariant holds again and the work left shrinks. */
  lemma FireRoot(s: State, steps: seq<Step>, ties: seq<nat>, rp: nat)
    requires Inv(s, steps, rp) && |s.timers| > 0 && s.timers[0].expiry < s.now
    requires s.timers[0].owner == RootSleeper
    ensures var r := Fire(s, steps, ties);
            && Inv(r, steps, RootPos(r.root, steps))
            && Measure(r, steps) < Measure(s, steps)
            && Advanced(s.root, r.root, steps)
  {
    FireRootResumes(s, steps, ties, rp);
    RunFromInv(Pop(s, steps), steps, rp, ties);
    WakeProgress(s, Pop(s, steps), steps, ties, rp);
  }

  /** Erasing the front, the sleeper of helper `i` of the combinator at
      step `k`, and finishing that helper. */
  function FinishFront(s: State, steps: seq<Step>): (u: State)
    requires |s.timers| > 0 && s.timers[0].owner.ChildSleeper?
    requires GroupsReplayed(s, steps) && ChildForward(s, steps)
    ensures var k, i := s.timers[0].owner.gather, s.timers[0].owner.child;
            && k in s.groups && k in s.orders && k < |steps| && steps[k].Gather?
            && i < |steps[k].children| && i !in s.orders[k]
            && u.groups == s.groups[k := Complete(s.groups[k], i, steps[k].children[i].outcome)]
            && u.orders == s.orders[k := s.orders[k] + [i]]
    ensures u.timers == s.timers[1..] && u.fired == Pop(s, steps).fired
    ensures u.now == s.now && u.root == s.root && u.dispatchedAt == s.dispatchedAt
  {
    var front := s.timers[0];
    assert front in s.timers;
    Finish(Pop(s, steps), steps, front.owner.gather, front.owner.child)
  }

  /** The front is a helper's sleeper: the helper finishes, and the root is
      resumed exactly when this completion finished a waiting parent. */
  lemma FireChildIs(s: State, steps: seq<Step>, ties: seq<nat>)
    requires Sorted(s.timers) && GroupsReplayed(s, steps) && ChildTimers(s, steps)
    requires |s.timers| > 0 && s.timers[0].expiry < s.now && s.timers[0].owner.ChildSleeper?
    ensures var k, u := s.timers[0].owner.gather, FinishFront(s, steps);
            Fire(s, steps, ties)
              == if s.groups[k].parent.Waiting? && u.groups[k].parent.Finished?
                 then Rejoin(u, steps, k, ties) else u
  {
  }

  /** A sleeper left after the front's helper finished was registered
      before, and belongs to another owner. */
  lemma FinishLeavesOthers(s: State, steps: seq<Step>, x: Timer<Owner>)
    requires |s.timers| > 0 && s.timers[0].owner.ChildSleeper?
    requires Sorted(s.timers) && UniqueOwners(s.timers) && GroupsReplayed(s, steps) && ChildForward(s, steps)
    requires x in FinishFront(s, steps).timers
    ensures x in s.timers && x.owner != s.timers[0].owner
  {
    var u := FinishFront(s, steps);
    PopSet(s);
    OwnerOfMember(u.timers, x);
  }

  /** Once helper `i` has finished, its sleeper is gone, and every
      remaining helper's sleeper still belongs to an unfinished helper. */
  lemma FinishChildForward(s: State, steps: seq<Step>)
    requires |s.timers| > 0 && s.timers[0].owner.ChildSleeper?
    requires Sorted(s.timers) && UniqueOwners(s.timers) && GroupsReplayed(s, steps) && ChildForward(s, steps)
    ensures ChildForward(FinishFront(s, steps), steps)
  {
    var u := FinishFront(s, steps);
    forall x | x in u.timers && x.owner.ChildSleeper?
      ensures x.owner.gather in u.groups && x.owner.gather in u.orders
      ensures x.owner.gather in u.dispatchedAt
      ensures x.owner.gather < |steps| && steps[x.owner.gather].Gather?
      ensures x.owner.child < |steps[x.owner.gather].children|
      ensures x.owner.child !in u.orders[x.owner.gather]
      ensures x.expiry == Deadline(steps[x.owner.gather].children[x.owner.child].wake, u.dispatchedAt[x.owner.gather])
    {
      FinishLeavesOthers(s, steps, x);
    }
  }

  /** Every helper still unfinished keeps its sleeper. */
  lemma FinishChildConverse(s: State, steps: seq<Step>)
    requires |s.timers| > 0 && s.timers[0].owner.ChildSleeper?
    requires Sorted(s.timers) && UniqueOwners(s.timers) && GroupsReplayed(s, steps) && ChildTimers(s, steps)
    ensures ChildConverse(FinishFront(s, steps), steps)
  {
    var u := FinishFront(s, steps);
    var front := s.timers[0];
    PopSet(s);
    forall k', i' | (k' in u.groups && k' in u.orders && k' < |steps| && steps[k'].Gather?
                     && 0 <= i' < |steps[k'].children| && i' !in u.orders[k'])
      ensures ChildSleeper(k', i') in Owners(u.timers)
    {
      assert i' !in s.orders[k'];
      assert ChildSleeper(k', i') in Owners(s.timers);
      assert ChildSleeper(k', i') != front.owner;
    }
  }

  /** The finished helper's group is the replay of the longer order. */
  lemma FinishReplayed(s: State, steps: seq<Step>)
    requires |s.timers| > 0 && s.timers[0].owner.ChildSleeper?
    requires GroupsReplayed(s, steps) && ChildForward(s, steps)
    ensures GroupsReplayed(FinishFront(s, steps), steps)
  {
    var u := FinishFront(s, steps);
    var k, i := s.timers[0].owner.gather, s.timers[0].owner.child;
    ReplayAppend(steps[k].all, steps[k].children, s.orders[k], i);
  }

  /** The first helper of a combinator to finish is the one whose sleeper
      was the front: no helper of it asked to wake earlier. */
  lemma FinishFirst(s: State, steps: seq<Step>)
    requires |s.timers| > 0 && s.timers[0].owner.ChildSleeper?
    requires Sorted(s.timers) && GroupsReplayed(s, steps) && ChildTimers(s, steps)
    requires FirstIsEarliest(s, steps)
    ensures FirstIsEarliest(FinishFront(s, steps), steps)
  {
    var u := FinishFront(s, steps);
    var front := s.timers[0];
    var k, i := front.owner.gather, front.owner.child;
    if |s.orders[k]| == 0 {
      assert u.orders[k] == [i];
      forall j | 0 <= j < |steps[k].children|
        ensures Deadline(steps[k].children[i].wake, s.dispatchedAt[k])
             <= Deadline(steps[k].children[j].wake, s.dispatchedAt[k])
      {
        if j != i {
          assert j !in s.orders[k];
          var x := MemberOfOwner(s.timers, ChildSleeper(k, j));
          SortedFront(s.timers, x);
        }
      }
    } else {
      assert u.orders[k][0] == s.orders[k][0];
    }
  }

  /** Finishing the front's helper keeps the timer part of the invariant. */
  lemma FinishTimers(s: State, steps: seq<Step>, rp: nat)
    requires |s.timers| > 0 && s.timers[0].expiry < s.now && s.timers[0].owner.ChildSleeper?
    requires GroupsReplayed(s, steps) && ChildForward(s, steps) && RootPos(s.root, steps) == rp
    requires Sorted(s.timers) && UniqueOwners(s.timers)
    requires FiredInOrder(s.fired) && ClockAhead(s, rp) && Counted(s, steps, rp)
    ensures var u := FinishFront(s, steps);
            && Sorted(u.timers) && UniqueOwners(u.timers)
            && FiredInOrder(u.fired) && ClockAhead(u, rp) && Counted(u, steps, rp)
  {
    var u := FinishFront(s, steps);
    PopTimers(s, steps, rp);
    ClockFrame(Pop(s, steps), u, rp);
  }

  /** Finishing the front's helper keeps the combinator part of the
      invariant. */
  lemma FinishGroups(s: State, steps: seq<Step>)
    requires |s.timers| > 0 && s.timers[0].owner.ChildSleeper?
    requires Sorted(s.timers) && UniqueOwners(s.timers) && GroupsReplayed(s, steps) && ChildTimers(s, steps)
    requires FirstIsEarliest(s, steps)
    ensures var u := FinishFront(s, steps);
            GroupsReplayed(u, steps) && ChildTimers(u, steps) && FirstIsEarliest(u, steps)
  {
    FinishChildForward(s, steps);
    FinishChildConverse(s, steps);
    FinishReplayed(s, steps);
    FinishFirst(s, steps);
  }

  /** Finishing the front's helper keeps the bookkeeping part of the
      invariant. */
  lemma FinishCore(s: State, steps: seq<Step>, rp: nat)
    requires Core(s, steps, rp) && |s.timers| > 0 && s.timers[0].expiry < s.now
    requires s.timers[0].owner.ChildSleeper?
    ensures Core(FinishFront(s, steps), steps, rp)
  {
    var u := FinishFront(s, steps);
    var k := s.timers[0].owner.gather;
    FinishTimers(s, steps, rp);
    FinishGroups(s, steps);
    UpdateKeeps(s.groups, k, u.groups[k]);
    SameGroupsDispatched(s, u, steps, rp);
  }

  /** The completion finished the parent the root was waiting on with a
      value: nothing waits on the root any more. */
  lemma FinishQuiet(s: State, steps: seq<Step>)
    requires |s.timers| > 0 && s.timers[0].owner.ChildSleeper?
    requires Sorted(s.timers) && UniqueOwners(s.timers)
    requires GroupsReplayed(s, steps) && ChildForward(s, steps)
    requires RootLinked(s, steps) && GroupsLinked(s) && FailureLinked(s)
    requires var k := s.timers[0].owner.gather;
             && s.groups[k].parent.Waiting? && FinishFront(s, steps).groups[k].parent.Finished?
             && FinishFront(s, steps).groups[k].parent.result.Returned?
    ensures var k := s.timers[0].owner.gather;
            s.root == SuspendedAt(k) && Quiet(FinishFront(s, steps))
  {
    var u := FinishFront(s, steps);
    var k := s.timers[0].owner.gather;
    PopSet(s);
    assert s.root == SuspendedAt(k);
    assert RootSleeper !in Owners(s.timers);
    forall k' | k' in u.groups
      ensures u.groups[k'].parent.Finished? && u.groups[k'].parent.result.Returned?
    {
      if k' != k {
        assert !s.groups[k'].parent.Waiting?;
      }
    }
  }

  /** A completion that finishes the parent the root awaits at step `k`
      with a value resumes the root at the step after. */
  lemma FireChildIsResume(s: State, steps: seq<Step>, ties: seq<nat>)
    requires Sorted(s.timers) && GroupsReplayed(s, steps) && ChildTimers(s, steps)
    requires |s.timers| > 0 && s.timers[0].expiry < s.now && s.timers[0].owner.ChildSleeper?
    requires var k := s.timers[0].owner.gather;
             && s.groups[k].parent.Waiting? && FinishFront(s, steps).groups[k].parent.Finished?
             && FinishFront(s, steps).groups[k].parent.result.Returned?
             && s.root == SuspendedAt(k)
    ensures Fire(s, steps, ties) == RunFrom(FinishFront(s, steps), steps, s.root.step + 1, ties)
  {
    var u := FinishFront(s, steps);
    var k := s.timers[0].owner.gather;
    assert k in s.groups && k < |steps|;
    FireChildIs(s, steps, ties);
    assert Fire(s, steps, ties) == Rejoin(u, steps, k, ties) == ResumeRoot(u, steps, ties);
    ResumeSuspended(u, steps, ties, k);
  }

  /** Resuming a root suspended in step `k` runs it from step `k + 1`. */
  lemma ResumeSuspended(u: State, steps: seq<Step>, ties: seq<nat>, k: nat)
    requires ValidScript(steps) && u.root == SuspendedAt(k) && k < |steps|
    ensures ResumeRoot(u, steps, ties) == RunFrom(u, steps, k + 1, ties)
  {
  }

  /** The completion resumed the root with a value: the root continues
      after the combinator it awaited, with nothing waiting on it. */
  lemma FireChildResumes(s: State, steps: seq<Step>, rp: nat)
    requires Inv(s, steps, rp) && |s.timers| > 0 && s.timers[0].expiry < s.now
    requires s.timers[0].owner.ChildSleeper?
    requires var k := s.timers[0].owner.gather;
             && s.groups[k].parent.Waiting? && FinishFront(s, steps).groups[k].parent.Finished?
             && FinishFront(s, steps).groups[k].parent.result.Returned?
    ensures var u := FinishFront(s, steps);
            && rp == s.root.step + 1 && s.root.SuspendedAt? && s.root.step < |steps|
            && Core(u, steps, rp) && Quiet(u)
  {
    FinishQuiet(s, steps);
    FinishCore(s, steps, rp);
  }

  /** A completion that does not finish a waiting parent leaves the root
      where it was. */
  lemma FinishLinks(s: State, steps: seq<Step>)
    requires |s.timers| > 0 && s.timers[0].owner.ChildSleeper?
    requires Sorted(s.timers) && UniqueOwners(s.timers)
    requires GroupsReplayed(s, steps) && ChildForward(s, steps)
    requires RootLinked(s, steps) && GroupsLinked(s)
    requires var k := s.timers[0].owner.gather;
             !(s.groups[k].parent.Waiting? && FinishFront(s, steps).groups[k].parent.Finished?)
    ensures RootLinked(FinishFront(s, steps), steps) && GroupsLinked(FinishFront(s, steps))
  {
    var u := FinishFront(s, steps);
    PopSet(s);
    assert RootSleeper in Owners(u.timers) <==> RootSleeper in Owners(s.timers);
  }

  /** A completion that does not finish a waiting parent leaves every
      parent as it was, so failures stay linked. */
  lemma FinishFailureFrame(s: State, steps: seq<Step>)
    requires |s.timers| > 0 && s.timers[0].owner.ChildSleeper?
    requires GroupsReplayed(s, steps) && ChildForward(s, steps) && FailureLinked(s)
    requires var k := s.timers[0].owner.gather;
             !(s.groups[k].parent.Waiting? && FinishFront(s, steps).groups[k].parent.Finished?)
    ensures FailureLinked(FinishFront(s, steps))
  {
    var u := FinishFront(s, steps);
    var k := s.timers[0].owner.gather;
    assert u.groups[k].parent == s.groups[k].parent;
    assert forall k' :: k' in u.groups ==> u.groups[k'].parent == s.groups[k'].parent;
  }

  /** A completion that does not resume the root keeps the invariant and
      drops one sleeper. */
  lemma FireChildStays(s: State, steps: seq<Step>, ties: seq<nat>, rp: nat)
    requires Inv(s, steps, rp) && |s.timers| > 0 && s.timers[0].expiry < s.now
    requires s.timers[0].owner.ChildSleeper?
    requires var k := s.timers[0].owner.gather;
             !(s.groups[k].parent.Waiting? && FinishFront(s, steps).groups[k].parent.Finished?)
    ensures var r := Fire(s, steps, ties);
            && Inv(r, steps, RootPos(r.root, steps))
            && Measure(r, steps) < Measure(s, steps)
            && r.root == s.root
  {
    FinishCore(s, steps, rp);
    FinishLinks(s, steps);
    FinishFailureFrame(s, steps);
    FireChildIs(s, steps, ties);
    MeasureDrops(s, Fire(s, steps, ties), steps);
  }

  /** A completion that finished the parent the root awaited with a value
      resumes the root, which runs its next step. */
  lemma FireChildWakes(s: State, steps: seq<Step>, ties: seq<nat>, rp: nat)
    requires Inv(s, steps, rp) && |s.timers| > 0 && s.timers[0].expiry < s.now
    requires s.timers[0].owner.ChildSleeper?
    requires var k := s.timers[0].owner.gather;
             && s.groups[k].parent.Waiting? && FinishFront(s, steps).groups[k].parent.Finished?
             && FinishFront(s, steps).groups[k].parent.result.Returned?
    ensures var r := Fire(s, steps, ties);
            && Inv(r, steps, RootPos(r.root, steps))
            && Measure(r, steps) < Measure(s, steps)
            && Advanced(s.root, r.root, steps)
  {
    FireChildResumes(s, steps, rp);
    FireChildIsResume(s, steps, ties);
    WakeStep(s, FinishFront(s, steps), Fire(s, steps, ties), steps, ties, rp);
  }

  /** A root suspended in a combinator at step `rp - 1` and run on from
      step `rp`, with nothing waiting on it and one sleeper fewer, keeps
      the invariant and leaves less work. */
  lemma WakeStep(s: State, u: State, r: State, steps: seq<Step>, ties: seq<nat>, rp: nat)
    requires s.root.SuspendedAt? && s.root.step < |steps| && steps[s.root.step].Gather?
    requires rp == s.root.step + 1 && Core(u, steps, rp) && Quiet(u)
    requires |u.timers| + 1 == |s.timers| && r == RunFrom(u, steps, rp, ties)
    ensures Inv(r, steps, RootPos(r.root, steps))
    ensures Measure(r, steps) < Measure(s, steps) && Advanced(s.root, r.root, steps)
  {
    RunFromInv(u, steps, rp, ties);
    WakeProgress(s, u, steps, ties, rp);
  }

  /** The root run on after a sleep or a combinator is one step further,
      with less work left. */
  lemma WakeProgress(s: State, u: State, steps: seq<Step>, ties: seq<nat>, rp: nat)
    requires ValidScript(steps) && s.root.SuspendedAt? && s.root.step < |steps| && !steps[s.root.step].Yield?
    requires rp == s.root.step + 1 && |u.timers| + 1 == |s.timers|
    ensures var r := RunFrom(u, steps, rp, ties);
            Measure(r, steps) < Measure(s, steps) && Advanced(s.root, r.root, steps)
  {
    RunFromMeasure(u, steps, rp, ties);
  }

  /** The parent the root awaited at step `k` rethrew: the root's
      `unhandled_exception` stores the exception and the root is finished,
      with every combinator it reached accounted for. */
  lemma FireChildFails(s: State, steps: seq<Step>, ties: seq<nat>, rp: nat)
    requires Inv(s, steps, rp) && |s.timers| > 0 && s.timers[0].expiry < s.now
    requires s.timers[0].owner.ChildSleeper?
    requires var k := s.timers[0].owner.gather;
             && s.groups[k].parent.Waiting? && FinishFront(s, steps).groups[k].parent.Finished?
             && FinishFront(s, steps).groups[k].parent.result.Threw?
    ensures var k, u := s.timers[0].owner.gather, FinishFront(s, steps);
            var r := Fire(s, steps, ties);
            && r == u.(root := Failed(k, u.groups[k].parent.result.exc))
            && Inv(r, steps, RootPos(r.root, steps))
            && Measure(r, steps) < Measure(s, steps)
            && Advanced(s.root, r.root, steps)
  {
    var k, u := s.timers[0].owner.gather, FinishFront(s, steps);
    var r := u.(root := Failed(k, u.groups[k].parent.result.exc));
    FailLinks(s, u, steps, k, u.groups[k].parent.result.exc, rp);
    FinishCore(s, steps, rp);
    RootMoveCore(u, r, steps, rp);
    FireChildIs(s, steps, ties);
    MeasureDrops(s, r, steps);
  }

  /** A move that keeps the root's position and drops a sleeper shrinks
      the work left. */
  lemma MeasureDrops(a: State, b: State, steps: seq<Step>)
    requires RootPos(b.root, steps) == RootPos(a.root, steps) && |b.timers| < |a.timers|
    ensures Measure(b, steps) < Measure(a, steps)
  {
  }

  /** After a rethrow into the root, the root waits on nothing and the one
      failed parent is the one it failed in. */
  lemma FailLinks(s: State, u: State, steps: seq<Step>, k: nat, e: int, rp: nat)
    requires k < |steps| && steps[k].Gather? && k in s.groups && s.groups[k].parent.Waiting?
    requires RootPos(s.root, steps) == rp && RootLinked(s, steps) && GroupsLinked(s) && FailureLinked(s)
    requires |s.timers| > 0 && s.timers[0].owner.ChildSleeper? && u.timers == s.timers[1..]
    requires k in u.groups && u.groups == s.groups[k := u.groups[k]] && u.groups[k].parent == Finished(Threw(e))
    ensures var r := u.(root := Failed(k, e));
            && s.root == SuspendedAt(k) && RootPos(r.root, steps) == rp
            && RootLinked(r, steps) && GroupsLinked(r) && FailureLinked(r)
  {
    assert s.root == SuspendedAt(k);
    assert RootSleeper !in Owners(s.timers);
    assert Owners(s.timers) == {s.timers[0].owner} + Owners(u.timers);
    FailedRootLinks(s, u, steps, k, e);
  }

  /** The root awaiting the parent at step `k` fails with that parent's
      exception `e`: it waits on nothing, and the one failed parent is the
      one it failed in. */
  lemma FailedRootLinks(s: State, u: State, steps: seq<Step>, k: nat, e: int)
    requires s.root == SuspendedAt(k) && k < |steps| && k in s.groups
    requires GroupsLinked(s) && FailureLinked(s)
    requires k in u.groups && u.groups == s.groups[k := u.groups[k]] && u.groups[k].parent == Finished(Threw(e))
    requires RootSleeper !in Owners(u.timers)
    ensures var r := u.(root := Failed(k, e));
            RootLinked(r, steps) && GroupsLinked(r) && FailureLinked(r)
  {
    var r := u.(root := Failed(k, e));
    UpdateKeeps(s.groups, k, u.groups[k]);
    forall k' | k' in r.groups && k' != k
      ensures r.groups[k'].parent == s.groups[k'].parent && !s.groups[k'].parent.Waiting?
      ensures !(s.groups[k'].parent.Finished? && s.groups[k'].parent.result.Threw?)
    {
    }
  }

  /** Firing a helper's sleeper finishes that helper; the root is resumed
      when its parent finished, and otherwise stays put. */
  lemma FireChild(s: State, steps: seq<Step>, ties: seq<nat>, rp: nat)
    requires Inv(s, steps, rp) && |s.timers| > 0 && s.timers[0].expiry < s.now
    requires s.timers[0].owner.ChildSleeper?
    ensures var r := Fire(s, steps, ties);
            && Inv(r, steps, RootPos(r.root, steps))
            && Measure(r, steps) < Measure(s, steps)
            && Advanced(s.root, r.root, steps)
  {
    var k := s.timers[0].owner.gather;
    var u := FinishFront(s, steps);
    if s.groups[k].parent.Waiting? && u.groups[k].parent.Finished? {
      if u.groups[k].parent.result.Returned? {
        FireChildWakes(s, steps, ties, rp);
      } else {
        FireChildFails(s, steps, ties, rp);
      }
    } else {
      FireChildStays(s, steps, ties, rp);
    }
  }

  /** One iteration of the inner loop with an expired front keeps the
      invariant, leaves the loop's resume count alone and shrinks the work
      left. */
  lemma FireKeepsInv(s: State, steps: seq<Step>, ties: seq<nat>, rp: nat)
    requires Inv(s, steps, rp) && |s.timers| > 0 && s.timers[0].expiry < s.now
    ensures var r := Fire(s, steps, ties);
            && Inv(r, steps, RootPos(r.root, steps))
            && Measure(r, steps) < Measure(s, steps)
            && Advanced(s.root, r.root, steps)
  {
    if s.timers[0].owner.RootSleeper? {
      FireRoot(s, steps, ties, rp);
    } else {
      FireChild(s, steps, ties, rp);
    }
  }

  /** `sleep_until` moves only the clock, forward: the invariant holds and
      the front has expired afterwards. */
  lemma SleepKeepsInv(s: State, steps: seq<Step>, rp: nat)
    requires Inv(s, steps, rp) && |s.timers| > 0 && s.now <= s.timers[0].expiry
    ensures var r := SleepUntilFront(s);
            && Inv(r, steps, rp) && r.root == s.root && r.timers == s.timers
            && r.timers[0].expiry < r.now && Measure(r, steps) == Measure(s, steps)
  {
    var r := SleepUntilFront(s);
    LaterCore(s, r, steps, rp);
  }

  /** Moving the clock forward keeps the bookkeeping: every firing still
      happened no later than now. */
  lemma LaterCore(s: State, r: State, steps: seq<Step>, rp: nat)
    requires Core(s, steps, rp) && r == s.(now := r.now) && s.now <= r.now
    ensures Core(r, steps, rp)
  {
    BookkeepingFrame(s, r, steps);
  }

  /** With no sleeper registered, every dispatched combinator has seen all
      its helpers finish, in some order, and its parent has finished. */
  lemma EmptyMeansCompleted(s: State, steps: seq<Step>)
    requires |s.timers| == 0 && GroupsReplayed(s, steps) && ChildConverse(s, steps)
    ensures forall k :: k in s.groups ==>
              IsOrder(s.orders[k], |steps[k].children|) && s.groups[k].parent.Finished?
  {
    forall k | k in s.groups
      ensures IsOrder(s.orders[k], |steps[k].children|) && s.groups[k].parent.Finished?
    {
      var cs, n := s.orders[k], |steps[k].children|;
      forall i | 0 <= i < n
        ensures i in cs
      {
        assert i !in cs ==> ChildSleeper(k, i) in Owners(s.timers);
      }
      CoverBound(cs, n);
      DistinctBound(cs, n);
      CompletedGroupFinishes(steps[k].all, steps[k].children, cs);
    }
  }

  /** A root suspended in a combinator's `co_await` waits on that
      combinator's parent. */
  lemma RootWaitsOnGroup(s: State, steps: seq<Step>, rp: nat)
    requires RootPos(s.root, steps) == rp && DispatchedBefore(s, steps, rp) && GroupsLinked(s)
    requires s.root.SuspendedAt? && s.root.step < |steps| && steps[s.root.step].Gather?
    ensures s.root.step in s.groups && s.groups[s.root.step].parent.Waiting?
  {
  }

  /** Once the timer set is empty, a root that has not finished is fresh or
      suspended in a yield, and nothing waits on it. */
  lemma EmptyMeansYielded(s: State, steps: seq<Step>, rp: nat)
    requires Inv(s, steps, rp) && |s.timers| == 0 && !s.root.IsDone()
    ensures Quiet(s)
    ensures s.root.SuspendedAt? ==> s.root.step < |steps| && steps[s.root.step].Yield?
  {
    EmptyMeansCompleted(s, steps);
    if s.root.SuspendedAt? && steps[s.root.step].Gather? {
      RootWaitsOnGroup(s, steps, rp);
      assert false;
    }
  }

  /** The outer loop resumes the root once the timer set is empty; the
      root runs its next step, the invariant holds again, the work left
      shrinks and the resume count goes up by one. */
  lemma ResumeKeepsInv(s: State, steps: seq<Step>, ties: seq<nat>, rp: nat)
    requires Inv(s, steps, rp) && |s.timers| == 0 && !s.root.IsDone()
    ensures var r := ResumeRoot(s, steps, ties);
            && Inv(r, steps, RootPos(r.root, steps))
            && Measure(r, steps) < Measure(s, steps)
            && ResumedOnce(s.root, r.root, steps)
  {
    EmptyMeansYielded(s, steps, rp);
    assert ResumeRoot(s, steps, ties) == RunFrom(s, steps, rp, ties);
    RunFromInv(s, steps, rp, ties);
  }
}
