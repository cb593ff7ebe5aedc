/** Every transition of the loop keeps the scheduler invariant. */
module SchedulerProofs {
  import opened Basics
  import opened Timers
  import opened Combinators
  import opened Scheduler

  /** The combinator bookkeeping depends only on the groups, the orders
      and the dispatch times. */
  lemma BookkeepingFrame(s: State, r: State, steps: seq<Step>)
    requires r.groups == s.groups && r.orders == s.orders && r.dispatchedAt == s.dispatchedAt
    requires GroupsReplayed(s, steps) && FirstIsEarliest(s, steps)
    ensures GroupsReplayed(r, steps) && FirstIsEarliest(r, steps)
  {
  }

  /** The clock part of the invariant depends only on the clock, the
      timer set and the log. */
  lemma ClockFrame(a: State, b: State, rp: nat)
    requires a.now == b.now && a.timers == b.timers && a.fired == b.fired && ClockAhead(a, rp)
    ensures ClockAhead(b, rp)
  {
  }

  /** Only `RootPos` of the root enters the bookkeeping: a root that moved
      without changing its position keeps it. */
  lemma RootMoveCore(u: State, r: State, steps: seq<Step>, rp: nat)
    requires Core(u, steps, rp) && r == u.(root := r.root) && RootPos(r.root, steps) == rp
    ensures Core(r, steps, rp)
  {
    BookkeepingFrame(u, r, steps);
  }

  /** Updating a key already present leaves the keys as they were. */
  lemma UpdateKeeps<K, V>(m: map<K, V>, k: K, v: V)
    requires k in m
    ensures m[k := v].Keys == m.Keys
  {
  }

  /** A step that dispatches nothing moves the dispatch frontier past it. */
  lemma FrontierPastStep(s: State, r: State, steps: seq<Step>, j: nat)
    requires r.groups == s.groups && j < |steps| && !steps[j].Gather?
    requires DispatchedBefore(s, steps, j)
    ensures DispatchedBefore(r, steps, j + 1)
  {
  }

  /** The count of registrations advances by the step's own. */
  lemma CountedPastStep(s: State, r: State, steps: seq<Step>, j: nat)
    requires Counted(s, steps, j) && j < |steps|
    requires |r.fired| + |r.timers| == |s.fired| + |s.timers| + Registrations(steps[j])
    ensures Counted(r, steps, j + 1)
  {
  }

  /** A root that suspends in a step other than a combinator leaves no
      parent waiting, when none was. */
  lemma QuietGroupsLinked(s: State, r: State, j: nat)
    requires r.groups == s.groups && r.root == SuspendedAt(j) && j !in s.groups
    requires forall k :: k in s.groups ==> s.groups[k].parent.Finished?
    ensures GroupsLinked(r)
  {
  }

  /** A root that has not failed, while no parent finished with an
      exception, keeps failures linked. */
  lemma NoFailureLinked(r: State)
    requires !r.root.Failed?
    requires forall k :: k in r.groups ==> r.groups[k].parent.Waiting? || r.groups[k].parent.result.Returned?
    ensures FailureLinked(r)
  {
  }

  /** The root starts step `j`. A sleeper it registers belongs to step `j`,
      which no firing so far saw started; every older sleeper is a
      helper's, whose step does not depend on the root. */
  lemma ClockPastStep(s: State, r: State, j: nat)
    requires ClockAhead(s, j) && RootSleeper !in Owners(s.timers)
    requires r.now == s.now && r.fired == s.fired
    requires forall x :: x in r.timers ==> x in s.timers || Origin(x.owner, j + 1) == j
    ensures ClockAhead(r, j + 1)
  {
    forall i, x | 0 <= i < |r.fired| && x in r.timers && Origin(x.owner, j + 1) < r.fired[i].progress
      ensures r.fired[i].timer.expiry <= x.expiry
    {
      assert r.fired[i].progress <= j;
      OwnerOfMember(s.timers, x);
    }
  }

  /** The root runs past its last step and finishes. */
  lemma RunFromDone(s: State, steps: seq<Step>, ties: seq<nat>)
    requires Core(s, steps, |steps|) && Quiet(s)
    ensures Inv(RunFrom(s, steps, |steps|, ties), steps, |steps|)
  {
    var r := RunFrom(s, steps, |steps|, ties);
    assert r == s.(root := Done);
    RootMoveCore(s, r, steps, |steps|);
    NoFailureLinked(r);
  }

  /** A root that yields suspends without registering anything. */
  lemma RunFromYield(s: State, steps: seq<Step>, j: nat, ties: seq<nat>)
    requires Core(s, steps, j) && Quiet(s) && j < |steps| && steps[j].Yield?
    ensures Inv(RunFrom(s, steps, j, ties), steps, j + 1)
  {
    var r := RunFrom(s, steps, j, ties);
    assert r == s.(root := SuspendedAt(j));
    BookkeepingFrame(s, r, steps);
    FrontierPastStep(s, r, steps, j);
    CountedPastStep(s, r, steps, j);
    QuietGroupsLinked(s, r, j);
    ClockPastStep(s, r, j);
    NoFailureLinked(r);
  }

  /** The state right after the root registers its own sleeper. */
  function SleepStep(s: State, steps: seq<Step>, j: nat, ties: seq<nat>): (r: State)
    requires j < |steps| && steps[j].Sleep?
    ensures r.timers == Insert(s.timers, Timer(Deadline(steps[j].wake, s.now), RootSleeper), TieAt(ties, s.inserted))
    ensures r.root == SuspendedAt(j) && r.now == s.now && r.fired == s.fired
    ensures r.groups == s.groups && r.orders == s.orders && r.dispatchedAt == s.dispatchedAt
  {
    AddTimer(s, Deadline(steps[j].wake, s.now), RootSleeper, ties).(root := SuspendedAt(j))
  }

  /** The root's sleeper joins the set: it stays sorted and one per frame,
      and the root is linked to it. */
  lemma SleepSet(s: State, steps: seq<Step>, j: nat, ties: seq<nat>)
    requires j < |steps| && steps[j].Sleep?
    requires Sorted(s.timers) && UniqueOwners(s.timers) && RootSleeper !in Owners(s.timers)
    ensures var r := SleepStep(s, steps, j, ties);
            Sorted(r.timers) && UniqueOwners(r.timers) && RootLinked(r, steps)
  {
    var t := Timer(Deadline(steps[j].wake, s.now), RootSleeper);
    InsertFresh(s.timers, t, TieAt(ties, s.inserted));
  }

  /** The root's sleeper leaves the helpers' sleepers consistent. */
  lemma SleepChildTimers(s: State, steps: seq<Step>, j: nat, ties: seq<nat>)
    requires j < |steps| && steps[j].Sleep? && ChildTimers(s, steps)
    ensures ChildTimers(SleepStep(s, steps, j, ties), steps)
  {
    var t := Timer(Deadline(steps[j].wake, s.now), RootSleeper);
    InsertMembers(s.timers, t, TieAt(ties, s.inserted));
    InsertOwners(s.timers, t, TieAt(ties, s.inserted));
  }

  /** The root's sleeper, whatever its deadline, belongs to the step just
      started, so the clock stays consistent. */
  lemma SleepClock(s: State, steps: seq<Step>, j: nat, ties: seq<nat>)
    requires j < |steps| && steps[j].Sleep? && ClockAhead(s, j) && RootSleeper !in Owners(s.timers)
    ensures ClockAhead(SleepStep(s, steps, j, ties), j + 1)
  {
    var t := Timer(Deadline(steps[j].wake, s.now), RootSleeper);
    InsertMembers(s.timers, t, TieAt(ties, s.inserted));
    ClockPastStep(s, SleepStep(s, steps, j, ties), j);
  }

  /** A root that sleeps registers its own sleeper and suspends. */
  lemma RunFromSleep(s: State, steps: seq<Step>, j: nat, ties: seq<nat>)
    requires Core(s, steps, j) && Quiet(s) && j < |steps| && steps[j].Sleep?
    ensures Inv(RunFrom(s, steps, j, ties), steps, j + 1)
  {
    var r := SleepStep(s, steps, j, ties);
    SleepSet(s, steps, j, ties);
    SleepChildTimers(s, steps, j, ties);
    SleepClock(s, steps, j, ties);
    BookkeepingFrame(s, r, steps);
    FrontierPastStep(s, r, steps, j);
    CountedPastStep(s, r, steps, j);
    QuietGroupsLinked(s, r, j);
    NoFailureLinked(r);
    assert RunFrom(s, steps, j, ties) == r;
  }

  /** A combinator that has not been dispatched owns no sleeper. */
  lemma UndispatchedOwnsNothing(s: State, steps: seq<Step>, k: nat)
    requires ChildForward(s, steps) && k !in s.groups
    ensures forall i :: ChildSleeper(k, i) !in Owners(s.timers)
  {
    forall i | ChildSleeper(k, i) in Owners(s.timers)
      ensures false
    {
      var x := MemberOfOwner(s.timers, ChildSleeper(k, i));
    }
  }

  /** The state right after the root dispatches the combinator at step `j`. */
  function Dispatch(s: State, steps: seq<Step>, j: nat, ties: seq<nat>): (r: State)
    requires ValidScript(steps) && j < |steps| && steps[j].Gather?
    ensures r.timers == Register(s.timers, s.now, s.inserted, j, steps[j].children, |steps[j].children|, ties)
    ensures r.groups == s.groups[j := Dispatched(steps[j].all, |steps[j].children|)]
    ensures r.orders == s.orders[j := []] && r.dispatchedAt == s.dispatchedAt[j := s.now]
    ensures r.root == SuspendedAt(j) && r.now == s.now && r.fired == s.fired
  {
    var children := steps[j].children;
    s.(timers := Register(s.timers, s.now, s.inserted, j, children, |children|, ties),
       inserted := s.inserted + |children|,
       groups := s.groups[j := Dispatched(steps[j].all, |children|)],
       orders := s.orders[j := []],
       dispatchedAt := s.dispatchedAt[j := s.now],
       root := SuspendedAt(j),
       registered := s.registered + HelperSleepers(s.now, j, children, |children|))
  }

  lemma RunFromGatherIsDispatch(s: State, steps: seq<Step>, j: nat, ties: seq<nat>)
    requires ValidScript(steps) && j < |steps| && steps[j].Gather?
    ensures RunFrom(s, steps, j, ties) == Dispatch(s, steps, j, ties)
  {
  }

  /** The helpers' sleepers are registered, each expiring when its child
      asked to wake, counted from now. */
  lemma DispatchForward(s: State, steps: seq<Step>, j: nat, ties: seq<nat>)
    requires ValidScript(steps) && j < |steps| && steps[j].Gather? && j !in s.groups
    requires ChildForward(s, steps)
    ensures ChildForward(Dispatch(s, steps, j, ties), steps)
  {
    var r := Dispatch(s, steps, j, ties);
    var children := steps[j].children;
    RegisterMembers(s.timers, s.now, s.inserted, j, children, |children|, ties);
    forall x | x in r.timers && x.owner.ChildSleeper?
      ensures x.owner.gather in r.groups && x.owner.gather in r.orders
      ensures x.owner.gather in r.dispatchedAt
      ensures x.owner.gather < |steps| && steps[x.owner.gather].Gather?
      ensures x.owner.child < |steps[x.owner.gather].children|
      ensures x.owner.child !in r.orders[x.owner.gather]
      ensures x.expiry == Deadline(steps[x.owner.gather].children[x.owner.child].wake, r.dispatchedAt[x.owner.gather])
    {
      if x in s.timers {
        assert x.owner.gather != j;
      }
    }
  }

  /** Every unfinished helper, old or new, has a sleeper. */
  lemma DispatchConverse(s: State, steps: seq<Step>, j: nat, ties: seq<nat>)
    requires ValidScript(steps) && j < |steps| && steps[j].Gather?
    requires ChildConverse(s, steps)
    ensures ChildConverse(Dispatch(s, steps, j, ties), steps)
  {
    var r := Dispatch(s, steps, j, ties);
    var children := steps[j].children;
    RegisterOwners(s.timers, s.now, s.inserted, j, children, |children|, ties);
    forall k, i | (k in r.groups && k in r.orders && k < |steps| && steps[k].Gather?
                   && 0 <= i < |steps[k].children| && i !in r.orders[k])
      ensures ChildSleeper(k, i) in Owners(r.timers)
    {
      if k != j {
        assert ChildSleeper(k, i) in Owners(s.timers);
      } else {
        assert IsHelper(ChildSleeper(k, i), j, |children|);
      }
    }
  }

  /** The helpers' sleepers belong to step `j`, whatever their deadlines. */
  lemma DispatchClock(s: State, steps: seq<Step>, j: nat, ties: seq<nat>)
    requires ValidScript(steps) && j < |steps| && steps[j].Gather?
    requires ClockAhead(s, j) && RootSleeper !in Owners(s.timers)
    ensures ClockAhead(Dispatch(s, steps, j, ties), j + 1)
  {
    var r := Dispatch(s, steps, j, ties);
    var children := steps[j].children;
    RegisterMembers(s.timers, s.now, s.inserted, j, children, |children|, ties);
    ClockPastStep(s, r, j);
  }

  /** The new sleepers keep the set sorted and one per frame, and the root,
      which waits on the combinator, owns none. */
  lemma DispatchSet(s: State, steps: seq<Step>, j: nat, ties: seq<nat>)
    requires ValidScript(steps) && j < |steps| && steps[j].Gather? && j !in s.groups
    requires Sorted(s.timers) && UniqueOwners(s.timers) && ChildForward(s, steps)
    requires RootSleeper !in Owners(s.timers)
    ensures var r := Dispatch(s, steps, j, ties);
            Sorted(r.timers) && UniqueOwners(r.timers) && RootLinked(r, steps)
  {
    var children := steps[j].children;
    RegisterSorted(s.timers, s.now, s.inserted, j, children, |children|, ties);
    UndispatchedOwnsNothing(s, steps, j);
    RegisterUnique(s.timers, s.now, s.inserted, j, children, |children|, ties);
    RegisterOwners(s.timers, s.now, s.inserted, j, children, |children|, ties);
  }

  /** The new group is the replay of no completions, and no other group
      changes. */
  lemma DispatchGroups(s: State, steps: seq<Step>, j: nat, ties: seq<nat>)
    requires ValidScript(steps) && j < |steps| && steps[j].Gather?
    requires GroupsReplayed(s, steps) && FirstIsEarliest(s, steps)
    ensures var r := Dispatch(s, steps, j, ties);
            GroupsReplayed(r, steps) && FirstIsEarliest(r, steps)
  {
    assert Replay(steps[j].all, steps[j].children, []) == Dispatched(steps[j].all, |steps[j].children|);
  }

  /** The combinator at step `j` joins the dispatched ones; its parent is
      the only one waiting, on the root that awaits it. */
  lemma DispatchLinks(s: State, steps: seq<Step>, j: nat, ties: seq<nat>)
    requires ValidScript(steps) && j < |steps| && steps[j].Gather?
    requires DispatchedBefore(s, steps, j) && forall k :: k in s.groups ==> s.groups[k].parent.Finished?
    ensures var r := Dispatch(s, steps, j, ties);
            DispatchedBefore(r, steps, j + 1) && GroupsLinked(r)
  {
  }

  /** Dispatching keeps the timer set sorted, one sleeper per frame, and
      linked to the helpers. */
  lemma DispatchTimers(s: State, steps: seq<Step>, j: nat, ties: seq<nat>)
    requires ValidScript(steps) && j < |steps| && steps[j].Gather? && j !in s.groups
    requires Sorted(s.timers) && UniqueOwners(s.timers) && ChildTimers(s, steps)
    requires RootSleeper !in Owners(s.timers)
    ensures var r := Dispatch(s, steps, j, ties);
            Sorted(r.timers) && UniqueOwners(r.timers) && ChildTimers(r, steps)
  {
    DispatchSet(s, steps, j, ties);
    DispatchForward(s, steps, j, ties);
    DispatchConverse(s, steps, j, ties);
  }

  /** Dispatching keeps the log of fired sleepers and the count, one step
      further. */
  lemma DispatchLog(s: State, steps: seq<Step>, j: nat, ties: seq<nat>)
    requires ValidScript(steps) && j < |steps| && steps[j].Gather?
    requires FiredInOrder(s.fired) && ClockAhead(s, j) && Counted(s, steps, j)
    requires RootSleeper !in Owners(s.timers)
    ensures var r := Dispatch(s, steps, j, ties);
            ClockAhead(r, j + 1) && FiredInOrder(r.fired) && Counted(r, steps, j + 1)
  {
    DispatchClock(s, steps, j, ties);
    CountedPastStep(s, Dispatch(s, steps, j, ties), steps, j);
  }

  /** Dispatching keeps the bookkeeping part of the invariant, one step
      further. */
  lemma DispatchCore(s: State, steps: seq<Step>, j: nat, ties: seq<nat>)
    requires Core(s, steps, j) && Quiet(s) && j < |steps| && steps[j].Gather?
    ensures Core(Dispatch(s, steps, j, ties), steps, j + 1)
  {
    assert j !in s.groups;
    DispatchTimers(s, steps, j, ties);
    DispatchLog(s, steps, j, ties);
    DispatchGroups(s, steps, j, ties);
    DispatchLinks(s, steps, j, ties);
  }

  /** Dispatching keeps every part of the invariant, one step further. */
  lemma DispatchInv(s: State, steps: seq<Step>, j: nat, ties: seq<nat>)
    requires Core(s, steps, j) && Quiet(s) && j < |steps| && steps[j].Gather?
    ensures Inv(Dispatch(s, steps, j, ties), steps, j + 1)
  {
    assert j !in s.groups;
    DispatchCore(s, steps, j, ties);
    DispatchSet(s, steps, j, ties);
    DispatchLinks(s, steps, j, ties);
    DispatchFailureLinked(s, steps, j, ties);
  }

  /** The new parent waits, and every older one returned a value. */
  lemma DispatchFailureLinked(s: State, steps: seq<Step>, j: nat, ties: seq<nat>)
    requires ValidScript(steps) && j < |steps| && steps[j].Gather? && Quiet(s)
    ensures FailureLinked(Dispatch(s, steps, j, ties))
  {
    NoFailureLinked(Dispatch(s, steps, j, ties));
  }

  /** A root that awaits a combinator dispatches its helpers, each of which
      registers its sleeper, and suspends. */
  lemma RunFromGather(s: State, steps: seq<Step>, j: nat, ties: seq<nat>)
    requires Core(s, steps, j) && Quiet(s) && j < |steps| && steps[j].Gather?
    ensures Inv(RunFrom(s, steps, j, ties), steps, j + 1)
  {
    DispatchInv(s, steps, j, ties);
    RunFromGatherIsDispatch(s, steps, j, ties);
  }

  /** Running the root from step `j` until it suspends or finishes takes
      one step off the work left, and turns the step's registrations into
      registered sleepers. */
  lemma RunFromMeasure(s: State, steps: seq<Step>, j: nat, ties: seq<nat>)
    requires ValidScript(steps) && j <= |steps|
    ensures var r := RunFrom(s, steps, j, ties);
            && Measure(r, steps) == Pending(steps, j) + 2 * |s.timers|
  {
  }

  /** Resuming a root that nothing waits on, at step `j`, re-establishes
      the whole invariant at the step it suspends in. */
  lemma RunFromInv(s: State, steps: seq<Step>, j: nat, ties: seq<nat>)
    requires Core(s, steps, j) && Quiet(s) && j <= |steps|
    ensures var r := RunFrom(s, steps, j, ties);
            && Inv(r, steps, RootPos(r.root, steps))
            && Measure(r, steps) == Pending(steps, j) + 2 * |s.timers|
  {
    RunFromMeasure(s, steps, j, ties);
    if j == |steps| {
      RunFromDone(s, steps, ties);
    } else {
      match steps[j]
      case Sleep(_) => RunFromSleep(s, steps, j, ties);
      case Yield => RunFromYield(s, steps, j, ties);
      case Gather(_, _) => RunFromGather(s, steps, j, ties);
    }
  }
}
