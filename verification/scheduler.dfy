/** `Loop::run` (include/coroutines/coro.cpp) driving one root coroutine.
    The root is a script of steps: sleeping (for a duration or until a time
    point), suspending without registering anything, or awaiting a
    `when_all`/`when_any` of child scripts. The whole
    program is an explicit state advanced by pure transitions; the clock is
    virtual and tie order among equal expiries is an oracle `tie`, indexed
    by how many sleepers were registered before. */
module Scheduler {
  import opened Basics
  import opened Timers
  import opened Combinators

  /** Who a sleeper belongs to: the root's own sleep, or the sleep of child
      `child` of the combinator awaited at step `gather`. */
  datatype Owner = RootSleeper | ChildSleeper(gather: nat, child: nat)

  /** One step of the root coroutine. */
  datatype Step =
    | Sleep(wake: Wake)                        // co_await sleep_for(d) or sleep_until(t)
    | Yield                                    // suspend, nothing registered
    | Gather(all: bool, children: seq<Child>)  // co_await when_all / when_any

  /** The root coroutine: not yet started, suspended inside step `step`,
      finished after its last step, or finished because the combinator it
      awaited at step `step` rethrew `exc`, which nothing in the root
      catches. */
  datatype Root = Fresh | SuspendedAt(step: nat) | Done | Failed(step: nat, exc: Exc)
  {
    /** `coroutine.done()`: the root reached its final suspend point. */
    predicate IsDone() { Done? || Failed? }
  }

  /** A sleeper that fired: which timer, the clock reading it fired at, the
      step of the root that registered it, and how many steps the root had
      started when it fired. */
  datatype Firing = Firing(timer: Timer<Owner>, at: int, origin: nat, progress: nat)

  /** Everything the loop and the coroutines share: the clock, the timer
      set, the root, and per combinator step its group, the order its
      helpers finished in and the clock reading it was dispatched at; plus
      the log of fired sleepers and the log of every sleeper registered. */
  datatype State = State(
    now: int,
    timers: seq<Timer<Owner>>,
    inserted: nat,
    root: Root,
    groups: map<nat, Group>,
    orders: map<nat, seq<nat>>,
    dispatchedAt: map<nat, int>,
    fired: seq<Firing>,
    registered: seq<Timer<Owner>>)

  /** `when_all` and `when_any` require at least one child, and the counts
      fit a `size_t`. */
  predicate ValidScript(steps: seq<Step>) {
    forall k :: 0 <= k < |steps| && steps[k].Gather? ==> 0 < |steps[k].children| <= SizeMax
  }

  /** Sleepers a step registers when it runs. */
  function Registrations(step: Step): nat {
    match step
    case Sleep(_) => 1
    case Yield => 0
    case Gather(_, children) => |children|
  }

  /** Sleepers registered by the first `j` steps. */
  function Registered(steps: seq<Step>, j: nat): nat
    requires j <= |steps|
  {
    if j == 0 then 0 else Registered(steps, j - 1) + Registrations(steps[j - 1])
  }

  /** `Yield` steps among the first `j`. */
  function Yields(steps: seq<Step>, j: nat): nat
    requires j <= |steps|
  {
    if j == 0 then 0 else Yields(steps, j - 1) + (if steps[j - 1].Yield? then 1 else 0)
  }

  /** The step the root continues with when resumed. */
  function RootPos(root: Root, steps: seq<Step>): nat {
    match root
    case Fresh => 0
    case SuspendedAt(k) => k + 1
    case Done => |steps|
    case Failed(k, _) => k + 1
  }

  /** The program before `Loop::run` starts. */
  function Initial(now: int): State {
    State(now, [], 0, Fresh, map[], map[], map[], [], [])
  }

  /** The tie choice of the `n`-th registration (choices past the end of
      `ties` are 0). */
  function TieAt(ties: seq<nat>, n: nat): nat {
    if n < |ties| then ties[n] else 0
  }

  /** `Loop::addTimer` for a sleeper of `owner` expiring at `expiry`. */
  function AddTimer(s: State, expiry: int, owner: Owner, ties: seq<nat>): State {
    s.(timers := Insert(s.timers, Timer(expiry, owner), TieAt(ties, s.inserted)), inserted := s.inserted + 1,
       registered := s.registered + [Timer(expiry, owner)])
  }

  /** Helpers `0 .. m-1` of the combinator at step `k`, dispatched at clock
      reading `now`, run up to their `sleep_for` in that order, each
      registering one sleeper; `n` sleepers were registered before. */
  function Register(ts: seq<Timer<Owner>>, now: int, n: nat, k: nat, children: seq<Child>, m: nat, ties: seq<nat>): (r: seq<Timer<Owner>>)
    requires m <= |children|
    ensures |r| == |ts| + m
  {
    if m == 0 then ts
    else
      var before := Register(ts, now, n, k, children, m - 1, ties);
      Insert(before, Timer(Deadline(children[m - 1].wake, now), ChildSleeper(k, m - 1)), TieAt(ties, n + m - 1))
  }

  /** Owner `o` is one of helpers `0 .. m-1` of the combinator at step `k`. */
  predicate IsHelper(o: Owner, k: nat, m: nat) {
    o.ChildSleeper? && o.gather == k && o.child < m
  }

  /** After registering, the owners are the old ones plus helpers `0 .. m-1`. */
  lemma {:induction false} RegisterOwners(ts: seq<Timer<Owner>>, now: int, n: nat, k: nat, children: seq<Child>, m: nat, ties: seq<nat>)
    requires m <= |children|
    ensures forall o :: o in Owners(Register(ts, now, n, k, children, m, ties)) <==> o in Owners(ts) || IsHelper(o, k, m)
  {
    if m > 0 {
      var before := Register(ts, now, n, k, children, m - 1, ties);
      var t := Timer(Deadline(children[m - 1].wake, now), ChildSleeper(k, m - 1));
      RegisterOwners(ts, now, n, k, children, m - 1, ties);
      InsertOwners(before, t, TieAt(ties, n + m - 1));
    }
  }

  /** Each new sleeper belongs to one of the helpers and expires when that
      helper's child asked to wake, counted from the dispatch. */
  lemma {:induction false} RegisterMembers(ts: seq<Timer<Owner>>, now: int, n: nat, k: nat, children: seq<Child>, m: nat, ties: seq<nat>)
    requires m <= |children|
    ensures forall x :: x in Register(ts, now, n, k, children, m, ties) ==>
              x in ts || (IsHelper(x.owner, k, m) && x.expiry == Deadline(children[x.owner.child].wake, now))
  {
    if m > 0 {
      var before := Register(ts, now, n, k, children, m - 1, ties);
      var t := Timer(Deadline(children[m - 1].wake, now), ChildSleeper(k, m - 1));
      forall x | x in Register(ts, now, n, k, children, m, ties)
        ensures x in ts || (IsHelper(x.owner, k, m) && x.expiry == Deadline(children[x.owner.child].wake, now))
      {
        assert x == t || x in before by {
          InsertMembers(before, t, TieAt(ties, n + m - 1));
        }
        if x != t {
          RegisterMembers(ts, now, n, k, children, m - 1, ties);
        }
      }
    }
  }

  /** Registering keeps the set sorted. */
  lemma {:induction false} RegisterSorted(ts: seq<Timer<Owner>>, now: int, n: nat, k: nat, children: seq<Child>, m: nat, ties: seq<nat>)
    requires m <= |children| && Sorted(ts)
    ensures Sorted(Register(ts, now, n, k, children, m, ties))
  {
    if m > 0 {
      var before := Register(ts, now, n, k, children, m - 1, ties);
      RegisterSorted(ts, now, n, k, children, m - 1, ties);
      InsertSorted(before, Timer(Deadline(children[m - 1].wake, now), ChildSleeper(k, m - 1)), TieAt(ties, n + m - 1));
    }
  }

  /** Registering helpers of a combinator that has none registered keeps
      every frame to at most one sleeper. */
  lemma {:induction false} RegisterUnique(ts: seq<Timer<Owner>>, now: int, n: nat, k: nat, children: seq<Child>, m: nat, ties: seq<nat>)
    requires m <= |children| && UniqueOwners(ts)
    requires forall i :: ChildSleeper(k, i) !in Owners(ts)
    ensures UniqueOwners(Register(ts, now, n, k, children, m, ties))
  {
    if m > 0 {
      var before := Register(ts, now, n, k, children, m - 1, ties);
      RegisterUnique(ts, now, n, k, children, m - 1, ties);
      assert ChildSleeper(k, m - 1) !in Owners(before) by {
        RegisterOwners(ts, now, n, k, children, m - 1, ties);
      }
      InsertKeepsOwnersUnique(before, Timer(Deadline(children[m - 1].wake, now), ChildSleeper(k, m - 1)), TieAt(ties, n + m - 1));
    }
  }

  /** The sleepers helpers `0 .. m-1` of the combinator at step `k` ask
      for when dispatched at clock reading `now`, in declaration order. */
  function HelperSleepers(now: int, k: nat, children: seq<Child>, m: nat): (r: seq<Timer<Owner>>)
    requires m <= |children|
    ensures |r| == m
  {
    seq(m, i requires 0 <= i < m => Timer(Deadline(children[i].wake, now), ChildSleeper(k, i)))
  }

  /** Whatever the tie choices, registering adds exactly one sleeper per
      helper, expiring when that helper's child asked to wake, and nothing
      else. */
  lemma {:induction false} RegisterPermutes(ts: seq<Timer<Owner>>, now: int, n: nat, k: nat, children: seq<Child>, m: nat, ties: seq<nat>)
    requires m <= |children|
    ensures multiset(Register(ts, now, n, k, children, m, ties))
         == multiset(ts) + multiset(HelperSleepers(now, k, children, m))
  {
    if m == 0 {
      assert HelperSleepers(now, k, children, 0) == [];
    } else {
      var before := Register(ts, now, n, k, children, m - 1, ties);
      var t := Timer(Deadline(children[m - 1].wake, now), ChildSleeper(k, m - 1));
      var r := Insert(before, t, TieAt(ties, n + m - 1));
      assert Register(ts, now, n, k, children, m, ties) == r;
      RegisterPermutes(ts, now, n, k, children, m - 1, ties);
      InsertPermutes(before, t, TieAt(ties, n + m - 1));
      HelperSleepersStep(now, k, children, m);
      AppendPermutes(ts, before, r, HelperSleepers(now, k, children, m - 1), t);
    }
  }

  /** The sleepers of helpers `0 .. m-1` are those of `0 .. m-2` followed
      by helper `m-1`'s. */
  lemma HelperSleepersStep(now: int, k: nat, children: seq<Child>, m: nat)
    requires 0 < m <= |children|
    ensures HelperSleepers(now, k, children, m)
         == HelperSleepers(now, k, children, m - 1) + [Timer(Deadline(children[m - 1].wake, now), ChildSleeper(k, m - 1))]
  {
  }

  /** The root runs from step `j` until it suspends or finishes. A sleep
      registers the root's sleeper; a combinator dispatches its helpers,
      each of which suspends in its own `sleep_for`, so the root suspends
      in `co_await` right after. */
  function RunFrom(s: State, steps: seq<Step>, j: nat, ties: seq<nat>): (r: State)
    requires ValidScript(steps) && j <= |steps|
    ensures r.now == s.now && r.fired == s.fired
    ensures r.root == if j == |steps| then Done else SuspendedAt(j)
    ensures |r.timers| == |s.timers| + if j == |steps| then 0 else Registrations(steps[j])
  {
    if j == |steps| then s.(root := Done)
    else
      match steps[j]
      case Sleep(w) => AddTimer(s, Deadline(w, s.now), RootSleeper, ties).(root := SuspendedAt(j))
      case Yield => s.(root := SuspendedAt(j))
      case Gather(all, children) =>
        s.(timers := Register(s.timers, s.now, s.inserted, j, children, |children|, ties),
           inserted := s.inserted + |children|,
           groups := s.groups[j := Dispatched(all, |children|)],
           orders := s.orders[j := []],
           dispatchedAt := s.dispatchedAt[j := s.now],
           root := SuspendedAt(j),
           registered := s.registered + HelperSleepers(s.now, j, children, |children|))
  }

  /** The sleepers step `j` registers when the root runs it at clock
      reading `now`: the root's own for a sleep, none for a yield, one per
      helper for a combinator. */
  function StepSleepers(steps: seq<Step>, j: nat, now: int): seq<Timer<Owner>>
    requires j < |steps|
  {
    match steps[j]
    case Sleep(w) => [Timer(Deadline(w, now), RootSleeper)]
    case Yield => []
    case Gather(_, children) => HelperSleepers(now, j, children, |children|)
  }

  /** Running step `j` adds exactly that step's sleepers to the timer set,
      whatever the tie choices, and removes none. */
  lemma RunFromRegisters(s: State, steps: seq<Step>, j: nat, ties: seq<nat>)
    requires ValidScript(steps) && j < |steps|
    ensures multiset(RunFrom(s, steps, j, ties).timers) == multiset(s.timers) + multiset(StepSleepers(steps, j, s.now))
  {
    match steps[j]
    case Sleep(w) =>
      InsertPermutes(s.timers, Timer(Deadline(w, s.now), RootSleeper), TieAt(ties, s.inserted));
    case Yield =>
    case Gather(_, children) =>
      RegisterPermutes(s.timers, s.now, s.inserted, j, children, |children|, ties);
  }

  /** Running step `j` logs as registered exactly the sleepers that step
      adds to the timer set. */
  lemma RunFromLogs(s: State, steps: seq<Step>, j: nat, ties: seq<nat>)
    requires ValidScript(steps) && j <= |steps|
    ensures RunFrom(s, steps, j, ties).registered
         == s.registered + if j == |steps| then [] else StepSleepers(steps, j, s.now)
  {
  }

  /** The sleepers in the fired log, in firing order. */
  function FiredTimers(fired: seq<Firing>): (ts: seq<Timer<Owner>>)
    ensures |ts| == |fired| && forall i :: 0 <= i < |fired| ==> ts[i] == fired[i].timer
  {
    seq(|fired|, i requires 0 <= i < |fired| => fired[i].timer)
  }

  /** Every sleeper registered so far has either fired or is still in the
      timer set, and each registration accounts for exactly one of them. */
  ghost predicate Logged(s: State) {
    multiset(FiredTimers(s.fired)) + multiset(s.timers) == multiset(s.registered)
  }

  /** `coroutine.resume()` on the root: it continues after the step it is
      suspended in. A finished root is never resumed. A root suspended past
      its last step does not arise (`RootLinked` rules it out); it is left
      as it is so that the function needs no precondition on the root. */
  function ResumeRoot(s: State, steps: seq<Step>, ties: seq<nat>): State
    requires ValidScript(steps)
  {
    match s.root
    case Fresh => RunFrom(s, steps, 0, ties)
    case SuspendedAt(k) => if k < |steps| then RunFrom(s, steps, k + 1, ties) else s
    case Done => s
    case Failed(_, _) => s
  }

  /** The parent of the combinator the root awaits at step `k` has finished
      and resumes the root, whose `Task::Awaiter::await_resume` calls
      `result()`: a value lets the root run on after step `k`; an exception
      is rethrown into the root, where `unhandled_exception` stores it and
      the root goes to its final suspend point without running another
      step. */
  function Rejoin(u: State, steps: seq<Step>, k: nat, ties: seq<nat>): State
    requires ValidScript(steps) && k in u.groups && u.groups[k].parent.Finished?
  {
    match u.groups[k].parent.result
    case Threw(e) => u.(root := Failed(k, e))
    case Returned(_) => ResumeRoot(u, steps, ties)
  }

  /** `sleep_until(front.mExpireTime)`: the clock next reads one tick after
      the earliest expiry. */
  function SleepUntilFront(s: State): (r: State)
    requires |s.timers| > 0 && s.now <= s.timers[0].expiry
    ensures r == s.(now := r.now) && r.now > s.now && s.timers[0].expiry < r.now
  {
    s.(now := s.timers[0].expiry + 1)
  }

  /** The step that registered a sleeper of `o`, for a root that continues
      at step `rp`: a helper's sleeper belongs to its combinator's step, and
      the root's own sleeper to the step the root is suspended in. */
  function Origin(o: Owner, rp: nat): nat {
    match o
    case RootSleeper => if rp > 0 then rp - 1 else 0
    case ChildSleeper(k, _) => k
  }

  /** The sleepers fired so far: each strictly after its expiry, at
      non-decreasing clock readings and root progress; and a sleeper that
      was already registered when an earlier one fired (its step had
      started by then) does not expire before that one. A sleeper
      registered later may expire earlier: its deadline may already lie in
      the past. */
  ghost predicate FiredInOrder(fired: seq<Firing>) {
    && (forall i :: 0 <= i < |fired| ==> fired[i].timer.expiry < fired[i].at)
    && (forall i, j :: 0 <= i < j < |fired| ==>
          fired[i].at <= fired[j].at && fired[i].progress <= fired[j].progress)
    && (forall i, j :: 0 <= i < j < |fired| && fired[j].origin < fired[i].progress ==>
          fired[i].timer.expiry <= fired[j].timer.expiry)
  }

  /** For a root that continues at step `rp`: every firing happened no
      later than now and with no more steps started, and no sleeper still
      registered that was already registered at a firing expires before
      the sleeper fired then. */
  ghost predicate ClockAhead(s: State, rp: nat) {
    && (|s.fired| > 0 ==> s.fired[|s.fired| - 1].at <= s.now)
    && (forall i :: 0 <= i < |s.fired| ==> s.fired[i].progress <= rp)
    && forall i, x :: 0 <= i < |s.fired| && x in s.timers && Origin(x.owner, rp) < s.fired[i].progress ==>
         s.fired[i].timer.expiry <= x.expiry
  }

  /** Each dispatched combinator's group is the replay of the order its
      helpers finished in. */
  ghost predicate GroupsReplayed(s: State, steps: seq<Step>) {
    && ValidScript(steps)
    && forall k :: k in s.groups ==>
         && k < |steps| && steps[k].Gather? && k in s.orders && k in s.dispatchedAt
         && Distinct(s.orders[k])
         && (forall j :: 0 <= j < |s.orders[k]| ==> s.orders[k][j] < |steps[k].children|)
         && s.groups[k] == Replay(steps[k].all, steps[k].children, s.orders[k])
  }

  /** Every helper's sleeper belongs to a dispatched combinator's helper
      that has not finished, and expires when its child asked to wake,
      counted from the dispatch. */
  ghost predicate ChildForward(s: State, steps: seq<Step>) {
    forall x :: x in s.timers && x.owner.ChildSleeper? ==>
      && x.owner.gather in s.groups && x.owner.gather in s.orders
      && x.owner.gather in s.dispatchedAt
      && x.owner.gather < |steps| && steps[x.owner.gather].Gather?
      && x.owner.child < |steps[x.owner.gather].children|
      && x.owner.child !in s.orders[x.owner.gather]
      && x.expiry == Deadline(steps[x.owner.gather].children[x.owner.child].wake,
                              s.dispatchedAt[x.owner.gather])
  }

  /** Every helper of a dispatched combinator that has not finished has a
      sleeper. */
  ghost predicate ChildConverse(s: State, steps: seq<Step>) {
    forall k, i ::
      (k in s.groups && k in s.orders && k < |steps| && steps[k].Gather?
       && 0 <= i < |steps[k].children| && i !in s.orders[k]) ==>
      ChildSleeper(k, i) in Owners(s.timers)
  }

  /** Exactly the helpers that have not finished have a sleeper, expiring
      when their child asked to wake. */
  ghost predicate ChildTimers(s: State, steps: seq<Step>) {
    ChildForward(s, steps) && ChildConverse(s, steps)
  }

  /** The first helper of a combinator to finish is one whose child asked
      to wake earliest. */
  ghost predicate FirstIsEarliest(s: State, steps: seq<Step>) {
    forall k :: k in s.groups && k in s.orders && k in s.dispatchedAt && k < |steps| && steps[k].Gather?
                && |s.orders[k]| > 0 && s.orders[k][0] < |steps[k].children| ==>
      forall j :: 0 <= j < |steps[k].children| ==>
        Deadline(steps[k].children[s.orders[k][0]].wake, s.dispatchedAt[k])
          <= Deadline(steps[k].children[j].wake, s.dispatchedAt[k])
  }

  /** Exactly the combinators before step `rp` have been dispatched. */
  ghost predicate DispatchedBefore(s: State, steps: seq<Step>, rp: nat) {
    forall k :: 0 <= k < |steps| && steps[k].Gather? ==> (k in s.groups <==> k < rp)
  }

  /** Every sleeper registered by the steps before `rp` has fired or is
      still registered. */
  ghost predicate Counted(s: State, steps: seq<Step>, rp: nat) {
    rp <= |steps| && |s.fired| + |s.timers| == Registered(steps, rp)
  }

  /** Everything that holds whatever the root is doing, for a root that
      continues at step `rp`. */
  ghost predicate Core(s: State, steps: seq<Step>, rp: nat) {
    && ValidScript(steps) && RootPos(s.root, steps) == rp
    && Sorted(s.timers) && UniqueOwners(s.timers)
    && GroupsReplayed(s, steps)
    && DispatchedBefore(s, steps, rp)
    && ChildTimers(s, steps)
    && FiredInOrder(s.fired) && ClockAhead(s, rp)
    && FirstIsEarliest(s, steps)
    && Counted(s, steps, rp)
  }

  /** The root waits on its own sleeper exactly while it is in a sleep. */
  ghost predicate RootLinked(s: State, steps: seq<Step>) {
    && (s.root.SuspendedAt? ==> s.root.step < |steps|)
    && (s.root.Failed? ==> s.root.step < |steps|)
    && (RootSleeper in Owners(s.timers) <==>
          s.root.SuspendedAt? && s.root.step < |steps| && steps[s.root.step].Sleep?)
  }

  /** The root waits on a combinator's parent exactly while that parent has
      not finished. */
  ghost predicate GroupsLinked(s: State) {
    forall k :: k in s.groups ==> (s.groups[k].parent.Waiting? <==> s.root == SuspendedAt(k))
  }

  /** A combinator's parent finished with an exception exactly when it is
      the one the root failed in, with that exception. */
  ghost predicate FailureLinked(s: State) {
    && (s.root.Failed? ==>
          s.root.step in s.groups && s.groups[s.root.step].parent == Finished(Threw(s.root.exc)))
    && forall k :: k in s.groups && s.groups[k].parent.Finished? && s.groups[k].parent.result.Threw? ==>
         s.root == Failed(k, s.groups[k].parent.result.exc)
  }

  /** The scheduler invariant for a root that continues at step `rp`. */
  ghost predicate Inv(s: State, steps: seq<Step>, rp: nat) {
    RootPos(s.root, steps) == rp && Core(s, steps, rp) && RootLinked(s, steps) && GroupsLinked(s)
    && FailureLinked(s)
  }

  /** Nothing waits on the root: it is running, and every combinator it
      awaited has handed it a value. */
  ghost predicate Quiet(s: State) {
    && RootSleeper !in Owners(s.timers)
    && forall k :: k in s.groups ==> s.groups[k].parent.Finished? && s.groups[k].parent.result.Returned?
  }

  /** `erase(front)`, logging the sleeper as fired at the current clock,
      with the step that registered it and the root's progress. */
  function Pop(s: State, steps: seq<Step>): (r: State)
    requires |s.timers| > 0
    ensures r == s.(timers := r.timers, fired := r.fired)
    ensures r.timers == s.timers[1..]
    ensures r.fired == s.fired + [Firing(s.timers[0], s.now, Origin(s.timers[0].owner, RootPos(s.root, steps)), RootPos(s.root, steps))]
  {
    var rp := RootPos(s.root, steps);
    s.(timers := s.timers[1..], fired := s.fired + [Firing(s.timers[0], s.now, Origin(s.timers[0].owner, rp), rp)])
  }

  /** Helper `i` of the combinator at step `k` finishes: its group takes the
      completion and its order grows by `i`. */
  function Finish(s: State, steps: seq<Step>, k: nat, i: nat): (r: State)
    requires GroupsReplayed(s, steps) && k in s.groups
    requires i < |steps[k].children| && i !in s.orders[k]
    ensures r == s.(groups := r.groups, orders := r.orders)
    ensures r.groups == s.groups[k := Complete(s.groups[k], i, steps[k].children[i].outcome)]
    ensures r.orders == s.orders[k := s.orders[k] + [i]]
  {
    s.(groups := s.groups[k := Complete(s.groups[k], i, steps[k].children[i].outcome)],
       orders := s.orders[k := s.orders[k] + [i]])
  }

  /** One iteration of the inner loop whose front has strictly expired:
      `erase(front)`, then resume the sleeper's owner. The root's own
      sleeper resumes the root; a helper's sleeper finishes that helper,
      which resumes the combinator's parent when its helper logic says so,
      and a parent that finishes hands its result back to the root. */
  function Fire(s: State, steps: seq<Step>, ties: seq<nat>): (r: State)
    requires Sorted(s.timers) && GroupsReplayed(s, steps) && ChildTimers(s, steps)
    requires |s.timers| > 0 && s.timers[0].expiry < s.now
    ensures r.now == s.now && r.fired == Pop(s, steps).fired
  {
    var front := s.timers[0];
    assert front in s.timers;
    var t := Pop(s, steps);
    match front.owner
    case RootSleeper => ResumeRoot(t, steps, ties)
    case ChildSleeper(k, i) =>
      var u := Finish(t, steps, k, i);
      if s.groups[k].parent.Waiting? && u.groups[k].parent.Finished? then Rejoin(u, steps, k, ties) else u
  }

  /** Work left: twice the sleepers still to be registered or fired, plus
      one per step still to run and one while the root is unfinished. */
  function Pending(steps: seq<Step>, j: nat): nat
    decreases |steps| - j
  {
    if j >= |steps| then 0 else 2 * Registrations(steps[j]) + 1 + Pending(steps, j + 1)
  }

  function Measure(s: State, steps: seq<Step>): nat {
    Pending(steps, RootPos(s.root, steps)) + 2 * |s.timers| + (if s.root.IsDone() then 0 else 1)
  }

  /** How often the loop itself has resumed the root by the time the root
      is in `root`: once to start it, and once after every `Yield`. */
  function ResumeCount(root: Root, steps: seq<Step>): nat {
    match root
    case Fresh => 0
    case SuspendedAt(k) => if k <= |steps| then 1 + Yields(steps, k) else 0
    case Done => 1 + Yields(steps, |steps|)
    case Failed(k, _) => if k <= |steps| then 1 + Yields(steps, k) else 0
  }
}
