/** `when_all` and `when_any` (include/coroutines/coro.cpp): the control
    block a combinator shares with its helper coroutines, the awaiter that
    dispatches the children, what a helper does when its child finishes, and
    how the parent assembles its result when it is resumed.

    Every child is a script "sleep (for a duration or until a time point),
    then return a value or throw".
    The whole child side of one combinator is a `Group`; a completion order is
    replayed over it by `Replay`. */
module Combinators {
  import opened Basics
  import opened Promises
  import opened Timers

  /** `std::size_t(-1)`: the largest `size_t`, also `WhenAnyCtlBlock::kNullIndex`. */
  const SizeMax: nat := 0xFFFF_FFFF_FFFF_FFFF
  const NullIndex: nat := SizeMax

  /** Prefix `--` on a `size_t`, which wraps from 0 to `SizeMax`. */
  function Decrement(x: nat): (r: nat)
    requires x <= SizeMax
    ensures r <= SizeMax
    ensures r + 1 == x || (x == 0 && r == SizeMax)
  {
    if x == 0 then SizeMax else x - 1
  }

  /** A child task: `co_await sleep_for(d)` or `co_await sleep_until(t)`,
      then `co_return` or `throw`. */
  datatype Child = Child(wake: Wake, outcome: Outcome<int>)

  /** `WhenAllCtlBlock` and `WhenAnyCtlBlock`. */
  datatype Ctl =
    | AllCtl(count: nat, previous: Handle, exception: Option<Exc>)
    | AnyCtl(index: nat, previous: Handle, exception: Option<Exc>)

  /** What the parent gets: `when_all`'s tuple, or `when_any`'s variant whose
      active alternative is `index`. */
  datatype Gathered = Tuple(values: seq<int>) | Alternative(index: nat, value: int)

  /** The combinator coroutine: suspended in `co_await`, or finished. */
  datatype Parent = Waiting | Finished(result: Outcome<Gathered>)

  /** The child side of one combinator: the control block, the result slots
      (one `Uninitialized<T>` per child), the parent, and how many times a
      helper transferred to a parent that had already finished. */
  datatype Group = Group(ctl: Ctl, slots: seq<Slot<int>>, parent: Parent, strays: nat)

  /** How the awaiter's `await_suspend` continues. */
  datatype Dispatch = ResumeAwaiter | Start(eager: seq<nat>, last: nat)

  /** `WhenAllAwaiter::await_suspend` / `WhenAnyAwaiter::await_suspend` for
      `n` helpers, awaited by frame `coroutine`. With no helpers the awaiter
      itself is resumed at once and the block is untouched. Otherwise the
      block's continuation becomes the awaiter, helpers 0..n-2 are resumed in
      order, and control transfers to helper n-1: each helper is started
      exactly once. */
  function AwaitSuspend(ctl: Ctl, n: nat, coroutine: nat): (r: (Ctl, Dispatch))
    ensures n == 0 ==> r.0 == ctl && r.1 == ResumeAwaiter
    ensures n > 0 ==> r.0 == ctl.(previous := Frame(coroutine)) && r.1.Start?
    ensures n > 0 ==> r.1.eager + [r.1.last] == Range(n)
  {
    if n == 0 then (ctl, ResumeAwaiter)
    else (ctl.(previous := Frame(coroutine)), Start(Range(n - 1), n - 1))
  }

  /** Number of slots holding a value. */
  function Filled(slots: seq<Slot<int>>): (k: nat)
    ensures k <= |slots|
  {
    if |slots| == 0 then 0
    else Filled(slots[..|slots| - 1]) + (if slots[|slots| - 1].Holding? then 1 else 0)
  }

  lemma {:induction false} FilledPut(slots: seq<Slot<int>>, i: nat, v: int)
    requires i < |slots| && slots[i].Empty?
    ensures Filled(slots[i := Holding(v)]) == Filled(slots) + 1
  {
    var last := |slots| - 1;
    var put := slots[i := Holding(v)];
    if i < last {
      assert put[..last] == slots[..last][i := Holding(v)];
      FilledPut(slots[..last], i, v);
    } else {
      assert put[..last] == slots[..last];
    }
  }

  lemma {:induction false} FilledAllHolding(slots: seq<Slot<int>>)
    ensures Filled(slots) == |slots| ==> forall i :: 0 <= i < |slots| ==> slots[i].Holding?
  {
    if |slots| > 0 && Filled(slots) == |slots| {
      var last := |slots| - 1;
      FilledAllHolding(slots[..last]);
      forall i | 0 <= i < |slots|
        ensures slots[i].Holding?
      {
        if i < last {
          assert slots[..last][i] == slots[i];
        }
      }
    }
  }

  lemma {:induction false} FilledNoneHolding(slots: seq<Slot<int>>)
    requires forall i :: 0 <= i < |slots| ==> slots[i].Empty?
    ensures Filled(slots) == 0
  {
    if |slots| > 0 {
      FilledNoneHolding(slots[..|slots| - 1]);
    }
  }

  /** The parent's `await_resume` followed by the rest of `whenAllImpl`:
      rethrow the recorded exception, or move every slot's value into the
      tuple, position by position. */
  function AllResume(exception: Option<Exc>, slots: seq<Slot<int>>): (r: (Outcome<Gathered>, seq<Slot<int>>))
    requires exception.None? ==> forall i :: 0 <= i < |slots| ==> slots[i].Holding?
    ensures exception.Some? ==> r == (Threw(exception.value), slots)
    ensures exception.None? ==> r.0.Returned? && r.0.value.Tuple?
    ensures exception.None? ==> |r.0.value.values| == |slots|
    ensures exception.None? ==> forall i :: 0 <= i < |slots| ==> r.0.value.values[i] == slots[i].value
    ensures exception.None? ==> |r.1| == |slots| && forall i :: 0 <= i < |slots| ==> r.1[i].Empty?
  {
    match exception
    case Some(e) => (Threw(e), slots)
    case None =>
      (Returned(Tuple(seq(|slots|, i requires 0 <= i < |slots| => MoveValue(slots[i]).0))),
       seq(|slots|, i requires 0 <= i < |slots| => MoveValue(slots[i]).1))
  }

  /** The parent's `await_resume` followed by the rest of `whenAnyImpl`:
      rethrow the recorded exception, or build the variant whose active
      alternative is `mIndex` from that slot. An index that names no slot
      would leave the variant unconstructed, so the caller must exclude it. */
  function AnyResume(exception: Option<Exc>, index: nat, slots: seq<Slot<int>>): (r: (Outcome<Gathered>, seq<Slot<int>>))
    requires exception.None? ==> index < |slots| && slots[index].Holding?
    ensures exception.Some? ==> r == (Threw(exception.value), slots)
    ensures exception.None? ==> r.0 == Returned(Alternative(index, slots[index].value))
    ensures exception.None? ==> r.1 == slots[index := Empty]
  {
    match exception
    case Some(e) => (Threw(e), slots)
    case None =>
      var (v, s) := MoveValue(slots[index]);
      (Returned(Alternative(index, v)), slots[index := s])
  }

  /** The bookkeeping every helper and the waiting parent agree on. While the
      parent waits, no failure has been recorded; `when_all`'s count plus the
      filled slots is the number of children; `when_any` has no winner and
      no value yet. */
  ghost predicate Coherent(g: Group) {
    && Bounded(g)
    && match g.ctl
       case AllCtl(count, _, exception) =>
         (g.parent.Waiting? && g.ctl.previous.Frame? ==>
               exception.None? && count + Filled(g.slots) == |g.slots|)
       case AnyCtl(index, _, exception) =>
         (g.parent.Waiting? && g.ctl.previous.Frame? ==>
               exception.None? && index == NullIndex
                                   && forall i :: 0 <= i < |g.slots| ==> g.slots[i].Empty?)
  }

  /** Every `size_t` of the group is within range. */
  ghost predicate Bounded(g: Group) {
    && |g.slots| <= SizeMax
    && (g.ctl.AllCtl? ==> g.ctl.count <= SizeMax)
    && (g.ctl.AnyCtl? ==> g.ctl.index <= SizeMax)
  }

  /** A helper's `co_return control.mPrevious`: the parent is resumed if it
      is still waiting; a finished parent is resumed again by the source,
      which the model records as a stray transfer and otherwise ignores. */
  function ReturnToParent(g: Group): (r: Group)
    requires Bounded(g)
    requires g.parent.Waiting? && g.ctl.previous.Frame? && g.ctl.exception.None? && g.ctl.AllCtl? ==>
               forall i :: 0 <= i < |g.slots| ==> g.slots[i].Holding?
    requires g.parent.Waiting? && g.ctl.previous.Frame? && g.ctl.exception.None? && g.ctl.AnyCtl? ==>
               g.ctl.index < |g.slots| && g.slots[g.ctl.index].Holding?
    ensures Bounded(r) && r.ctl == g.ctl && |r.slots| == |g.slots|
    ensures g.ctl.previous.Null? ==> r == g
    ensures g.ctl.previous.Frame? && g.parent.Finished? ==> r == g.(strays := g.strays + 1)
    ensures g.ctl.previous.Frame? && g.parent.Waiting? ==>
              r.strays == g.strays
              && r.parent == Finished(if g.ctl.AllCtl? then AllResume(g.ctl.exception, g.slots).0
                                      else AnyResume(g.ctl.exception, g.ctl.index, g.slots).0)
  {
    if g.ctl.previous.Null? then g
    else if g.parent.Finished? then g.(strays := g.strays + 1)
    else
      var (result, slots) :=
        if g.ctl.AllCtl? then AllResume(g.ctl.exception, g.slots)
        else AnyResume(g.ctl.exception, g.ctl.index, g.slots);
      g.(parent := Finished(result), slots := slots)
  }

  /** `whenAllHelper` after child `i` finished with `o`. A failure is
      recorded without touching the count and returns to the parent. A value
      goes into slot `i`, decrements the count, and returns to the parent
      exactly when the count reaches 0 (otherwise to a no-op). */
  function CompleteAll(g: Group, i: nat, o: Outcome<int>): (r: Group)
    requires Coherent(g) && g.ctl.AllCtl? && i < |g.slots|
    requires o.Returned? ==> g.slots[i].Empty?
    ensures Coherent(r) && |r.slots| == |g.slots| && r.ctl.AllCtl?
    ensures r.ctl.previous == g.ctl.previous
    ensures g.parent.Finished? ==> r.parent == g.parent
    ensures o.Threw? ==> r.ctl.exception == Some(o.exc) && r.ctl.count == g.ctl.count
                         && (r.parent == g.parent ==> r.slots == g.slots)
    ensures o.Returned? && g.ctl.count > 0 ==> r.ctl.count + 1 == g.ctl.count
                                               && r.ctl.exception == g.ctl.exception
    ensures o.Returned? && r.parent == g.parent ==> r.slots == g.slots[i := Holding(o.value)]
    ensures g.ctl.previous.Frame? && g.parent.Waiting? && o.Returned? ==>
              (r.parent.Finished? <==> g.ctl.count == 1) && r.strays == g.strays
    ensures g.ctl.previous.Frame? && g.parent.Waiting? && o.Returned? && g.ctl.count == 1 ==>
              r.parent.Finished? && r.parent.result.Returned? && r.parent.result.value.Tuple?
              && |r.parent.result.value.values| == |g.slots|
              && forall j :: 0 <= j < |g.slots| ==>
                   if j == i then r.parent.result.value.values[j] == o.value
                   else g.slots[j].Holding? && r.parent.result.value.values[j] == g.slots[j].value
    ensures g.ctl.previous.Frame? && g.parent.Waiting? && o.Threw? ==>
              r.parent == Finished(Threw(o.exc)) && r.strays == g.strays
    ensures g.ctl.previous.Frame? && g.parent.Finished? ==>
              r.strays == g.strays + (if o.Threw? || g.ctl.count == 1 then 1 else 0)
  {
    var AllCtl(count, previous, exception) := g.ctl;
    match o
    case Threw(e) =>
      ReturnToParent(g.(ctl := AllCtl(count, previous, Some(e))))
    case Returned(v) =>
      var slots := g.slots[i := PutValue(g.slots[i], v)];
      FilledPut(g.slots, i, v);
      var filled := g.(slots := slots, ctl := AllCtl(Decrement(count), previous, exception));
      if filled.ctl.count == 0 then
        FilledAllHolding(slots);
        assert forall j :: 0 <= j < |slots| ==> slots[j] == (if j == i then Holding(v) else g.slots[j]);
        ReturnToParent(filled)
      else filled
  }

  /** `whenAnyHelper` after child `i` finished with `o`. A failure is
      recorded and `mIndex` is left alone; a value goes into slot `i` and
      `--mIndex = index` sets `mIndex` to `i` (the decrement is overwritten).
      Both return to the parent, whether or not a winner already exists. */
  function CompleteAny(g: Group, i: nat, o: Outcome<int>): (r: Group)
    requires Coherent(g) && g.ctl.AnyCtl? && i < |g.slots|
    requires o.Returned? ==> g.slots[i].Empty?
    ensures Coherent(r) && |r.slots| == |g.slots| && r.ctl.AnyCtl?
    ensures r.ctl.previous == g.ctl.previous
    ensures g.parent.Finished? ==> r.parent == g.parent
    ensures o.Threw? ==> r.ctl.exception == Some(o.exc) && r.ctl.index == g.ctl.index
    ensures o.Returned? ==> r.ctl.index == i && r.ctl.exception == g.ctl.exception
    ensures o.Returned? && r.parent == g.parent ==> r.slots == g.slots[i := Holding(o.value)]
    ensures g.ctl.previous.Frame? && g.parent.Waiting? ==>
              r.strays == g.strays
              && r.parent == Finished(if o.Threw? then Threw(o.exc) else Returned(Alternative(i, o.value)))
    ensures g.ctl.previous.Frame? && g.parent.Finished? ==> r.strays == g.strays + 1
  {
    var AnyCtl(index, previous, exception) := g.ctl;
    match o
    case Threw(e) =>
      ReturnToParent(g.(ctl := AnyCtl(index, previous, Some(e))))
    case Returned(v) =>
      var slots := g.slots[i := PutValue(g.slots[i], v)];
      ReturnToParent(g.(slots := slots, ctl := AnyCtl(i, previous, exception)))
  }

  /** A helper finishing: `when_all`'s or `when_any`'s, by the block's kind. */
  function Complete(g: Group, i: nat, o: Outcome<int>): (r: Group)
    requires Coherent(g) && i < |g.slots|
    requires o.Returned? ==> g.slots[i].Empty?
    ensures Coherent(r) && |r.slots| == |g.slots|
    ensures r.ctl.previous == g.ctl.previous && r.ctl.AllCtl? == g.ctl.AllCtl?
    ensures forall j :: 0 <= j < |g.slots| && j != i && g.slots[j].Empty? ==> r.slots[j].Empty?
    ensures g.parent.Finished? ==> r.parent == g.parent
  {
    if g.ctl.AllCtl? then CompleteAll(g, i, o) else CompleteAny(g, i, o)
  }

  /** The frame number of the combinator coroutine itself. */
  const ParentFrame: nat := 0

  /** The group right after `co_await WhenAllAwaiter(...)` or
      `co_await WhenAnyAwaiter(...)` dispatched its helpers: `when_all`
      counts all `n` children as outstanding, `when_any` has no winner
      (`kNullIndex`), every slot is empty and the parent waits. */
  function Dispatched(all: bool, n: nat): (g: Group)
    requires 0 < n <= SizeMax
    ensures Coherent(g) && |g.slots| == n && g.parent.Waiting? && g.strays == 0
    ensures g.ctl.previous == Frame(ParentFrame)
    ensures g.ctl.AllCtl? == all
    ensures all ==> g.ctl.count == n
    ensures !all ==> g.ctl.index == NullIndex
    ensures forall i :: 0 <= i < n ==> g.slots[i].Empty?
  {
    var ctl := if all then AllCtl(n, Null, None) else AnyCtl(NullIndex, Null, None);
    var slots := seq(n, _ => Empty);
    FilledNoneHolding(slots);
    Group(AwaitSuspend(ctl, n, ParentFrame).0, slots, Waiting, 0)
  }

  ghost predicate Distinct(cs: seq<nat>) {
    forall j, k :: 0 <= j < k < |cs| ==> cs[j] != cs[k]
  }

  /** `cs` is a completion order of `n` children: each exactly once. */
  ghost predicate IsOrder(cs: seq<nat>, n: nat) {
    && |cs| == n
    && Distinct(cs)
    && (forall k :: 0 <= k < |cs| ==> cs[k] < n)
    && (forall i :: 0 <= i < n ==> i in cs)
  }

  /** The group after the helpers of the children listed in `cs` finished,
      in that order, starting from the dispatched group. */
  function Replay(all: bool, children: seq<Child>, cs: seq<nat>): (g: Group)
    requires 0 < |children| <= SizeMax
    requires Distinct(cs) && forall k :: 0 <= k < |cs| ==> cs[k] < |children|
    ensures Coherent(g) && |g.slots| == |children|
    ensures g.ctl.previous == Frame(ParentFrame) && g.ctl.AllCtl? == all
    ensures forall i :: 0 <= i < |children| && i !in cs ==> g.slots[i].Empty?
  {
    if cs == [] then Dispatched(all, |children|)
    else
      var i := cs[|cs| - 1];
      var before := Replay(all, children, cs[..|cs| - 1]);
      assert i !in cs[..|cs| - 1];
      Complete(before, i, children[i].outcome)
  }

  /** Unfolding `Replay` one completion at a time. */
  lemma ReplayStep(all: bool, children: seq<Child>, cs: seq<nat>, k: nat)
    requires 0 < |children| <= SizeMax
    requires Distinct(cs) && forall j :: 0 <= j < |cs| ==> cs[j] < |children|
    requires k < |cs|
    ensures cs[k] !in cs[..k] && cs[..k + 1] == cs[..k] + [cs[k]]
    ensures Distinct(cs[..k]) && forall j :: 0 <= j < k ==> cs[..k][j] < |children|
    ensures Replay(all, children, cs[..k + 1])
         == Complete(Replay(all, children, cs[..k]), cs[k], children[cs[k]].outcome)
  {
    assert cs[..k + 1][..k] == cs[..k];
  }

  /** How many of the children listed in `cs` return a value. */
  function Successes(children: seq<Child>, cs: seq<nat>): (s: nat)
    requires forall k :: 0 <= k < |cs| ==> cs[k] < |children|
    ensures s <= |cs|
  {
    if cs == [] then 0
    else Successes(children, cs[..|cs| - 1])
         + (if children[cs[|cs| - 1]].outcome.Returned? then 1 else 0)
  }

  /** The values the children return, in declaration order. */
  function Values(children: seq<Child>): (vs: seq<int>)
    requires forall i :: 0 <= i < |children| ==> children[i].outcome.Returned?
    ensures |vs| == |children|
  {
    seq(|children|, i requires 0 <= i < |children| => children[i].outcome.value)
  }

  /** `when_all`: the count always equals the children that have not yet
      returned a value, and it never wraps. */
  lemma {:induction false} WhenAllCountsOutstanding(children: seq<Child>, cs: seq<nat>)
    requires 0 < |children| <= SizeMax
    requires Distinct(cs) && forall k :: 0 <= k < |cs| ==> cs[k] < |children|
    ensures Replay(true, children, cs).ctl.count + Successes(children, cs) == |children|
  {
    if cs != [] {
      var k := |cs| - 1;
      assert cs[..k + 1] == cs;
      ReplayStep(true, children, cs, k);
      WhenAllCountsOutstanding(children, cs[..k]);
      var i := cs[k];
      if children[i].outcome.Returned? {
        assert Successes(children, cs[..k]) < |children| by {
          assert i !in cs[..k];
          SuccessesBelowDistinct(children, cs[..k], i);
        }
      }
    }
  }

  /** A success not yet listed leaves room: fewer successes than children. */
  lemma SuccessesBelowDistinct(children: seq<Child>, cs: seq<nat>, i: nat)
    requires forall k :: 0 <= k < |cs| ==> cs[k] < |children|
    requires Distinct(cs) && i < |children| && i !in cs
    ensures Successes(children, cs) < |children|
  {
    DistinctBound(cs + [i], |children|);
  }

  /** A list of distinct indices below `n` has at most `n` entries. */
  lemma {:induction false} DistinctBound(cs: seq<nat>, n: nat)
    requires Distinct(cs) && forall k :: 0 <= k < |cs| ==> cs[k] < n
    ensures |cs| <= n
  {
    if |cs| > 0 {
      assert cs[0] < n;
      if p :| 0 <= p < |cs| && cs[p] == n - 1 {
        var rest := cs[..p] + cs[p + 1..];
        assert forall k :: 0 <= k < |rest| ==> rest[k] == (if k < p then cs[k] else cs[k + 1]);
        DistinctBound(rest, n - 1);
      } else {
        DistinctBound(cs, n - 1);
      }
    }
  }

  lemma PrefixIsDistinct(cs: seq<nat>, n: nat, k: nat)
    requires Distinct(cs) && (forall j :: 0 <= j < |cs| ==> cs[j] < n) && k <= |cs|
    ensures Distinct(cs[..k]) && forall j :: 0 <= j < k ==> cs[..k][j] < n
  {
  }

  /** A `when_all` group whose parent still waits after exactly the
      children in `done` returned values. */
  ghost predicate AllWaitingOn(g: Group, children: seq<Child>, done: seq<nat>) {
    && g.ctl.AllCtl? && g.ctl.previous.Frame? && g.parent.Waiting? && g.strays == 0
    && |g.slots| == |children| && g.ctl.count + |done| == |children|
    && forall i :: 0 <= i < |children| ==>
         g.slots[i] == (if i in done && children[i].outcome.Returned?
                        then Holding(children[i].outcome.value) else Empty)
  }

  lemma AllSuccessStep(g: Group, children: seq<Child>, done: seq<nat>, c: nat)
    requires Coherent(g) && AllWaitingOn(g, children, done)
    requires c < |children| && c !in done && |done| + 1 < |children|
    requires children[c].outcome.Returned?
    ensures AllWaitingOn(CompleteAll(g, c, children[c].outcome), children, done + [c])
  {
    var r := CompleteAll(g, c, children[c].outcome);
    forall i | 0 <= i < |children|
      ensures r.slots[i] == (if i in done + [c] && children[i].outcome.Returned?
                             then Holding(children[i].outcome.value) else Empty)
    {
      assert i in done + [c] <==> i in done || i == c;
    }
  }

  /** `when_all` while the first `k < n` completions all returned values:
      the parent waits, the count is `n - k`, and slot `i` holds child `i`'s
      value exactly when child `i` is among them. */
  lemma {:induction false} WhenAllSuccessPrefix(children: seq<Child>, cs: seq<nat>, k: nat)
    requires 0 < |children| <= SizeMax
    requires Distinct(cs) && forall j :: 0 <= j < |cs| ==> cs[j] < |children|
    requires k < |children| && k <= |cs|
    requires forall j :: 0 <= j < k ==> children[cs[j]].outcome.Returned?
    ensures AllWaitingOn(Replay(true, children, cs[..k]), children, cs[..k])
  {
    var n := |children|;
    if k == 0 {
      assert cs[..0] == [];
    } else {
      WhenAllSuccessPrefix(children, cs, k - 1);
      ReplayStep(true, children, cs, k - 1);
      var before := Replay(true, children, cs[..k - 1]);
      var c := cs[k - 1];
      AllSuccessStep(before, children, cs[..k - 1], c);
    }
  }

  /** `when_all` whose children all return values: whatever the completion
      order, the parent receives the tuple whose position `i` holds child
      `i`'s value, and no helper transfers to it after it finished. */
  lemma {:induction false} WhenAllKeepsDeclarationOrder(children: seq<Child>, cs: seq<nat>)
    requires 0 < |children| <= SizeMax && IsOrder(cs, |children|)
    requires forall i :: 0 <= i < |children| ==> children[i].outcome.Returned?
    ensures Replay(true, children, cs).parent == Finished(Returned(Tuple(Values(children))))
    ensures Replay(true, children, cs).strays == 0
  {
    var n := |children|;
    WhenAllSuccessPrefix(children, cs, n - 1);
    ReplayStep(true, children, cs, n - 1);
    assert cs[..n] == cs;
    var before := Replay(true, children, cs[..n - 1]);
    var c := cs[n - 1];
    var done := cs[..n - 1];
    forall i | 0 <= i < n && i != c
      ensures i in done
    {
      assert i in cs;
    }
    AllLastStep(before, children, done, c);
  }

  /** The last of `n` successful `when_all` children resumes the parent with
      every value in its own position. */
  lemma AllLastStep(g: Group, children: seq<Child>, done: seq<nat>, c: nat)
    requires Coherent(g) && AllWaitingOn(g, children, done)
    requires c < |children| && |done| + 1 == |children|
    requires forall i :: 0 <= i < |children| ==> children[i].outcome.Returned?
    requires forall i :: 0 <= i < |children| && i != c ==> i in done
    requires c !in done
    ensures var r := CompleteAll(g, c, children[c].outcome);
            r.parent == Finished(Returned(Tuple(Values(children)))) && r.strays == 0
  {
    var r := CompleteAll(g, c, children[c].outcome);
    var values := r.parent.result.value.values;
    assert forall j :: 0 <= j < |children| ==> values[j] == Values(children)[j];
    assert values == Values(children);
  }

  /** How many of the children listed in `cs` throw. */
  function Failures(children: seq<Child>, cs: seq<nat>): (f: nat)
    requires forall k :: 0 <= k < |cs| ==> cs[k] < |children|
    ensures f + Successes(children, cs) == |cs|
  {
    if cs == [] then 0
    else Failures(children, cs[..|cs| - 1])
         + (if children[cs[|cs| - 1]].outcome.Threw? then 1 else 0)
  }

  /** `when_all` whose first failure (in completion order) is the `f`-th
      completion: the parent rethrows exactly that child's exception, and
      every later failing child transfers once more to the finished parent,
      while later values never bring the count to 0. */
  lemma {:induction false} WhenAllSurfacesFirstFailure(children: seq<Child>, cs: seq<nat>, f: nat)
    requires 0 < |children| <= SizeMax && IsOrder(cs, |children|)
    requires f < |cs| && children[cs[f]].outcome.Threw?
    requires forall j :: 0 <= j < f ==> children[cs[j]].outcome.Returned?
    ensures Replay(true, children, cs).parent == Finished(Threw(children[cs[f]].outcome.exc))
    ensures Replay(true, children, cs).strays + 1 == Failures(children, cs)
  {
    assert cs[..|cs|] == cs;
    AfterFirstFailure(children, cs, f, |cs|);
  }

  lemma {:induction false} AfterFirstFailure(children: seq<Child>, cs: seq<nat>, f: nat, k: nat)
    requires 0 < |children| <= SizeMax && |cs| == |children|
    requires Distinct(cs) && forall j :: 0 <= j < |cs| ==> cs[j] < |children|
    requires f < k <= |cs| && children[cs[f]].outcome.Threw?
    requires forall j :: 0 <= j < f ==> children[cs[j]].outcome.Returned?
    ensures Replay(true, children, cs[..k]).parent == Finished(Threw(children[cs[f]].outcome.exc))
    ensures Replay(true, children, cs[..k]).strays + 1 == Failures(children, cs[..k])
  {
    if k == f + 1 {
      AtFirstFailure(children, cs, f);
    } else {
      ReplayStep(true, children, cs, k - 1);
      var before := Replay(true, children, cs[..k - 1]);
      var c := cs[k - 1];
      var o := children[c].outcome;
      FailuresStep(children, cs[..k - 1], c);
      AfterFirstFailure(children, cs, f, k - 1);
      if o.Returned? {
        WhenAllCountsOutstanding(children, cs[..k - 1]);
      }
      LateAllStep(before, c, o);
    }
  }

  lemma {:induction false} AtFirstFailure(children: seq<Child>, cs: seq<nat>, f: nat)
    requires 0 < |children| <= SizeMax && |cs| == |children|
    requires Distinct(cs) && forall j :: 0 <= j < |cs| ==> cs[j] < |children|
    requires f < |cs| && children[cs[f]].outcome.Threw?
    requires forall j :: 0 <= j < f ==> children[cs[j]].outcome.Returned?
    ensures Replay(true, children, cs[..f + 1]).parent == Finished(Threw(children[cs[f]].outcome.exc))
    ensures Replay(true, children, cs[..f + 1]).strays + 1 == Failures(children, cs[..f + 1])
  {
    ReplayStep(true, children, cs, f);
    NoFailures(children, cs[..f]);
    FailuresStep(children, cs[..f], cs[f]);
    WhenAllSuccessPrefix(children, cs, f);
  }

  lemma FailuresStep(children: seq<Child>, cs: seq<nat>, c: nat)
    requires forall k :: 0 <= k < |cs| ==> cs[k] < |children|
    requires c < |children|
    ensures Failures(children, cs + [c])
         == Failures(children, cs) + (if children[c].outcome.Threw? then 1 else 0)
  {
    assert (cs + [c])[..|cs|] == cs;
  }

  /** A `when_all` helper finishing after its parent rethrew: the parent is
      untouched, and only a failure transfers to it again. */
  lemma LateAllStep(g: Group, c: nat, o: Outcome<int>)
    requires Coherent(g) && g.ctl.AllCtl? && g.ctl.previous.Frame? && g.parent.Finished?
    requires c < |g.slots| && (o.Returned? ==> g.slots[c].Empty? && g.ctl.count != 1)
    ensures CompleteAll(g, c, o).parent == g.parent
    ensures CompleteAll(g, c, o).strays == g.strays + (if o.Threw? then 1 else 0)
  {
  }

  lemma {:induction false} NoFailures(children: seq<Child>, cs: seq<nat>)
    requires forall k :: 0 <= k < |cs| ==> cs[k] < |children|
    requires forall k :: 0 <= k < |cs| ==> children[cs[k]].outcome.Returned?
    ensures Failures(children, cs) == 0
  {
    if cs != [] {
      NoFailures(children, cs[..|cs| - 1]);
    }
  }

  /** The child that returned a value last among those listed in `cs`, or
      `kNullIndex` when none did. */
  function LastSuccess(children: seq<Child>, cs: seq<nat>): (i: nat)
    requires forall k :: 0 <= k < |cs| ==> cs[k] < |children|
    ensures i == NullIndex || i in cs
    ensures i != NullIndex ==> children[i].outcome.Returned?
  {
    if cs == [] then NullIndex
    else if children[cs[|cs| - 1]].outcome.Returned? then cs[|cs| - 1]
    else LastSuccess(children, cs[..|cs| - 1])
  }

  /** `when_any` after its helpers finished in the order `cs`: the first
      completion alone decides the parent's result (its exception, or the
      variant holding its value at its own position), every later helper
      transfers to the finished parent again, and `mIndex` ends up naming
      the last child that returned a value, since every success overwrites
      it. */
  lemma {:induction false} WhenAnyFirstCompletionDecides(children: seq<Child>, cs: seq<nat>)
    requires 0 < |children| <= SizeMax
    requires Distinct(cs) && forall j :: 0 <= j < |cs| ==> cs[j] < |children|
    requires |cs| > 0
    ensures var g := Replay(false, children, cs);
            var first := children[cs[0]].outcome;
            && g.parent == Finished(if first.Threw? then Threw(first.exc)
                                    else Returned(Alternative(cs[0], first.value)))
            && g.strays + 1 == |cs|
            && g.ctl.index == LastSuccess(children, cs)
  {
    var k := |cs| - 1;
    ReplayStep(false, children, cs, k);
    assert cs[..k + 1] == cs;
    var c := cs[k];
    if k == 0 {
      assert cs[..0] == [];
    } else {
      WhenAnyFirstCompletionDecides(children, cs[..k]);
      assert cs[..k][0] == cs[0];
      AnyLateStep(Replay(false, children, cs[..k]), c, children[c].outcome);
    }
  }

  /** A `when_any` helper finishing after the parent was resumed: the
      parent keeps its result, the helper transfers to it once more, and a
      value still overwrites `mIndex`. */
  lemma AnyLateStep(g: Group, c: nat, o: Outcome<int>)
    requires Coherent(g) && g.ctl.AnyCtl? && g.ctl.previous.Frame? && g.parent.Finished?
    requires c < |g.slots| && (o.Returned? ==> g.slots[c].Empty?)
    ensures CompleteAny(g, c, o).parent == g.parent
    ensures CompleteAny(g, c, o).strays == g.strays + 1
    ensures CompleteAny(g, c, o).ctl.index == if o.Returned? then c else g.ctl.index
  {
  }

  /** A list that mentions every index below `n` has at least `n` entries. */
  lemma {:induction false} CoverBound(cs: seq<nat>, n: nat)
    requires forall i :: 0 <= i < n ==> i in cs
    ensures n <= |cs|
  {
    if n > 0 {
      assert n - 1 in cs;
      var p :| 0 <= p < |cs| && cs[p] == n - 1;
      var rest := cs[..p] + cs[p + 1..];
      forall i | 0 <= i < n - 1
        ensures i in rest
      {
        assert i in cs;
        var q :| 0 <= q < |cs| && cs[q] == i;
        if q < p {
          assert rest[q] == i;
        } else {
          assert rest[q - 1] == i;
        }
      }
      CoverBound(rest, n - 1);
    }
  }

  /** The first completion in `cs`, up to `j0`, whose child throws. */
  lemma FirstFailure(children: seq<Child>, cs: seq<nat>, j0: nat) returns (f: nat)
    requires forall j :: 0 <= j < |cs| ==> cs[j] < |children|
    requires j0 < |cs| && children[cs[j0]].outcome.Threw?
    ensures f <= j0 && children[cs[f]].outcome.Threw?
    ensures forall j :: 0 <= j < f ==> children[cs[j]].outcome.Returned?
  {
    f := 0;
    while children[cs[f]].outcome.Returned?
      invariant f <= j0
      invariant forall j :: 0 <= j < f ==> children[cs[j]].outcome.Returned?
      decreases j0 - f
    {
      f := f + 1;
    }
  }

  /** Once every helper of a combinator has finished, its parent has been
      resumed and has finished, whatever the order and the outcomes. */
  lemma {:induction false} CompletedGroupFinishes(all: bool, children: seq<Child>, cs: seq<nat>)
    requires 0 < |children| <= SizeMax && IsOrder(cs, |children|)
    ensures Replay(all, children, cs).parent.Finished?
  {
    if !all {
      WhenAnyFirstCompletionDecides(children, cs);
    } else if forall i :: 0 <= i < |children| ==> children[i].outcome.Returned? {
      WhenAllKeepsDeclarationOrder(children, cs);
    } else {
      var i :| 0 <= i < |children| && children[i].outcome.Threw?;
      assert i in cs;
      var j0 :| 0 <= j0 < |cs| && cs[j0] == i;
      var f := FirstFailure(children, cs, j0);
      WhenAllSurfacesFirstFailure(children, cs, f);
    }
  }

  /** Replaying one more completion, of a helper not yet finished, is one
      more `Complete`. */
  lemma ReplayAppend(all: bool, children: seq<Child>, cs: seq<nat>, i: nat)
    requires 0 < |children| <= SizeMax
    requires Distinct(cs) && forall k :: 0 <= k < |cs| ==> cs[k] < |children|
    requires i < |children| && i !in cs
    ensures Distinct(cs + [i]) && forall k :: 0 <= k < |cs + [i]| ==> (cs + [i])[k] < |children|
    ensures Replay(all, children, cs + [i])
         == Complete(Replay(all, children, cs), i, children[i].outcome)
  {
    assert (cs + [i])[..|cs|] == cs;
  }
}
