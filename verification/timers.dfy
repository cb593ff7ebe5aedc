/** The loop's timer set (`RbTree<SleepUntilPromise>` in
    include/coroutines/coro.cpp), as a sequence kept sorted by expiry.
    Sleepers compare on `mExpireTime` alone; how the tree orders two equal
    expiries is not visible here, so insertion takes a tie choice and every
    placement among the equal expiries is reachable. */
module Timers {

  /** A registered sleeper: its expiry and the frame it belongs to. */
  datatype Timer<O> = Timer(expiry: int, owner: O)

  /** `operator<` on sleepers: earlier expiry first, nothing else compared. */
  predicate Before<O>(a: Timer<O>, b: Timer<O>) {
    a.expiry < b.expiry
  }

  /** Each sleeper expires no later than the next one. */
  ghost predicate Sorted<O>(ts: seq<Timer<O>>) {
    |ts| <= 1 || (ts[0].expiry <= ts[1].expiry && Sorted(ts[1..]))
  }

  /** The front of a sorted set expires no later than any member. */
  lemma {:induction false} SortedFront<O>(ts: seq<Timer<O>>, x: Timer<O>)
    requires Sorted(ts) && x in ts
    ensures ts[0].expiry <= x.expiry
  {
    if x != ts[0] {
      assert x in ts[1..];
      SortedFront(ts[1..], x);
    }
  }

  /** `addTimer`: insert `t` after every timer that expires strictly earlier
      and before every timer that expires strictly later; among timers with
      the same expiry it goes after the first `tie` of them (or last). */
  function Insert<O>(ts: seq<Timer<O>>, t: Timer<O>, tie: nat): (r: seq<Timer<O>>)
    ensures |r| == |ts| + 1
  {
    if |ts| == 0 then [t]
    else
      assert ts == [ts[0]] + ts[1..];
      if ts[0].expiry <= t.expiry && (Before(ts[0], t) || tie > 0) then
        [ts[0]] + Insert(ts[1..], t, if Before(ts[0], t) then tie else tie - 1)
      else [t] + ts
  }

  /** Inserting into a sorted set keeps it sorted, whatever the tie choice. */
  lemma {:induction false} InsertSorted<O>(ts: seq<Timer<O>>, t: Timer<O>, tie: nat)
    requires Sorted(ts)
    ensures Sorted(Insert(ts, t, tie))
  {
    var r := Insert(ts, t, tie);
    if |ts| > 0 && ts[0].expiry <= t.expiry && (Before(ts[0], t) || tie > 0) {
      var tie' := if Before(ts[0], t) then tie else tie - 1;
      var rest := Insert(ts[1..], t, tie');
      InsertSorted(ts[1..], t, tie');
      assert r[0] == ts[0] && r[1..] == rest;
      InsertMembers(ts[1..], t, tie');
      assert rest[0] in rest;
      if rest[0] != t {
        assert rest[0] in ts;
        SortedFront(ts, rest[0]);
      }
    } else if |ts| > 0 {
      assert r[0] == t && r[1..] == ts;
    }
  }

  /** Ties are left fully open: `t` can land at any position that has only
      sleepers expiring no later before it and only sleepers expiring no
      earlier after it, by some choice of `tie`. */
  lemma {:induction false} EveryPlacementIsAnInsert<O>(before: seq<Timer<O>>, after: seq<Timer<O>>, t: Timer<O>)
    requires forall x :: x in before ==> x.expiry <= t.expiry
    requires forall x :: x in after ==> t.expiry <= x.expiry
    ensures exists tie: nat :: Insert(before + after, t, tie) == before + [t] + after
  {
    if |before| == 0 {
      assert before + after == after && before + [t] + after == [t] + after;
      if |after| > 0 {
        assert after[0] in after;
      }
      assert Insert(after, t, 0) == [t] + after;
    } else {
      var x := before[0];
      var before' := before[1..];
      assert before == [x] + before' && x in before;
      forall y | y in before'
        ensures y.expiry <= t.expiry
      {
        assert y in before;
      }
      EveryPlacementIsAnInsert(before', after, t);
      var tie: nat :| Insert(before' + after, t, tie) == before' + [t] + after;
      InsertBehindFront(x, before' + after, t, tie);
      assert before + after == [x] + (before' + after);
      assert before + [t] + after == [x] + (before' + [t] + after);
    }
  }

  /** A sleeper expiring no earlier than the front can be placed behind it:
      the front stays and the rest takes the insertion. */
  lemma InsertBehindFront<O>(x: Timer<O>, rest: seq<Timer<O>>, t: Timer<O>, tie: nat)
    requires x.expiry <= t.expiry
    ensures Insert([x] + rest, t, if Before(x, t) then tie else tie + 1) == [x] + Insert(rest, t, tie)
  {
    var ts := [x] + rest;
    assert ts[0] == x && ts[1..] == rest;
  }

  /** `front()`: the earliest sleeper of a non-empty sorted set. */
  function Front<O>(ts: seq<Timer<O>>): (f: Timer<O>)
    requires Sorted(ts) && |ts| > 0
    ensures f in ts
    ensures forall t :: t in ts ==> f.expiry <= t.expiry
  {
    forall t | t in ts
      ensures ts[0].expiry <= t.expiry
    {
      SortedFront(ts, t);
    }
    ts[0]
  }

  /** `erase(front())`: the set without its earliest sleeper. */
  function EraseFront<O>(ts: seq<Timer<O>>): (r: seq<Timer<O>>)
    requires Sorted(ts) && |ts| > 0
    ensures Sorted(r) && [Front(ts)] + r == ts
  {
    assert ts == [ts[0]] + ts[1..];
    ts[1..]
  }

  /** How a sleeping coroutine names its expiry: `sleep_for(duration)`
      adds a signed duration to the clock reading at the call, and
      `sleep_until(deadline)` gives the time point itself. Neither checks
      that the expiry lies ahead of the clock. */
  datatype Wake = For(duration: int) | Until(deadline: int)

  /** The `mExpireTime` that `SleepAwaiter` registers for `w` when the
      clock reads `now`. */
  function Deadline(w: Wake, now: int): int {
    match w
    case For(d) => now + d
    case Until(t) => t
  }

  /** Sleepers registered with expiries 5, 1 and 3 (in that order, with any
      tie choices) sit in the set as 1, 3, 5, so the fronts are taken in
      that order. */
  lemma FiveOneThreeFiresOneThreeFive<O>(a: O, b: O, c: O, t1: nat, t2: nat, t3: nat)
    ensures Insert(Insert(Insert([], Timer(5, a), t1), Timer(1, b), t2), Timer(3, c), t3)
            == [Timer(1, b), Timer(3, c), Timer(5, a)]
  {
    var s1 := Insert([], Timer(5, a), t1);
    assert s1 == [Timer(5, a)];
    var s2 := Insert(s1, Timer(1, b), t2);
    assert s2 == [Timer(1, b), Timer(5, a)];
    var s3 := Insert(s2, Timer(3, c), t3);
    assert s3[1..] == Insert([Timer(5, a)], Timer(3, c), t3);
  }

  /** The frames owning a sleeper. */
  ghost function Owners<O>(ts: seq<Timer<O>>): set<O> {
    if |ts| == 0 then {} else {ts[0].owner} + Owners(ts[1..])
  }

  /** No frame has two sleepers registered at once. */
  ghost predicate UniqueOwners<O>(ts: seq<Timer<O>>) {
    |ts| == 0 || (ts[0].owner !in Owners(ts[1..]) && UniqueOwners(ts[1..]))
  }

  /** The owner of every registered sleeper is an owner. */
  lemma {:induction false} OwnerOfMember<O>(ts: seq<Timer<O>>, x: Timer<O>)
    requires x in ts
    ensures x.owner in Owners(ts)
  {
    if ts[0] != x {
      assert x in ts[1..];
      OwnerOfMember(ts[1..], x);
    }
  }

  /** Every owner owns a registered sleeper. */
  lemma {:induction false} MemberOfOwner<O>(ts: seq<Timer<O>>, o: O) returns (x: Timer<O>)
    requires o in Owners(ts)
    ensures x in ts && x.owner == o
  {
    if ts[0].owner == o {
      x := ts[0];
    } else {
      x := MemberOfOwner(ts[1..], o);
    }
  }

  /** With unique owners, a sleeper is identified by its owner. */
  lemma {:induction false} UniqueOwnerIdentifies<O>(ts: seq<Timer<O>>, x: Timer<O>, y: Timer<O>)
    requires UniqueOwners(ts) && x in ts && y in ts && x.owner == y.owner
    ensures x == y
  {
    if x != ts[0] && y != ts[0] {
      UniqueOwnerIdentifies(ts[1..], x, y);
    } else if x != ts[0] {
      assert x in ts[1..];
      OwnerOfMember(ts[1..], x);
    } else if y != ts[0] {
      assert y in ts[1..];
      OwnerOfMember(ts[1..], y);
    }
  }

  /** The inserted set holds exactly the old sleepers and the new one. */
  lemma {:induction false} InsertMembers<O>(ts: seq<Timer<O>>, t: Timer<O>, tie: nat)
    ensures forall x :: x in Insert(ts, t, tie) <==> x == t || x in ts
  {
    var r := Insert(ts, t, tie);
    if |ts| == 0 {
      assert r == [t];
    } else if ts[0].expiry <= t.expiry && (Before(ts[0], t) || tie > 0) {
      var tie' := if Before(ts[0], t) then tie else tie - 1;
      assert r == [ts[0]] + Insert(ts[1..], t, tie');
      assert ts == [ts[0]] + ts[1..];
      InsertMembers(ts[1..], t, tie');
    } else {
      assert r == [t] + ts;
    }
  }

  /** Insertion is a permutation of the old sleepers and the new one. */
  lemma {:induction false} InsertPermutes<O>(ts: seq<Timer<O>>, t: Timer<O>, tie: nat)
    ensures multiset(Insert(ts, t, tie)) == multiset(ts) + multiset{t}
  {
    var r := Insert(ts, t, tie);
    if |ts| == 0 {
      assert r == [t];
    } else if ts[0].expiry <= t.expiry && (Before(ts[0], t) || tie > 0) {
      var tie' := if Before(ts[0], t) then tie else tie - 1;
      assert r == [ts[0]] + Insert(ts[1..], t, tie');
      assert ts == [ts[0]] + ts[1..];
      InsertPermutes(ts[1..], t, tie');
    } else {
      assert r == [t] + ts;
    }
  }

  /** If `before` is `ts` plus `added`, then `before` plus `t` is `ts` plus
      `added` followed by `t`, counted as multisets. */
  lemma AppendPermutes<O>(ts: seq<Timer<O>>, before: seq<Timer<O>>, after: seq<Timer<O>>, added: seq<Timer<O>>, t: Timer<O>)
    requires multiset(before) == multiset(ts) + multiset(added)
    requires multiset(after) == multiset(before) + multiset{t}
    ensures multiset(after) == multiset(ts) + multiset(added + [t])
  {
  }

  /** Inserting a sleeper adds exactly its owner. */
  lemma {:induction false} InsertOwners<O>(ts: seq<Timer<O>>, t: Timer<O>, tie: nat)
    ensures Owners(Insert(ts, t, tie)) == Owners(ts) + {t.owner}
  {
    var r := Insert(ts, t, tie);
    if |ts| == 0 {
      assert r[1..] == [];
    } else if ts[0].expiry <= t.expiry && (Before(ts[0], t) || tie > 0) {
      var tie' := if Before(ts[0], t) then tie else tie - 1;
      assert r[0] == ts[0] && r[1..] == Insert(ts[1..], t, tie');
      InsertOwners(ts[1..], t, tie');
    } else {
      assert r[0] == t && r[1..] == ts;
    }
  }

  /** A frame that had no sleeper yet keeps the owners unique. */
  lemma {:induction false} InsertKeepsOwnersUnique<O>(ts: seq<Timer<O>>, t: Timer<O>, tie: nat)
    requires UniqueOwners(ts) && t.owner !in Owners(ts)
    ensures UniqueOwners(Insert(ts, t, tie))
  {
    var r := Insert(ts, t, tie);
    if |ts| == 0 {
      assert r[1..] == [];
    } else if ts[0].expiry <= t.expiry && (Before(ts[0], t) || tie > 0) {
      var tie' := if Before(ts[0], t) then tie else tie - 1;
      assert r[0] == ts[0] && r[1..] == Insert(ts[1..], t, tie');
      InsertKeepsOwnersUnique(ts[1..], t, tie');
      InsertOwners(ts[1..], t, tie');
    } else {
      assert r[0] == t && r[1..] == ts;
    }
  }

  /** A sleeper of a frame that had none joins a sorted set of one sleeper
      per frame: the set stays sorted and one per frame, and gains exactly
      that frame as an owner. */
  lemma InsertFresh<O>(ts: seq<Timer<O>>, t: Timer<O>, tie: nat)
    requires Sorted(ts) && UniqueOwners(ts) && t.owner !in Owners(ts)
    ensures Sorted(Insert(ts, t, tie)) && UniqueOwners(Insert(ts, t, tie))
    ensures Owners(Insert(ts, t, tie)) == Owners(ts) + {t.owner}
  {
    InsertSorted(ts, t, tie);
    InsertKeepsOwnersUnique(ts, t, tie);
    InsertOwners(ts, t, tie);
  }
}
