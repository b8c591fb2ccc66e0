/** How far tasks can drift apart, and how long a ready task can be kept waiting. */
module FairLag {
  import opened Numbers
  import opened Options
  import opened ReadyList
  import opened Totals
  import opened FairModel
  import opened FairInvariant
  import opened FairRuns

  function QuotaOf(s: State, t: nat): nat {
    if t in s.tasks && s.tasks[t].weight > 0 then Quota(s.tasks[t]) else 0
  }

  /** `a` is ahead of `b` by at most one slice, or not beyond `v0`. */
  predicate Near(s: State, a: nat, b: nat, v0: nat) {
    V(s.tasks, a) <= Max(v0, V(s.tasks, b) + QuotaOf(s, a))
  }

  lemma SameQuota(s: State, r: State, t: nat)
    requires SameRecords(s, r)
    ensures QuotaOf(r, t) == QuotaOf(s, t) && V(r.tasks, t) == V(s.tasks, t)
  {
  }

  lemma ChargedNear(s: State, c: nat, a: nat, b: nat, v0: nat)
    requires Fair(s) && s.current == Some(c) && Runnable(s, b) && Near(s, a, b, v0)
    ensures Chargeable(s) && Near(Charged(s, c), a, b, v0)
  {
    FairChargeable(s);
    ChargeSound(s.tasks[c]);
  }

  lemma CallNear(find: Search, s: State, call: Call, a: nat, b: nat, v0: nat)
    requires FindsSlot(find) && Fair(s) && Permitted(s, call) && Runnable(s, b) && Near(s, a, b, v0)
    ensures Near(After(find, s, call), a, b, v0)
  {
    match call
    case Adds(id, weight, cap) =>
    case Wakes(id) =>
      MakeReadyFair(find, s, id);
      SameQuota(s, MakeReady(find, s, id), a);
      SameQuota(s, MakeReady(find, s, id), b);
    case Ticks =>
      TickFair(find, s);
      if s.current.Some? {
        ChargedNear(s, s.current.value, a, b, v0);
        SameQuota(Charged(s, s.current.value), Tick(find, s), a);
        SameQuota(Charged(s, s.current.value), Tick(find, s), b);
      }
  }

  /** `b` is runnable in a fair state in which `a` is near it. */
  ghost predicate FairAndNear(s: State, a: nat, b: nat, v0: nat) {
    Fair(s) && Runnable(s, b) && Near(s, a, b, v0)
  }

  lemma CallFairAndNear(find: Search, s: State, call: Call, a: nat, b: nat, v0: nat)
    requires FindsSlot(find) && Permitted(s, call) && FairAndNear(s, a, b, v0)
    ensures FairAndNear(After(find, s, call), a, b, v0)
  {
    CallNear(find, s, call, a, b, v0);
    CallFair(find, s, call);
  }

  lemma {:induction false} RunNear(find: Search, s: State, calls: seq<Call>, a: nat, b: nat, v0: nat)
    requires FindsSlot(find) && Legal(find, s, calls) && FairAndNear(s, a, b, v0)
    ensures FairAndNear(Run(find, s, calls), a, b, v0)
    decreases calls
  {
    if calls != [] {
      CallFairAndNear(find, s, calls[0], a, b, v0);
      RunNear(find, After(find, s, calls[0]), calls[1..], a, b, v0);
    }
  }

  /** Lag bound with late arrivals: from the moment `b` is runnable, whatever else arrives,
      `a` never runs beyond one slice ahead of `b` unless it already was there. */
  lemma LagBound(find: Search, s: State, calls: seq<Call>, a: nat, b: nat)
    requires FindsSlot(find) && Fair(s) && Legal(find, s, calls) && Runnable(s, b)
    ensures Near(Run(find, s, calls), a, b, V(s.tasks, a))
  {
    RunNear(find, s, calls, a, b, V(s.tasks, a));
  }

  lemma {:induction false} RunSplits(find: Search, s: State, first: seq<Call>, rest: seq<Call>)
    ensures Run(find, s, first + rest) == Run(find, Run(find, s, first), rest)
    ensures Legal(find, s, first + rest) <==>
            Legal(find, s, first) && Legal(find, Run(find, s, first), rest)
    decreases first
  {
    if first == [] {
      assert first + rest == rest;
    } else {
      assert (first + rest)[1..] == first[1..] + rest;
      RunSplits(find, After(find, s, first[0]), first[1..], rest);
    }
  }

  /** Before the first tick nobody has run. */
  lemma {:induction false} NothingRunsWithoutTicks(find: Search, s: State, calls: seq<Call>, t: nat)
    requires FindsSlot(find) && Fair(s) && Legal(find, s, calls) && Ticks !in calls
    requires V(s.tasks, t) == 0
    ensures V(Run(find, s, calls).tasks, t) == 0
    decreases calls
  {
    if calls != [] {
      var c := calls[0];
      CallFair(find, s, c);
      assert c != Ticks;
      if c.Wakes? {
        MakeReadyFair(find, s, c.id);
        SameQuota(s, MakeReady(find, s, c.id), t);
      }
      NothingRunsWithoutTicks(find, After(find, s, c), calls[1..], t);
    }
  }

  /** Fair shares: tasks woken before the first tick stay within one slice of each other,
      in virtual time, for ever. */
  lemma FairShares(find: Search, setup: seq<Call>, rest: seq<Call>, a: nat, b: nat)
    requires FindsSlot(find) && Legal(find, Initial, setup + rest) && Ticks !in setup
    requires Wakes(a) in setup && Wakes(b) in setup
    ensures var s := Run(find, Initial, setup + rest);
            && a in s.tasks && b in s.tasks && Sound(s.tasks[a]) && Sound(s.tasks[b])
            && s.tasks[a].vruntime - s.tasks[b].vruntime <= Quota(s.tasks[a])
            && s.tasks[b].vruntime - s.tasks[a].vruntime <= Quota(s.tasks[b])
  {
    var s0 := Run(find, Initial, setup);
    RunSplits(find, Initial, setup, rest);
    InitialFair();
    RunFair(find, Initial, setup);
    NothingRunsWithoutTicks(find, Initial, setup, a);
    NothingRunsWithoutTicks(find, Initial, setup, b);
    SharesFrom(find, s0, rest, a, b);
  }

  lemma SharesFrom(find: Search, s: State, calls: seq<Call>, a: nat, b: nat)
    requires FindsSlot(find) && Fair(s) && Legal(find, s, calls) && Runnable(s, a) && Runnable(s, b)
    requires V(s.tasks, a) == 0 == V(s.tasks, b)
    ensures var r := Run(find, s, calls);
            && a in r.tasks && b in r.tasks && Sound(r.tasks[a]) && Sound(r.tasks[b])
            && r.tasks[a].vruntime - r.tasks[b].vruntime <= Quota(r.tasks[a])
            && r.tasks[b].vruntime - r.tasks[a].vruntime <= Quota(r.tasks[b])
  {
    RunNear(find, s, calls, a, b, 0);
    RunNear(find, s, calls, b, a, 0);
    NearShares(Run(find, s, calls), a, b);
  }

  lemma NearShares(r: State, a: nat, b: nat)
    requires FairAndNear(r, a, b, 0) && FairAndNear(r, b, a, 0)
    ensures a in r.tasks && b in r.tasks && Sound(r.tasks[a]) && Sound(r.tasks[b])
    ensures r.tasks[a].vruntime - r.tasks[b].vruntime <= Quota(r.tasks[a])
    ensures r.tasks[b].vruntime - r.tasks[a].vruntime <= Quota(r.tasks[b])
  {
  }

  // ----- starvation freedom

  /** How much virtual time `a` can still gain before it is a whole slice ahead of `b`. */
  function Gap(s: State, b: nat, a: nat): nat {
    Max(0, V(s.tasks, b) + QuotaOf(s, a) - V(s.tasks, a))
  }

  ghost function Gaps(s: State, b: nat): map<nat, nat> {
    map a | a in s.tasks && Runnable(s, a) && a != b :: Gap(s, b, a)
  }

  ghost function Rank(s: State, b: nat): nat { Total(Gaps(s, b)) }

  lemma SameGaps(s: State, r: State, b: nat)
    requires SameRecords(s, r) && forall t :: Runnable(r, t) <==> Runnable(s, t)
    ensures Gaps(r, b) == Gaps(s, b)
  {
  }

  lemma ChargedGaps(s: State, c: nat, b: nat)
    requires c in s.tasks && s.tasks[c].weight > 0 && s.tasks[c].remaining > 0
    requires s.current == Some(c) && b != c
    ensures c in Gaps(s, b) && Gaps(Charged(s, c), b) == Gaps(s, b)[c := Gap(Charged(s, c), b, c)]
  {
  }

  /** Charging the running task closes its gap to a waiting task by at least one. */
  lemma ChargedRank(s: State, c: nat, b: nat)
    requires Fair(s) && s.current == Some(c) && b in s.ready
    ensures Chargeable(s) && Rank(Charged(s, c), b) < Rank(s, b)
  {
    FairChargeable(s);
    var r := Charged(s, c);
    ChargeSound(s.tasks[c]);
    assert Gap(r, b, c) + Inc(s.tasks[c].weight) == Gap(s, b, c);
    ChargedGaps(s, c, b);
    TotalUpdate(Gaps(s, b), c, Gap(r, b, c));
    TotalRemove(Gaps(s, b), c);
  }

  lemma TickRank(find: Search, s: State, b: nat)
    requires FindsSlot(find) && Fair(s) && b in s.ready
    ensures Rank(Tick(find, s), b) < Rank(s, b)
  {
    TickFair(find, s);
    var c := s.current.value;
    ChargedRank(s, c, b);
    assert forall t :: Runnable(Charged(s, c), t) <==> Runnable(s, t);
    SameGaps(Charged(s, c), Tick(find, s), b);
  }

  function TickBy(find: Search, s: State, n: nat): State {
    if n == 0 then s else Tick(find, TickBy(find, s, n - 1))
  }

  /** `b` is ready in a fair state of rank at most `bound`. */
  ghost predicate WaitsAtMost(s: State, b: nat, bound: nat) {
    Fair(s) && b in s.ready && Rank(s, b) <= bound
  }

  lemma WaitsOneTick(find: Search, s: State, b: nat, bound: nat)
    requires FindsSlot(find) && WaitsAtMost(s, b, bound)
    ensures bound >= 1
    ensures Tick(find, s).current == Some(b) || WaitsAtMost(Tick(find, s), b, bound - 1)
  {
    TickFair(find, s);
    TickRank(find, s, b);
    assert Runnable(s, b);
  }

  /** `b` is not running after any of the first `n` ticks. */
  predicate KeptWaiting(find: Search, s: State, b: nat, n: nat) {
    n == 0 || (KeptWaiting(find, s, b, n - 1) && TickBy(find, s, n).current != Some(b))
  }

  lemma {:induction false} WaitsOrRuns(find: Search, s: State, b: nat, n: nat) returns (k: nat)
    ensures KeptWaiting(find, s, b, n) || (1 <= k <= n && TickBy(find, s, k).current == Some(b))
  {
    k := 0;
    if n > 0 {
      k := WaitsOrRuns(find, s, b, n - 1);
      if KeptWaiting(find, s, b, n - 1) { k := n; }
    }
  }

  /** Every tick on which `b` does not get to run uses up one unit of the rank. */
  lemma {:induction false} WaitingUsesRank(find: Search, s: State, b: nat, bound: nat, n: nat)
    requires FindsSlot(find) && WaitsAtMost(s, b, bound) && KeptWaiting(find, s, b, n)
    ensures n <= bound && WaitsAtMost(TickBy(find, s, n), b, bound - n)
  {
    if n > 0 {
      WaitingUsesRank(find, s, b, bound, n - 1);
      WaitsOneTick(find, TickBy(find, s, n - 1), b, bound - (n - 1));
    }
  }

  /** Starvation freedom: without further arrivals a ready task runs within `Rank` ticks. */
  lemma RunsWithinRank(find: Search, s: State, b: nat)
    requires FindsSlot(find) && Fair(s) && b in s.ready
    ensures exists n :: 1 <= n <= Rank(s, b) && TickBy(find, s, n).current == Some(b)
  {
    var bound := Rank(s, b);
    var n := WaitsOrRuns(find, s, b, bound);
    if KeptWaiting(find, s, b, bound) {
      WaitingUsesRank(find, s, b, bound, bound);
      WaitsOneTick(find, TickBy(find, s, bound), b, 0);
    }
  }

  // ----- waiting while others arrive

  /** What a call adds to the rank of `b`: the gap of a newcomer. */
  function Arrival(s: State, c: Call, b: nat): nat {
    if c.Wakes? && !Runnable(s, c.id) && c.id != b then Gap(s, b, c.id) else 0
  }

  function Arrivals(find: Search, s: State, calls: seq<Call>, b: nat): nat
    decreases calls
  {
    if calls == [] then 0 else Arrival(s, calls[0], b) + Arrivals(find, After(find, s, calls[0]), calls[1..], b)
  }

  function TickCount(calls: seq<Call>): nat
    decreases calls
  {
    if calls == [] then 0 else (if calls[0] == Ticks then 1 else 0) + TickCount(calls[1..])
  }

  /** `b` is ready, and so not running, before every call. */
  predicate WaitsThroughout(find: Search, s: State, calls: seq<Call>, b: nat)
    decreases calls
  {
    calls == [] || (b in s.ready && WaitsThroughout(find, After(find, s, calls[0]), calls[1..], b))
  }

  lemma AddRank(s: State, id: nat, weight: nat, cap: nat, b: nat)
    requires !Runnable(s, id) && Runnable(s, b)
    ensures Rank(AddTask(s, id, weight, cap), b) == Rank(s, b)
  {
    var r := AddTask(s, id, weight, cap);
    assert forall t :: Runnable(r, t) <==> Runnable(s, t);
    assert Gaps(r, b) == Gaps(s, b);
  }

  lemma WakeRank(s: State, r: State, id: nat, b: nat)
    requires SameRecords(s, r) && id in s.tasks && !Runnable(s, id) && id != b
    requires forall t :: Runnable(r, t) <==> Runnable(s, t) || t == id
    ensures Rank(r, b) == Rank(s, b) + Gap(s, b, id)
  {
    forall t ensures Gap(r, b, t) == Gap(s, b, t) {
      SameQuota(s, r, t);
      SameQuota(s, r, b);
    }
    assert Gaps(r, b) == Gaps(s, b)[id := Gap(s, b, id)];
    TotalUpdate(Gaps(s, b), id, Gap(s, b, id));
    assert Gaps(s, b) - {id} == Gaps(s, b);
  }

  lemma CallRank(find: Search, s: State, c: Call, b: nat)
    requires FindsSlot(find) && Fair(s) && Permitted(s, c) && b in s.ready
    ensures Rank(After(find, s, c), b) + TickCount([c]) <= Rank(s, b) + Arrival(s, c, b)
  {
    assert Runnable(s, b) && [c][0] == c && [c][1..] == [];
    match c
    case Adds(id, weight, cap) => AddRank(s, id, weight, cap, b);
    case Wakes(id) =>
      MakeReadyFair(find, s, id);
      if !Runnable(s, id) { WakeRank(s, MakeReady(find, s, id), id, b); }
    case Ticks => TickRank(find, s, b);
  }

  /** Bounded waiting: over any run in which `b` keeps waiting there are no more ticks than
      its rank and the gaps of those that arrive meanwhile. */
  lemma {:induction false} WaitIsBounded(find: Search, s: State, calls: seq<Call>, b: nat)
    requires FindsSlot(find) && Fair(s) && Legal(find, s, calls) && WaitsThroughout(find, s, calls, b)
    ensures TickCount(calls) + Rank(Run(find, s, calls), b) <= Rank(s, b) + Arrivals(find, s, calls, b)
    decreases calls
  {
    if calls != [] {
      CallRank(find, s, calls[0], b);
      CallFair(find, s, calls[0]);
      assert [calls[0]][0] == calls[0] && TickCount([calls[0]]) == if calls[0] == Ticks then 1 else 0;
      WaitIsBounded(find, After(find, s, calls[0]), calls[1..], b);
    }
  }
}
