/** What chained states promise about urgency, and what a lock does to that promise. */
module AutosarUrgency {
  import opened Numbers
  import opened Options
  import opened ReadyList
  import opened AutosarModel
  import opened AutosarConservation
  import opened AutosarChains
  import opened AutosarInheritance

  // ----- where a priority comes from

  /** How many waits separate `x` from the end of its chain. */
  ghost function Hops(s: State, x: nat): nat {
    if exists e: nat, k: nat :: Runnable(s, e) && Chain(s, x, e, k)
    then var e: nat, k: nat :| Runnable(s, e) && Chain(s, x, e, k); k
    else 0
  }

  lemma HopsIs(s: State, x: nat, e: nat, k: nat)
    requires OnePlace(s) && Runnable(s, e) && Chain(s, x, e, k)
    ensures Hops(s, x) == k
  {
    var f: nat, j: nat :| Runnable(s, f) && Chain(s, x, f, j) && Hops(s, x) == j;
    OneEnd(s, x, e, k, f, j);
    OneEnd(s, x, f, j, e, k);
  }

  lemma HopsStep(s: State, w: nat, x: nat)
    requires OnePlace(s) && Grounded(s, w) && WaitsFor(s, w, x)
    ensures Hops(s, w) == Hops(s, x) + 1
  {
    var e: nat :| EndsAt(s, w, e);
    var k: nat :| Chain(s, w, e, k);
    FirstHop(s, w, x, x, 0);
    OneEnd(s, w, e, k, x, 1);
    HopsIs(s, w, e, k);
    HopsIs(s, x, e, k - 1);
  }

  lemma {:induction false} MostHops(s: State, ts: set<nat>) returns (n: nat)
    ensures forall x :: x in ts ==> Hops(s, x) <= n
    decreases ts
  {
    n := 0;
    if ts != {} {
      var t: nat :| t in ts;
      n := MostHops(s, ts - {t});
      n := Max(n, Hops(s, t));
    }
  }

  predicate Boosted(s: State, x: nat) { x in s.tasks && Prio(s.tasks, x) != Base(s.tasks, x) }

  /** `w` waits for `x`, one link further from the end, and has lent `x` its priority. */
  ghost predicate Lends(s: State, w: nat, x: nat) {
    && w in s.tasks && WaitsFor(s, w, x) && Prio(s.tasks, w) == Prio(s.tasks, x)
    && Hops(s, w) == Hops(s, x) + 1
  }

  ghost predicate AllLent(s: State) { forall x :: Boosted(s, x) ==> exists w :: Lends(s, w, x) }

  lemma BoostsAreLent(s: State)
    requires Chained(s)
    ensures AllLent(s)
  {
    forall x | Boosted(s, x) ensures exists w :: Lends(s, w, x) {
      assert Exact(s, x);
      var w := Lender(s, x);
      assert Placed(s, w);
      HopsStep(s, w, x);
      assert Lends(s, w, x);
    }
  }

  /** A task above its base has a waiter of the same priority. */
  lemma Lender(s: State, x: nat) returns (w: nat)
    requires Conserved(s) && Exact(s, x) && Boosted(s, x)
    ensures w in s.tasks && Blocked(s, w) && WaitsFor(s, w, x) && Prio(s.tasks, w) == Prio(s.tasks, x)
  {
    var m, v :| HoldsUp(s, x, m, v) && Prio(s.tasks, x) == Prio(s.tasks, v);
    w := v;
    assert Owner(s, m) == Some(x);
  }

  /** Following the lenders leads to a task at its base priority. */
  lemma {:induction false} Source(s: State, x: nat, n: nat) returns (b: nat)
    requires AllLent(s) && x in s.tasks && forall y :: y in s.tasks ==> Hops(s, y) <= n
    ensures b in s.tasks && Leads(s, b, x) && Base(s.tasks, b) == Prio(s.tasks, x)
    decreases n - Hops(s, x)
  {
    if Boosted(s, x) {
      var w :| Lends(s, w, x);
      b := Source(s, w, n);
      WaitLeads(s, w, x);
      LeadsOn(s, b, w, x);
    } else {
      b := x;
      assert Chain(s, x, x, 0);
    }
  }

  /** The effective priority of `t` is the least base priority among the tasks whose waits
      lead to `t`, itself included. */
  ghost predicate LeastBase(s: State, t: nat) {
    && (forall x :: x in s.tasks && Leads(s, x, t) ==> Prio(s.tasks, t) <= Base(s.tasks, x))
    && (exists x :: x in s.tasks && Leads(s, x, t) && Prio(s.tasks, t) == Base(s.tasks, x))
  }

  lemma LeadsUrgent(s: State, x: nat, y: nat)
    requires Deeds(s) && AllExact(s) && Leads(s, x, y) && x in s.tasks
    ensures Prio(s.tasks, y) <= Base(s.tasks, x)
  {
    ExactYields(s);
    var k: nat :| Chain(s, x, y, k);
    ChainUrgent(s, x, y, k);
    assert Exact(s, x);
  }

  lemma InheritsLeastBase(s: State, t: nat)
    requires Chained(s) && t in s.tasks
    ensures LeastBase(s, t)
  {
    forall x | x in s.tasks && Leads(s, x, t) ensures Prio(s.tasks, t) <= Base(s.tasks, x) {
      LeadsUrgent(s, x, t);
    }
    BoostsAreLent(s);
    var n := MostHops(s, s.tasks.Keys);
    var b := Source(s, t, n);
  }

  // ----- no priority comes from nowhere

  /** The priority of `t` is its base priority or that of a released task. */
  ghost predicate Backed(s: State, t: nat) {
    exists b :: (b == t || Placed(s, b)) && Prio(s.tasks, t) == Base(s.tasks, b)
  }

  ghost predicate AllBacked(s: State) { forall t :: t in s.tasks ==> Backed(s, t) }

  /** Unchanged priorities stay backed while bases and places are kept. */
  lemma BackedFrame(s: State, r: State, t: nat)
    requires Backed(s, t) && Prio(r.tasks, t) == Prio(s.tasks, t) && Base(r.tasks, t) == Base(s.tasks, t)
    requires forall x :: Placed(s, x) ==> Placed(r, x) && Base(r.tasks, x) == Base(s.tasks, x)
    ensures Backed(r, t)
  {
    var b :| (b == t || Placed(s, b)) && Prio(s.tasks, t) == Base(s.tasks, b);
    assert b == t || Placed(r, b);
  }

  lemma AddTaskBacked(s: State, id: nat, period: nat, cap: nat)
    requires Conserved(s) && AllBacked(s) && !Placed(s, id)
    ensures AllBacked(AddTask(s, id, period, cap))
  {
    var r := AddTask(s, id, period, cap);
    AddTaskConserves(s, id, period, cap);
    forall t | t in r.tasks ensures Backed(r, t) {
      if t == id { assert Prio(r.tasks, t) == Base(r.tasks, t); } else { BackedFrame(s, r, t); }
    }
  }

  lemma MakeReadyBacked(find: Search, s: State, id: nat)
    requires FindsSlot(find) && Conserved(s) && AllBacked(s) && id in s.tasks && !Blocked(s, id)
    ensures AllBacked(MakeReady(find, s, id))
  {
    var r := MakeReady(find, s, id);
    MakeReadyConserves(find, s, id);
    MakeReadyKeeps(find, s, id);
    forall t | t in r.tasks ensures Backed(r, t) { BackedFrame(s, r, t); }
  }

  /** A boost hands on a priority that was backed already. */
  lemma BoostBacked(s: State, r: State, t: nat, m: nat, o: nat, x: nat)
    requires Joined(s, r, t, m, o) && (forall y :: Placed(r, y) <==> Placed(s, y))
    requires Backed(s, x) && Backed(s, t) && Placed(s, t)
    ensures Backed(r, x)
  {
    if Prio(r.tasks, x) == Prio(s.tasks, x) {
      BackedFrame(s, r, x);
    } else {
      var b :| (b == t || Placed(s, b)) && Prio(s.tasks, t) == Base(s.tasks, b);
      assert Placed(r, b) && Prio(r.tasks, x) == Base(r.tasks, b);
    }
  }

  lemma LockBacked(find: Search, s: State, t: nat, m: nat)
    requires FindsSlot(find) && Conserved(s) && AllBacked(s) && Runnable(s, t)
    ensures AllBacked(Lock(find, s, t, m))
  {
    var r := Lock(find, s, t, m);
    LockConserves(find, s, t, m);
    match Owner(s, m)
    case None =>
      forall x | x in r.tasks ensures Backed(r, x) { BackedFrame(s, r, x); }
    case Some(o) =>
      LockJoins(find, s, t, m, o);
      forall x | x in r.tasks ensures Backed(r, x) { BoostBacked(s, r, t, m, o, x); }
  }

  /** A demoted task has its base priority or that of the head of a list. */
  lemma DemotedFrom(h: State, t: nat, m: nat) returns (w: nat)
    requires t in h.tasks && forall n :: t !in Waiters(h, n)
    ensures var d := Demote(h, t, m);
            && (w == t || (Blocked(h, w) && w != t))
            && Prio(d.tasks, t) == if w == t then Base(h.tasks, t) else Prio(h.tasks, w)
  {
    var s1 := Dropped(h, t, m);
    var ms, base := Owned(s1.tasks, t), Base(h.tasks, t);
    DemoteIs(h, t, m);
    w := t;
    if LeastOf(base, HeadPrios(s1, ms)) != base {
      var n, v := HeadsWitness(s1, ms, base);
      assert v in Waiters(h, n);
      w := v;
    }
  }

  lemma UnlockBacked(find: Search, s: State, t: nat, m: nat)
    requires FindsSlot(find) && Conserved(s) && AllBacked(s) && (Owner(s, m) == Some(t) ==> Runnable(s, t))
    ensures AllBacked(Unlock(find, s, t, m))
  {
    if Owner(s, m) == Some(t) {
      var h, r := HandOver(find, s, m), Unlock(find, s, t, m);
      var d := Demote(h, t, m);
      UnlockConserves(find, s, t, m);
      HandOverKeeps(find, s, m);
      DemoteKeeps(s, h, t, m);
      ResettleKeeps(find, d, t);
      RunnableNotBlocked(h, t);
      assert forall n :: t !in Waiters(h, n);
      var w := DemotedFrom(h, t, m);
      ReleasedBacked(s, h, d, r, t, m, w);
    }
  }

  lemma ReleasedBacked(s: State, h: State, d: State, r: State, t: nat, m: nat, w: nat)
    requires Transferred(s, h, m) && AllBacked(s) && t in s.tasks && Placed(s, t) && d == Demote(h, t, m)
    requires r.tasks == d.tasks && d.tasks.Keys == h.tasks.Keys
    requires forall x :: Placed(r, x) <==> Placed(s, x)
    requires forall x :: Placed(s, x) ==> x in s.tasks
    requires w == t || (Blocked(h, w) && w != t)
    requires Prio(d.tasks, t) == if w == t then Base(h.tasks, t) else Prio(h.tasks, w)
    ensures AllBacked(r)
  {
    TransferredPlaces(s, h, m);
    assert forall x :: Base(d.tasks, x) == Base(h.tasks, x) == Base(s.tasks, x);
    assert forall x :: x != t ==> Prio(d.tasks, x) == Prio(h.tasks, x) == Prio(s.tasks, x);
    forall x | x in r.tasks ensures Backed(r, x) {
      if x != t {
        BackedFrame(s, r, x);
      } else if w == t {
        assert Prio(r.tasks, t) == Base(r.tasks, t);
      } else {
        assert Placed(s, w) && Backed(s, w);
        var b :| (b == w || Placed(s, b)) && Prio(s.tasks, w) == Base(s.tasks, b);
        assert Placed(r, b) && Prio(r.tasks, t) == Base(r.tasks, b);
      }
    }
  }

  /** Exact priorities are backed. */
  lemma ChainedBacked(s: State)
    requires Chained(s)
    ensures AllBacked(s)
  {
    forall t | t in s.tasks ensures Backed(s, t) {
      InheritsLeastBase(s, t);
      var b :| b in s.tasks && Leads(s, b, t) && Prio(s.tasks, t) == Base(s.tasks, b);
      var k: nat :| Chain(s, b, t, k);
      if k > 0 {
        var z := LastHops(s, b, t, k);
        OneHop(s, b, z);
      }
    }
  }

  // ----- nobody released is more urgent than the running task

  ghost predicate NoInversion(s: State) {
    s.current.Some? && forall x :: Placed(s, x) ==> Prio(s.tasks, s.current.value) <= Base(s.tasks, x)
  }

  lemma MostUrgentOfAll(s: State, x: nat)
    requires Chained(s) && Placed(s, x)
    ensures s.current.Some? && Prio(s.tasks, s.current.value) <= Base(s.tasks, x)
  {
    var e: nat :| EndsAt(s, x, e);
    LeadsUrgent(s, x, e);
  }

  lemma ChainedNoInversion(s: State, x: nat)
    requires Chained(s) && Placed(s, x)
    ensures NoInversion(s)
  {
    MostUrgentOfAll(s, x);
    forall y | Placed(s, y) ensures Prio(s.tasks, s.current.value) <= Base(s.tasks, y) { MostUrgentOfAll(s, y); }
  }

  /** Whatever the priorities: somebody runs while every wait has an end. */
  lemma SomebodyRuns(s: State, x: nat)
    requires Conserved(s) && Rooted(s) && Placed(s, x)
    ensures s.current.Some?
  {
    var e: nat :| EndsAt(s, x, e);
  }

  // ----- what a lock does

  /** The processor is left idle by a lock exactly when the caller has to wait and nobody
      is ready, whatever the nesting. */
  lemma LockIdles(find: Search, s: State, t: nat, m: nat)
    requires FindsSlot(find) && Conserved(s) && s.current == Some(t)
    ensures Lock(find, s, t, m).current == None <==> Owner(s, m).Some? && s.ready == []
  {
    if Owner(s, m).Some? {
      LockSwitches(find, s, t, m, Owner(s, m).value);
    }
  }

  /** The running task waits; a ready task with the least new priority, if any, runs. */
  lemma LockSwitches(find: Search, s: State, t: nat, m: nat, o: nat)
    requires FindsSlot(find) && Conserved(s) && s.current == Some(t) && Owner(s, m) == Some(o)
    ensures var r := Lock(find, s, t, m);
            if s.ready == [] then r.current == None
            else && r.current.Some? && r.current.value in s.ready
                 && forall x :: x in s.ready ==> Prio(r.tasks, r.current.value) <= Prio(r.tasks, x)
  {
    var s1 := Suspended(find, s, t, m, o);
    EnqueueLists(find, s, t, m, o);
    HeadUrgent(s1.tasks, s1.ready);
    assert s1.ready != [] ==> s1.ready[0] in s1.ready;
    assert s.ready != [] ==> s.ready[0] in s1.ready;
  }

  lemma JoinedPrios(s: State, r: State, t: nat, m: nat, o: nat, x: nat)
    requires Joined(s, r, t, m, o)
    ensures Base(r.tasks, x) == Base(s.tasks, x)
    ensures Prio(r.tasks, x) <= Prio(s.tasks, x)
    ensures x != o ==> Prio(r.tasks, x) == Prio(s.tasks, x)
    ensures x == o && o in s.tasks ==> Prio(r.tasks, x) <= Prio(s.tasks, t)
  {
  }

  /** A running task that has to wait is replaced without inversion exactly when the owner
      it waits for is ready, and so boosted, or a ready task is as urgent already. */
  lemma SwitchInverts(find: Search, s: State, t: nat, m: nat, o: nat)
    requires FindsSlot(find) && Conserved(s) && AllBacked(s) && NoInversion(s)
    requires s.current == Some(t) && Owner(s, m) == Some(o)
    ensures NoInversion(Lock(find, s, t, m)) <==>
            o in s.ready || (s.ready != [] && Prio(s.tasks, s.ready[0]) <= Prio(s.tasks, t))
  {
    var r := Lock(find, s, t, m);
    LockConserves(find, s, t, m);
    LockJoins(find, s, t, m, o);
    LockSwitches(find, s, t, m, o);
    if s.ready != [] {
      var c := r.current.value;
      JoinedPrios(s, r, t, m, o, c);
      JoinedPrios(s, r, t, m, o, o);
      JoinedPrios(s, r, t, m, o, s.ready[0]);
      HeadUrgent(s.tasks, s.ready);
      if NoInversion(r) {
        assert Runnable(s, t) && Backed(s, t);
        var b :| (b == t || Placed(s, b)) && Prio(s.tasks, t) == Base(s.tasks, b);
        assert Placed(s, b);
        JoinedPrios(s, r, t, m, o, b);
      } else if Prio(r.tasks, c) <= Prio(s.tasks, t) {
        forall x | Placed(r, x) ensures Prio(r.tasks, c) <= Base(r.tasks, x) {
          assert Placed(s, x);
          JoinedPrios(s, r, t, m, o, x);
        }
      }
    }
  }

  lemma StaysUrgent(find: Search, s: State, t: nat, m: nat)
    requires FindsSlot(find) && Conserved(s) && NoInversion(s) && Runnable(s, t)
    requires Owner(s, m) == None || s.current != Some(t)
    ensures NoInversion(Lock(find, s, t, m))
  {
    var r := Lock(find, s, t, m);
    LockConserves(find, s, t, m);
    assert r.current == s.current && s.current.Some?;
    forall x | Placed(r, x) ensures Prio(r.tasks, r.current.value) <= Base(r.tasks, x) {
      assert Placed(s, x);
      if Owner(s, m).Some? {
        LockJoins(find, s, t, m, Owner(s, m).value);
        JoinedPrios(s, r, t, m, Owner(s, m).value, x);
        JoinedPrios(s, r, t, m, Owner(s, m).value, r.current.value);
      }
    }
  }

  /** When a lock leads to priority inversion: the caller runs and has to wait, the owner
      is not ready, so that its boost puts nobody forward, and no ready task is as urgent. */
  lemma InversionExactlyWhen(find: Search, s: State, t: nat, m: nat)
    requires FindsSlot(find) && Conserved(s) && AllBacked(s) && NoInversion(s) && Runnable(s, t)
    ensures !NoInversion(Lock(find, s, t, m)) <==>
            && s.current == Some(t) && Owner(s, m).Some? && Owner(s, m).value !in s.ready
            && (s.ready == [] || Prio(s.tasks, t) < Prio(s.tasks, s.ready[0]))
  {
    if s.current == Some(t) && Owner(s, m).Some? {
      SwitchInverts(find, s, t, m, Owner(s, m).value);
    } else {
      StaysUrgent(find, s, t, m);
    }
  }

  /** A running task that has to wait harmlessly always finds a successor. */
  lemma BlockingFindsSuccessor(find: Search, s: State, t: nat, m: nat)
    requires FindsSlot(find) && Chained(s) && s.current == Some(t)
    requires Owner(s, m).Some? && Harmless(s, t, m)
    ensures var r := Lock(find, s, t, m);
            r.current.Some? && r.current.value in s.ready && t in Waiters(r, m)
  {
    var o := Owner(s, m).value;
    var e: nat :| e != t && EndsAt(s, o, e);
    assert e in s.ready;
    LockSwitches(find, s, t, m, o);
    LockJoins(find, s, t, m, o);
  }

  // ----- what an unlock does

  lemma HandedOver(find: Search, s: State, t: nat, m: nat)
    requires FindsSlot(find) && Conserved(s) && Owner(s, m) == Some(t) && Runnable(s, t)
    ensures var r, ws := Unlock(find, s, t, m), Waiters(s, m);
            && Owner(r, m) == (if ws == [] then None else Some(ws[0]))
            && (ws != [] ==> Waiters(r, m) == ws[1..] && Runnable(r, ws[0]))
            && (forall x :: x != t ==> Prio(r.tasks, x) == Prio(s.tasks, x))
  {
    var h := HandOver(find, s, m);
    var d := Demote(h, t, m);
    HandOverKeeps(find, s, m);
    DemoteKeeps(s, h, t, m);
    ResettleKeeps(find, d, t);
    TablesHandedOver(s, h, d, Resettle(find, d, t), t, m);
  }

  lemma TablesHandedOver(s: State, h: State, d: State, r: State, t: nat, m: nat)
    requires Transferred(s, h, m) && d == h.(tasks := d.tasks) && r.tasks == d.tasks && r.mutexes == d.mutexes
    requires forall x :: x != t ==> Prio(d.tasks, x) == Prio(h.tasks, x)
    requires forall x :: Runnable(r, x) <==> Runnable(d, x)
    ensures var ws := Waiters(s, m);
            && Owner(r, m) == (if ws == [] then None else Some(ws[0]))
            && (ws != [] ==> Waiters(r, m) == ws[1..] && Runnable(r, ws[0]))
            && (forall x :: x != t ==> Prio(r.tasks, x) == Prio(s.tasks, x))
  {
    assert forall x :: Runnable(d, x) <==> Runnable(h, x);
    assert Owner(r, m) == Owner(h, m) && Waiters(r, m) == Waiters(h, m);
  }

  /** Priority-ordered hand-over: a most urgent waiter gets the mutex, runs or is ready,
      and keeps its priority; without waiters the mutex becomes free. */
  lemma HandOverToMostUrgent(find: Search, s: State, t: nat, m: nat)
    requires FindsSlot(find) && Chained(s) && Owner(s, m) == Some(t) && Runnable(s, t)
    ensures var r := Unlock(find, s, t, m);
            if Waiters(s, m) == [] then Owner(r, m) == None
            else var next := Waiters(s, m)[0];
              && Owner(r, m) == Some(next) && Waiters(r, m) == Waiters(s, m)[1..]
              && Runnable(r, next) && Prio(r.tasks, next) == Prio(s.tasks, next)
              && (forall w :: w in Waiters(s, m) ==> Prio(s.tasks, next) <= Prio(s.tasks, w))
              && (HoldersRunnable(s) ==>
                    && Prio(r.tasks, next) == Base(s.tasks, next)
                    && forall w :: w in Waiters(s, m) ==> Base(s.tasks, next) <= Base(s.tasks, w))
  {
    var ws := Waiters(s, m);
    HandedOver(find, s, t, m);
    if ws != [] {
      assert ws[0] in Waiters(s, m);
      HeadUrgent(s.tasks, ws);
      if HoldersRunnable(s) {
        forall w | w in ws ensures Prio(s.tasks, w) == Base(s.tasks, w) { WaiterAtBase(s, m, w); }
      }
    }
  }
}
