/** What every operation keeps when no lock leaves a priority behind: nested locks are
    allowed, and `Harmless` tells which of them are. */
module AutosarInheritance {
  import opened Numbers
  import opened Options
  import opened ReadyList
  import opened AutosarModel
  import opened AutosarConservation
  import opened AutosarChains

  /** `w` waits for the mutex `m`, which `t` owns. */
  predicate HoldsUp(s: State, t: nat, m: nat, w: nat) {
    m in Owned(s.tasks, t) && w in Waiters(s, m)
  }

  /** `t` has its base priority or the most urgent priority among those it holds up. */
  ghost predicate Exact(s: State, t: nat) {
    && Prio(s.tasks, t) <= Base(s.tasks, t)
    && (forall m, w :: HoldsUp(s, t, m, w) ==> Prio(s.tasks, t) <= Prio(s.tasks, w))
    && (Prio(s.tasks, t) == Base(s.tasks, t)
        || exists m, w :: HoldsUp(s, t, m, w) && Prio(s.tasks, t) == Prio(s.tasks, w))
  }

  ghost predicate AllExact(s: State) { forall t :: t in s.tasks ==> Exact(s, t) }

  ghost predicate WaitersOrdered(s: State) {
    forall m :: Ordered(s.tasks, Waiters(s, m))
  }

  ghost predicate MostUrgent(s: State) {
    s.current.Some? ==>
      forall t :: t in s.ready ==> Prio(s.tasks, s.current.value) <= Prio(s.tasks, t)
  }

  /** Priorities are inherited along every chain of waits, and every chain ends. */
  ghost predicate Chained(s: State) {
    Conserved(s) && WaitersOrdered(s) && MostUrgent(s) && AllExact(s) && Rooted(s)
  }

  ghost predicate HoldersRunnable(s: State) {
    forall m :: Owner(s, m).Some? ==> Runnable(s, Owner(s, m).value)
  }

  /** The case without hold and wait: chains have at most one link. */
  ghost predicate Inheriting(s: State) { Chained(s) && HoldersRunnable(s) }

  /** Lowering `o` to `p` disturbs neither the list `o` waits in nor the owner it waits for. */
  ghost predicate Absorbed(s: State, o: nat, p: nat) {
    forall n, i :: 0 <= i < |Waiters(s, n)| && Waiters(s, n)[i] == o ==>
      && (forall j :: 0 <= j < i ==> Prio(s.tasks, Waiters(s, n)[j]) <= p)
      && (Owner(s, n).Some? ==> Prio(s.tasks, Owner(s, n).value) <= p)
  }

  ghost predicate EndsElsewhere(s: State, o: nat, t: nat) { exists e: nat :: e != t && EndsAt(s, o, e) }

  /** The caller `t` may ask for `m`: it is free; or its owner does not wait, directly or
      not, for `t`, and the boost the owner gets need not be passed on. */
  ghost predicate Harmless(s: State, t: nat, m: nat) {
    Owner(s, m).Some? ==>
      var o := Owner(s, m).value;
      && EndsElsewhere(s, o, t)
      && (Prio(s.tasks, o) <= Prio(s.tasks, t) || Absorbed(s, o, Prio(s.tasks, t)))
  }

  /** A runnable owner other than the caller has nobody to pass a boost on to. */
  lemma RunnableOwnerHarmless(s: State, t: nat, m: nat)
    requires OnePlace(s)
    requires Owner(s, m).Some? ==> Owner(s, m).value != t && Runnable(s, Owner(s, m).value)
    ensures Harmless(s, t, m)
  {
    if Owner(s, m).Some? {
      var o := Owner(s, m).value;
      RunnableGrounded(s, o);
      assert forall n, i :: 0 <= i < |Waiters(s, n)| ==> Waiters(s, n)[i] in Waiters(s, n);
    }
  }

  // ----- exact priorities

  /** Exactness only looks at the priorities and at the mutexes `t` owns. */
  lemma ExactFrame(s: State, r: State, t: nat)
    requires Exact(s, t)
    requires Prio(r.tasks, t) == Prio(s.tasks, t) && Base(r.tasks, t) == Base(s.tasks, t)
    requires forall m, w :: HoldsUp(r, t, m, w) <==> HoldsUp(s, t, m, w)
    requires forall m, w :: HoldsUp(s, t, m, w) ==> Prio(r.tasks, w) == Prio(s.tasks, w)
    ensures Exact(r, t)
  {
  }

  lemma OwnsNothing(s: State, t: nat)
    requires Exact(s, t) && Owned(s.tasks, t) == {}
    ensures Prio(s.tasks, t) == Base(s.tasks, t)
  {
  }

  /** When owners are runnable a waiter owns nothing, so it waits at its base priority. */
  lemma WaiterAtBase(s: State, m: nat, w: nat)
    requires Inheriting(s) && w in Waiters(s, m)
    ensures Owned(s.tasks, w) == {} && Prio(s.tasks, w) == Base(s.tasks, w)
  {
    assert forall n :: n in Owned(s.tasks, w) ==> Owner(s, n) == Some(w);
    assert Owned(s.tasks, w) == {};
    OwnsNothing(s, w);
  }

  /** The owner is at least as urgent as those it holds up. */
  lemma WaitUrgent(s: State, x: nat, y: nat)
    requires Deeds(s) && AllExact(s) && WaitsFor(s, x, y)
    ensures Prio(s.tasks, y) <= Prio(s.tasks, x)
  {
    var m :| x in Waiters(s, m) && Owner(s, m) == Some(y);
    assert HoldsUp(s, y, m, x);
  }

  ghost predicate Yielding(s: State) {
    forall x, y :: WaitsFor(s, x, y) ==> Prio(s.tasks, y) <= Prio(s.tasks, x)
  }

  lemma ExactYields(s: State)
    requires Deeds(s) && AllExact(s)
    ensures Yielding(s)
  {
    forall x: nat, y: nat | WaitsFor(s, x, y) ensures Prio(s.tasks, y) <= Prio(s.tasks, x) {
      WaitUrgent(s, x, y);
    }
  }

  lemma {:induction false} ChainUrgent(s: State, x: nat, y: nat, hops: nat)
    requires Yielding(s) && Chain(s, x, y, hops)
    ensures Prio(s.tasks, y) <= Prio(s.tasks, x)
    decreases hops
  {
    if hops > 0 {
      var z: nat :| WaitsFor(s, x, z) && Chain(s, z, y, hops - 1);
      ChainUrgent(s, z, y, hops - 1);
    }
  }

  // ----- the most urgent task runs

  lemma HeadUrgent(tasks: TaskTable, list: seq<nat>)
    requires Ordered(tasks, list)
    ensures forall t :: t in list ==> Prio(tasks, list[0]) <= Prio(tasks, t)
  {
  }

  lemma RunNextUrgent(s: State)
    requires Ordered(s.tasks, s.ready) && s.current == None
    ensures MostUrgent(RunNext(s))
  {
  }

  lemma PreemptUrgent(find: Search, s: State)
    requires FindsSlot(find) && Ordered(s.tasks, s.ready)
    ensures MostUrgent(Preempt(find, s))
  {
    if s.current == None {
      RunNextUrgent(s);
    } else {
      var c := s.current.value;
      InsertOrdered(find, s.tasks, s.ready, c);
      RunNextUrgent(s.(current := None, ready := InsertByPrio(find, s.tasks, s.ready, c)));
    }
  }

  lemma MakeReadyUrgent(find: Search, s: State, id: nat)
    requires FindsSlot(find) && Ordered(s.tasks, s.ready) && MostUrgent(s)
    ensures MostUrgent(MakeReady(find, s, id))
  {
    if !Runnable(s, id) {
      var s1 := s.(ready := InsertByPrio(find, s.tasks, s.ready, id));
      InsertOrdered(find, s.tasks, s.ready, id);
      if s.current == None { RunNextUrgent(s1); } else { PreemptUrgent(find, s1); }
    }
  }

  // ----- operations that leave the mutexes alone

  lemma SameWaits(s: State, r: State)
    requires forall m :: Waiters(r, m) == Waiters(s, m)
    requires forall m :: Waiters(s, m) != [] ==> Owner(r, m) == Owner(s, m)
    ensures forall x, y :: WaitsFor(s, x, y) ==> WaitsFor(r, x, y)
  {
    forall x: nat, y: nat | WaitsFor(s, x, y) ensures WaitsFor(r, x, y) {
      var m :| x in Waiters(s, m) && Owner(s, m) == Some(y);
      assert x in Waiters(r, m) && Owner(r, m) == Some(y);
    }
  }

  lemma AddTaskExact(s: State, id: nat, period: nat, cap: nat)
    requires AllExact(s) && forall m :: id !in Waiters(s, m)
    ensures AllExact(AddTask(s, id, period, cap))
  {
    var r := AddTask(s, id, period, cap);
    assert forall m :: Waiters(r, m) == Waiters(s, m);
    forall t | t in r.tasks ensures Exact(r, t) {
      if t != id { ExactFrame(s, r, t); }
    }
  }

  lemma AddTaskChains(s: State, id: nat, period: nat, cap: nat)
    requires Chained(s) && !Placed(s, id)
    ensures Chained(AddTask(s, id, period, cap))
    ensures HoldersRunnable(s) ==> HoldersRunnable(AddTask(s, id, period, cap))
  {
    var r := AddTask(s, id, period, cap);
    AddTaskConserves(s, id, period, cap);
    AddTaskExact(s, id, period, cap);
    AddTaskLists(s, r, id);
    AddTaskRooted(s, id, period, cap);
  }

  /** A record that no list mentions changes no order. */
  lemma AddTaskLists(s: State, r: State, id: nat)
    requires WaitersOrdered(s) && MostUrgent(s) && !Placed(s, id)
    requires r.ready == s.ready && r.current == s.current && r.mutexes == s.mutexes
    requires forall x :: x != id ==> Prio(r.tasks, x) == Prio(s.tasks, x)
    ensures WaitersOrdered(r) && MostUrgent(r) && (HoldersRunnable(s) ==> HoldersRunnable(r))
  {
    assert forall m :: Owner(r, m) == Owner(s, m) && Waiters(r, m) == Waiters(s, m);
    assert forall x :: Runnable(r, x) <==> Runnable(s, x);
    assert forall m :: id !in Waiters(s, m);
    assert !Runnable(s, id);
    forall m ensures Ordered(r.tasks, Waiters(r, m)) {
      OrderedFrame(s.tasks, r.tasks, Waiters(s, m));
    }
  }

  lemma AddTaskRooted(s: State, id: nat, period: nat, cap: nat)
    requires Conserved(s) && Rooted(s) && !Placed(s, id)
    ensures Rooted(AddTask(s, id, period, cap))
  {
    var r := AddTask(s, id, period, cap);
    AddTaskConserves(s, id, period, cap);
    assert forall m :: Owner(r, m) == Owner(s, m) && Waiters(r, m) == Waiters(s, m);
    assert forall x :: Runnable(r, x) <==> Runnable(s, x);
    SameWaits(s, r);
    RootedFrame(s, r);
  }

  lemma MakeReadyChains(find: Search, s: State, id: nat)
    requires FindsSlot(find) && Chained(s) && id in s.tasks && !Blocked(s, id)
    ensures Chained(MakeReady(find, s, id))
    ensures HoldersRunnable(s) ==> HoldersRunnable(MakeReady(find, s, id))
  {
    var r := MakeReady(find, s, id);
    MakeReadyConserves(find, s, id);
    MakeReadyKeeps(find, s, id);
    MakeReadyUrgent(find, s, id);
    assert forall m :: Waiters(r, m) == Waiters(s, m) && Owner(r, m) == Owner(s, m);
    SameTables(s, r);
    MakeReadyRooted(find, s, id);
  }

  lemma MakeReadyRooted(find: Search, s: State, id: nat)
    requires FindsSlot(find) && Conserved(s) && Rooted(s) && id in s.tasks && !Blocked(s, id)
    ensures Rooted(MakeReady(find, s, id))
  {
    var r := MakeReady(find, s, id);
    MakeReadyConserves(find, s, id);
    MakeReadyKeeps(find, s, id);
    assert forall m :: Waiters(r, m) == Waiters(s, m) && Owner(r, m) == Owner(s, m);
    SameWaits(s, r);
    RootedFrame(s, r);
  }

  /** Stopping a task, or starting the next, leaves waiters and priorities alone. */
  lemma SameTables(s: State, r: State)
    requires r.tasks == s.tasks && r.mutexes == s.mutexes
    ensures WaitersOrdered(s) ==> WaitersOrdered(r)
    ensures AllExact(s) ==> AllExact(r)
  {
    assert forall n :: Waiters(r, n) == Waiters(s, n);
    if AllExact(s) {
      forall x | x in r.tasks ensures Exact(r, x) { ExactFrame(s, r, x); }
    }
  }

  // ----- locking a free mutex

  lemma AcquireExact(s: State, t: nat, m: nat)
    requires AllExact(s) && Waiters(s, m) == []
    ensures AllExact(Acquire(s, t, m))
  {
    var r := Acquire(s, t, m);
    assert forall n :: Waiters(r, n) == Waiters(s, n);
    forall x | x in r.tasks ensures Exact(r, x) { ExactFrame(s, r, x); }
  }

  lemma AcquireLists(s: State, t: nat, m: nat)
    requires WaitersOrdered(s) && MostUrgent(s) && Runnable(s, t)
    ensures var r := Acquire(s, t, m);
            WaitersOrdered(r) && MostUrgent(r) && (HoldersRunnable(s) ==> HoldersRunnable(r))
  {
    var r := Acquire(s, t, m);
    assert forall n :: Owner(r, n) == if n == m then Some(t) else Owner(s, n);
    assert forall x :: Prio(r.tasks, x) == Prio(s.tasks, x);
    forall n ensures Ordered(r.tasks, Waiters(r, n)) {
      assert Waiters(r, n) == Waiters(s, n);
      OrderedFrame(s.tasks, r.tasks, Waiters(s, n));
    }
  }

  lemma AcquireRooted(s: State, t: nat, m: nat)
    requires Rooted(s) && Owner(s, m) == None && Waiters(s, m) == []
    requires forall x :: Placed(Acquire(s, t, m), x) <==> Placed(s, x)
    ensures Rooted(Acquire(s, t, m))
  {
    var r := Acquire(s, t, m);
    assert forall n :: Waiters(r, n) == Waiters(s, n);
    assert forall n :: n != m ==> Owner(r, n) == Owner(s, n);
    assert forall x :: Runnable(r, x) <==> Runnable(s, x);
    SameWaits(s, r);
    RootedFrame(s, r);
  }

  lemma AcquireChains(s: State, t: nat, m: nat)
    requires Chained(s) && Runnable(s, t) && Owner(s, m) == None
    ensures Chained(Acquire(s, t, m))
    ensures HoldersRunnable(s) ==> HoldersRunnable(Acquire(s, t, m))
  {
    AcquireConserves(s, t, m);
    AcquireExact(s, t, m);
    AcquireLists(s, t, m);
    AcquireRooted(s, t, m);
  }

  // ----- waiting for an owner

  /** `r` has the tables of `s`, except that `t` waits for `m` and `o` is boosted. */
  ghost predicate Joined(s: State, r: State, t: nat, m: nat, o: nat) {
    && r.tasks == SetPrio(s.tasks, o, Min(Prio(s.tasks, o), Prio(s.tasks, t)))
    && (forall n :: n != m ==> Waiters(r, n) == Waiters(s, n))
    && (forall w :: w in Waiters(r, m) <==> w in Waiters(s, m) || w == t)
  }

  lemma JoinedTables(s: State, r: State, t: nat, m: nat, o: nat, ws: seq<nat>)
    requires r.tasks == SetPrio(s.tasks, o, Min(Prio(s.tasks, o), Prio(s.tasks, t)))
    requires r.mutexes == s.mutexes[m := Mutex(Some(o), ws)]
    requires forall w :: w in ws <==> w in Waiters(s, m) || w == t
    ensures Joined(s, r, t, m, o)
  {
  }

  lemma LockJoins(find: Search, s: State, t: nat, m: nat, o: nat)
    requires Owner(s, m) == Some(o)
    ensures Joined(s, Lock(find, s, t, m), t, m, o)
  {
    var r, ws := Lock(find, s, t, m), InsertByPrio(find, s.tasks, Waiters(s, m), t);
    assert r.mutexes == s.mutexes[m := Mutex(Some(o), ws)];
    JoinedTables(s, r, t, m, o, ws);
  }

  /** The tasks in their places, after `t` has started to wait. */
  lemma LockMoves(find: Search, s: State, t: nat, m: nat, o: nat)
    requires FindsSlot(find) && Conserved(s) && Runnable(s, t) && Owner(s, m) == Some(o)
    ensures Moved(s, Lock(find, s, t, m), t, m)
  {
    var s1, r := Suspended(find, s, t, m, o), Lock(find, s, t, m);
    SuspendedMoves(find, s, t, m, o);
    if s.current == Some(t) {
      SuspendedOnePlace(find, s, t, m, o);
      RunNextKeeps(s1);
      assert forall n :: Owner(r, n) == Owner(s1, n) && Waiters(r, n) == Waiters(s1, n);
    }
  }

  /** One task of an ordered list may become more urgent if nobody before it stands back. */
  lemma OrderedLowered(tasks: TaskTable, tasks': TaskTable, list: seq<nat>, o: nat)
    requires Ordered(tasks, list) && Prio(tasks', o) <= Prio(tasks, o)
    requires forall x :: x != o ==> Prio(tasks', x) == Prio(tasks, x)
    requires forall i, j :: 0 <= j < i < |list| && list[i] == o ==>
      Prio(tasks, list[j]) <= Prio(tasks', o) || list[j] == o
    ensures Ordered(tasks', list)
  {
  }

  lemma JoinedOrders(s: State, r: State, t: nat, m: nat, o: nat)
    requires WaitersOrdered(s) && Joined(s, r, t, m, o) && Ordered(s.tasks, Waiters(r, m))
    requires o !in Waiters(r, m)
    requires Prio(s.tasks, o) <= Prio(s.tasks, t) || Absorbed(s, o, Prio(s.tasks, t))
    ensures WaitersOrdered(r)
  {
    forall n ensures Ordered(r.tasks, Waiters(r, n)) {
      if n == m || o !in Waiters(s, n) || Prio(s.tasks, o) <= Prio(s.tasks, t) {
        OrderedFrame(s.tasks, r.tasks, Waiters(r, n));
      } else {
        OrderedLowered(s.tasks, r.tasks, Waiters(s, n), o);
      }
    }
  }

  /** A new waiter is inherited exactly. */
  lemma ExactBoost(s: State, r: State, o: nat, m: nat, t: nat)
    requires Exact(s, o) && Base(r.tasks, o) == Base(s.tasks, o)
    requires Prio(r.tasks, o) == Min(Prio(s.tasks, o), Prio(r.tasks, t))
    requires forall n, w :: HoldsUp(r, o, n, w) <==> HoldsUp(s, o, n, w) || (n == m && w == t)
    requires forall n, w :: HoldsUp(s, o, n, w) ==> Prio(r.tasks, w) == Prio(s.tasks, w)
    ensures Exact(r, o)
  {
    assert HoldsUp(r, o, m, t);
    if Prio(s.tasks, o) != Base(s.tasks, o) {
      var n, w :| HoldsUp(s, o, n, w) && Prio(s.tasks, o) == Prio(s.tasks, w);
      assert HoldsUp(r, o, n, w);
    }
  }

  /** A waiter `o` that becomes more urgent leaves `x` exact if `x` already is as urgent. */
  lemma ExactAbsorbs(s: State, r: State, x: nat, o: nat)
    requires Exact(s, x)
    requires Prio(r.tasks, x) == Prio(s.tasks, x) && Base(r.tasks, x) == Base(s.tasks, x)
    requires forall n, w :: HoldsUp(r, x, n, w) <==> HoldsUp(s, x, n, w)
    requires forall n, w :: HoldsUp(s, x, n, w) ==> w == o || Prio(r.tasks, w) == Prio(s.tasks, w)
    requires Prio(s.tasks, x) <= Prio(r.tasks, o) < Prio(s.tasks, o)
    ensures Exact(r, x)
  {
    if Prio(s.tasks, x) != Base(s.tasks, x) {
      var n, w :| HoldsUp(s, x, n, w) && Prio(s.tasks, x) == Prio(s.tasks, w);
      assert HoldsUp(r, x, n, w);
    }
  }

  /** What the others hold up: the same as before, with `o` perhaps more urgent. */
  lemma OthersAbsorb(s: State, r: State, t: nat, m: nat, o: nat, x: nat)
    requires Joined(s, r, t, m, o) && Deeds(s) && Exact(s, x) && x != o && m !in Owned(s.tasks, x)
    requires Prio(s.tasks, o) <= Prio(s.tasks, t) || Absorbed(s, o, Prio(s.tasks, t))
    ensures Exact(r, x)
  {
    assert Owned(r.tasks, x) == Owned(s.tasks, x);
    assert forall n, w :: HoldsUp(r, x, n, w) <==> HoldsUp(s, x, n, w);
    if n :| Prio(s.tasks, t) < Prio(s.tasks, o) && HoldsUp(s, x, n, o) {
      assert Owner(s, n) == Some(x);
      ExactAbsorbs(s, r, x, o);
    } else {
      ExactFrame(s, r, x);
    }
  }

  lemma OwnerBoosted(s: State, r: State, t: nat, m: nat, o: nat)
    requires Joined(s, r, t, m, o) && Exact(s, o) && m in Owned(s.tasks, o) && o in s.tasks && o != t
    requires forall n :: n in Owned(s.tasks, o) ==> o !in Waiters(s, n)
    ensures Exact(r, o)
  {
    assert Owned(r.tasks, o) == Owned(s.tasks, o);
    ExactBoost(s, r, o, m, t);
  }

  /** The recorded owner is the only one, and does not wait for itself. */
  lemma OwnerIs(s: State, m: nat, o: nat)
    requires Conserved(s) && Rooted(s) && Owner(s, m) == Some(o)
    ensures o in s.tasks && forall x :: m in Owned(s.tasks, x) <==> x == o
    ensures forall n :: n in Owned(s.tasks, o) ==> o !in Waiters(s, n)
  {
    SoleOwner(s, m, o);
    forall n | n in Owned(s.tasks, o) ensures o !in Waiters(s, n) { NotInOwnList(s, n, o); }
  }

  lemma SoleOwner(s: State, m: nat, o: nat)
    requires Deeds(s) && Owner(s, m) == Some(o)
    ensures o in s.tasks && forall x :: m in Owned(s.tasks, x) <==> x == o
  {
  }

  lemma NotInOwnList(s: State, n: nat, o: nat)
    requires OnePlace(s) && Deeds(s) && Rooted(s) && n in Owned(s.tasks, o)
    ensures o !in Waiters(s, n)
  {
    NotOwnWaiter(s, o);
    assert Owner(s, n) == Some(o);
  }

  lemma LockExact(s: State, r: State, t: nat, m: nat, o: nat)
    requires Conserved(s) && Rooted(s) && AllExact(s) && Owner(s, m) == Some(o) && o != t
    requires Joined(s, r, t, m, o)
    requires Prio(s.tasks, o) <= Prio(s.tasks, t) || Absorbed(s, o, Prio(s.tasks, t))
    ensures AllExact(r)
  {
    OwnerIs(s, m, o);
    forall x | x in r.tasks ensures Exact(r, x) {
      if x == o { OwnerBoosted(s, r, t, m, o); } else { OthersAbsorb(s, r, t, m, o, x); }
    }
  }

  lemma LockOrders(find: Search, s: State, t: nat, m: nat, o: nat)
    requires FindsSlot(find) && WaitersOrdered(s) && Owner(s, m) == Some(o)
    requires o != t && o !in Waiters(s, m)
    requires Prio(s.tasks, o) <= Prio(s.tasks, t) || Absorbed(s, o, Prio(s.tasks, t))
    ensures WaitersOrdered(Lock(find, s, t, m))
  {
    InsertOrdered(find, s.tasks, Waiters(s, m), t);
    LockJoins(find, s, t, m, o);
    JoinedOrders(s, Lock(find, s, t, m), t, m, o);
  }

  /** A ready task that starts to wait lends no more urgency than the running task has. */
  lemma EnqueueUrgent(find: Search, s: State, t: nat, m: nat, o: nat)
    requires FindsSlot(find) && Conserved(s) && MostUrgent(s) && t in s.ready && Owner(s, m) == Some(o)
    ensures MostUrgent(Enqueue(find, s, t, m, o))
  {
    EnqueueLists(find, s, t, m, o);
  }

  lemma LockUrgent(find: Search, s: State, t: nat, m: nat, o: nat)
    requires FindsSlot(find) && Conserved(s) && MostUrgent(s) && Runnable(s, t) && Owner(s, m) == Some(o)
    ensures MostUrgent(Lock(find, s, t, m))
  {
    if s.current == Some(t) {
      SuspendedOnePlace(find, s, t, m, o);
      RunNextUrgent(Suspended(find, s, t, m, o));
    } else {
      EnqueueUrgent(find, s, t, m, o);
    }
  }

  /** Under any nesting: a lock leaves every wait an end exactly if it closes no cycle. */
  lemma LockRootedExactlyWhen(find: Search, s: State, t: nat, m: nat)
    requires FindsSlot(find) && Conserved(s) && Rooted(s) && Runnable(s, t)
    ensures Rooted(Lock(find, s, t, m)) <==>
            (Owner(s, m).Some? ==> EndsElsewhere(s, Owner(s, m).value, t))
  {
    if Owner(s, m) == None {
      AcquireConserves(s, t, m);
      AcquireRooted(s, t, m);
    } else if EndsElsewhere(s, Owner(s, m).value, t) {
      LockRooted(find, s, t, m, Owner(s, m).value);
    } else {
      LockCloses(find, s, t, m, Owner(s, m).value);
    }
  }

  lemma LockRooted(find: Search, s: State, t: nat, m: nat, o: nat)
    requires FindsSlot(find) && Conserved(s) && Rooted(s) && Runnable(s, t) && Owner(s, m) == Some(o)
    requires EndsElsewhere(s, o, t)
    ensures Rooted(Lock(find, s, t, m))
  {
    var e: nat :| e != t && EndsAt(s, o, e);
    LockMoves(find, s, t, m, o);
    MovedWaits(s, Lock(find, s, t, m), t, m, o);
    WaitsRooted(s, Lock(find, s, t, m), t, o, e);
  }

  /** The caller's chain is the caller alone. */
  lemma NotItself(s: State, t: nat)
    requires OnePlace(s) && Runnable(s, t)
    ensures !EndsElsewhere(s, t, t)
  {
    RunnableGrounded(s, t);
    forall e: nat | EndsAt(s, t, e) ensures e == t { SameEnd(s, t, t, e); }
  }

  lemma LockChains(find: Search, s: State, t: nat, m: nat)
    requires FindsSlot(find) && Chained(s) && Runnable(s, t) && Harmless(s, t, m)
    ensures Chained(Lock(find, s, t, m))
  {
    LockConserves(find, s, t, m);
    match Owner(s, m)
    case None => AcquireChains(s, t, m);
    case Some(o) =>
      NotItself(s, t);
      OwnerIs(s, m, o);
      LockOrders(find, s, t, m, o);
      LockJoins(find, s, t, m, o);
      LockExact(s, Lock(find, s, t, m), t, m, o);
      LockUrgent(find, s, t, m, o);
      LockRooted(find, s, t, m, o);
  }

  /** An owner that is overtaken by a waiter whose boost was not passed on. */
  lemma OwnerLeftBehind(s: State, r: State, o: nat, n: nat, x: nat)
    requires Deeds(s) && o in Waiters(r, n) && Owner(s, n) == Some(x) && x in r.tasks
    requires Owned(r.tasks, x) == Owned(s.tasks, x) && Prio(r.tasks, o) < Prio(r.tasks, x)
    ensures !AllExact(r)
  {
    assert HoldsUp(r, x, n, o) && !Exact(r, x);
  }

  /** A waiter list in which a boosted task kept its old position. */
  lemma ListLeftBehind(r: State, n: nat, i: nat, j: nat)
    requires j < i < |Waiters(r, n)|
    requires Prio(r.tasks, Waiters(r, n)[i]) < Prio(r.tasks, Waiters(r, n)[j])
    ensures !WaitersOrdered(r)
  {
    assert !Ordered(r.tasks, Waiters(r, n));
  }

  lemma NotAbsorbed(s: State, o: nat, p: nat) returns (n: nat, i: nat)
    requires Deeds(s) && !Absorbed(s, o, p)
    ensures i < |Waiters(s, n)| && Waiters(s, n)[i] == o && Owner(s, n).Some?
    ensures p < Prio(s.tasks, Owner(s, n).value) ||
            exists j :: 0 <= j < i && p < Prio(s.tasks, Waiters(s, n)[j])
  {
    n, i :| 0 <= i < |Waiters(s, n)| && Waiters(s, n)[i] == o &&
      !((forall j :: 0 <= j < i ==> Prio(s.tasks, Waiters(s, n)[j]) <= p)
        && (Owner(s, n).Some? ==> Prio(s.tasks, Owner(s, n).value) <= p));
  }

  /** A boost that would have to be passed on leaves a list out of order or an owner behind. */
  lemma UnabsorbedShows(s: State, r: State, t: nat, m: nat, o: nat)
    requires Conserved(s) && Rooted(s) && Joined(s, r, t, m, o) && Owner(s, m) == Some(o)
    requires Prio(s.tasks, t) < Prio(s.tasks, o) && !Absorbed(s, o, Prio(s.tasks, t))
    ensures !WaitersOrdered(r) || !AllExact(r)
  {
    var p := Prio(s.tasks, t);
    OwnerIs(s, m, o);
    var n, i := NotAbsorbed(s, o, p);
    var x := Owner(s, n).value;
    assert o in Waiters(s, n) && n in Owned(s.tasks, x);
    assert x != o && n != m && Waiters(r, n) == Waiters(s, n) && Prio(r.tasks, o) == p;
    if p < Prio(s.tasks, x) {
      OwnerLeftBehind(s, r, o, n, x);
    } else {
      var j :| 0 <= j < i && p < Prio(s.tasks, Waiters(s, n)[j]);
      ListLeftBehind(r, n, i, j);
    }
  }

  /** A lock keeps the chains, and all that follows from them, exactly when it is harmless. */
  lemma LockChainsExactlyWhen(find: Search, s: State, t: nat, m: nat)
    requires FindsSlot(find) && Chained(s) && Runnable(s, t)
    ensures Chained(Lock(find, s, t, m)) <==> Harmless(s, t, m)
  {
    if Harmless(s, t, m) {
      LockChains(find, s, t, m);
    } else {
      var o, r := Owner(s, m).value, Lock(find, s, t, m);
      if EndsElsewhere(s, o, t) {
        LockJoins(find, s, t, m, o);
        UnabsorbedShows(s, r, t, m, o);
      } else {
        LockCloses(find, s, t, m, o);
      }
    }
  }

  lemma LockCloses(find: Search, s: State, t: nat, m: nat, o: nat)
    requires FindsSlot(find) && Conserved(s) && Rooted(s) && Runnable(s, t) && Owner(s, m) == Some(o)
    requires !EndsElsewhere(s, o, t)
    ensures !Rooted(Lock(find, s, t, m))
  {
    var r := Lock(find, s, t, m);
    assert Grounded(s, o);
    var e: nat :| EndsAt(s, o, e);
    assert e == t;
    LockConserves(find, s, t, m);
    LockMoves(find, s, t, m, o);
    MovedWaits(s, r, t, m, o);
    WaitsCloses(s, r, t, o);
  }

  // ----- locking without hold and wait

  lemma LockHolders(s: State, r: State, t: nat)
    requires Deeds(s) && HoldersRunnable(s) && Owned(s.tasks, t) == {} && t in s.tasks
    requires forall n :: Owner(r, n) == Owner(s, n)
    requires forall x :: Runnable(r, x) <==> Runnable(s, x) && x != t
    ensures HoldersRunnable(r)
  {
  }

  /** Asking for a held mutex while owning none is harmless when owners are runnable. */
  lemma PatientHarmless(s: State, t: nat, m: nat)
    requires Inheriting(s) && Runnable(s, t)
    requires Owner(s, m) == None || Owned(s.tasks, t) == {}
    ensures Harmless(s, t, m)
  {
    assert Owner(s, m) == Some(t) ==> m in Owned(s.tasks, t);
    RunnableOwnerHarmless(s, t, m);
  }

  lemma LockInherits(find: Search, s: State, t: nat, m: nat)
    requires FindsSlot(find) && Inheriting(s) && Runnable(s, t)
    requires Owner(s, m) == None || Owned(s.tasks, t) == {}
    ensures Inheriting(Lock(find, s, t, m))
  {
    PatientHarmless(s, t, m);
    LockChains(find, s, t, m);
    match Owner(s, m)
    case None => AcquireChains(s, t, m);
    case Some(o) =>
      LockMoves(find, s, t, m, o);
      LockHolders(s, Lock(find, s, t, m), t);
  }

  // ----- unlocking

  lemma TransferredWaiters(s: State, r: State, m: nat)
    requires Transferred(s, r, m) && WaitersOrdered(s)
    ensures WaitersOrdered(r)
  {
  }

  /** The table with `m` taken from `t`, before its priority is recomputed. */
  function Dropped(r: State, t: nat, m: nat): State {
    r.(tasks := SetOwned(r.tasks, t, Owned(r.tasks, t) - {m}))
  }

  lemma DemoteIs(r: State, t: nat, m: nat)
    requires t in r.tasks
    ensures var d, s1 := Demote(r, t, m), Dropped(r, t, m);
            && (forall n :: Waiters(d, n) == Waiters(r, n) && Waiters(s1, n) == Waiters(r, n))
            && (forall x :: x != t ==> Prio(d.tasks, x) == Prio(r.tasks, x))
            && (forall x :: Prio(s1.tasks, x) == Prio(r.tasks, x))
            && Owned(d.tasks, t) == Owned(s1.tasks, t) && Base(d.tasks, t) == Base(r.tasks, t)
            && Prio(d.tasks, t) == LeastOf(Base(r.tasks, t), HeadPrios(s1, Owned(s1.tasks, t)))
  {
  }

  /** The head of an ordered waiter list is at least as urgent as all that it stands for. */
  lemma HeadsBound(s1: State, ms: set<nat>, base: nat, n: nat, w: nat)
    requires WaitersOrdered(s1) && n in ms && w in Waiters(s1, n)
    ensures LeastOf(base, HeadPrios(s1, ms)) <= Prio(s1.tasks, w)
  {
    HeadUrgent(s1.tasks, Waiters(s1, n));
    assert Prio(s1.tasks, Waiters(s1, n)[0]) in HeadPrios(s1, ms);
  }

  lemma HeadsWitness(s1: State, ms: set<nat>, base: nat) returns (n: nat, w: nat)
    requires LeastOf(base, HeadPrios(s1, ms)) != base
    ensures n in ms && w in Waiters(s1, n) && Prio(s1.tasks, w) == LeastOf(base, HeadPrios(s1, ms))
  {
    n :| n in ms && Waiters(s1, n) != [] &&
         Prio(s1.tasks, Waiters(s1, n)[0]) == LeastOf(base, HeadPrios(s1, ms));
    w := Waiters(s1, n)[0];
  }

  /** The heads of ordered waiter lists carry all that can be inherited from them. */
  lemma DemotedExact(r: State, t: nat, m: nat)
    requires WaitersOrdered(r) && t in r.tasks && forall n :: t !in Waiters(r, n)
    ensures Exact(Demote(r, t, m), t)
  {
    var s1, d := Dropped(r, t, m), Demote(r, t, m);
    var ms, base := Owned(s1.tasks, t), Base(r.tasks, t);
    DemoteIs(r, t, m);
    forall n ensures Ordered(s1.tasks, Waiters(s1, n)) { OrderedFrame(r.tasks, s1.tasks, Waiters(r, n)); }
    forall n, w | HoldsUp(d, t, n, w) ensures Prio(d.tasks, t) <= Prio(d.tasks, w) {
      HeadsBound(s1, ms, base, n, w);
    }
    if Prio(d.tasks, t) != base {
      var n, w := HeadsWitness(s1, ms, base);
      assert HoldsUp(d, t, n, w);
    }
  }

  /** The tables after `t` has passed `m` on, seen from before. */
  ghost predicate Released(s: State, d: State, t: nat, m: nat) {
    var ws := Waiters(s, m);
    && (forall x :: Base(d.tasks, x) == Base(s.tasks, x))
    && (forall x :: x != t ==> Prio(d.tasks, x) == Prio(s.tasks, x))
    && (forall x :: Owned(d.tasks, x) == if x == t then Owned(s.tasks, x) - {m}
                                         else if ws != [] && x == ws[0] then Owned(s.tasks, x) + {m}
                                         else Owned(s.tasks, x))
    && (forall n :: Waiters(d, n) == if n == m && ws != [] then ws[1..] else Waiters(s, n))
  }

  lemma DemoteReleases(s: State, r: State, t: nat, m: nat)
    requires Transferred(s, r, m) && t !in Waiters(s, m)
    ensures Released(s, Demote(r, t, m), t, m)
  {
    var d := Demote(r, t, m);
    assert Waiters(s, m) != [] ==> Waiters(s, m)[0] in Waiters(s, m);
    assert forall x :: Owned(d.tasks, x) == if x == t then Owned(r.tasks, x) - {m} else Owned(r.tasks, x);
    assert forall x :: Base(d.tasks, x) == Base(r.tasks, x);
    assert forall n :: Waiters(d, n) == Waiters(r, n);
  }

  /** More waiters that are no more urgent than `x` leave `x` exact. */
  lemma ExactAmongMore(s: State, d: State, x: nat)
    requires Exact(s, x)
    requires Prio(d.tasks, x) == Prio(s.tasks, x) && Base(d.tasks, x) == Base(s.tasks, x)
    requires forall n, w :: HoldsUp(d, x, n, w) ==> Prio(d.tasks, w) == Prio(s.tasks, w)
    requires forall n, w :: HoldsUp(d, x, n, w) ==> HoldsUp(s, x, n, w) || Prio(s.tasks, x) <= Prio(s.tasks, w)
    requires forall n, w :: HoldsUp(s, x, n, w) ==> HoldsUp(d, x, n, w)
    ensures Exact(d, x)
  {
  }

  /** Whoever takes `m` over is the most urgent waiter: those left behind give it no boost. */
  lemma SuccessorExact(s: State, d: State, t: nat, m: nat)
    requires Released(s, d, t, m) && WaitersOrdered(s) && Waiters(s, m) != []
    requires forall n :: t !in Waiters(s, n)
    requires Exact(s, Waiters(s, m)[0]) && m !in Owned(s.tasks, Waiters(s, m)[0])
    ensures Exact(d, Waiters(s, m)[0])
  {
    var ws := Waiters(s, m);
    var next := ws[0];
    assert next in ws && forall w :: w in ws[1..] ==> w in ws;
    HeadUrgent(s.tasks, ws);
    ExactAmongMore(s, d, next);
  }

  /** Tasks that did not own `m` and do not get it keep what they hold up. */
  lemma BystanderExact(s: State, d: State, t: nat, m: nat, x: nat)
    requires Released(s, d, t, m) && Exact(s, x) && x != t && m !in Owned(s.tasks, x)
    requires forall n :: t !in Waiters(s, n)
    requires Waiters(s, m) != [] ==> x != Waiters(s, m)[0]
    ensures Exact(d, x)
  {
    ExactFrame(s, d, x);
  }

  /** After the hand-over and the demotion every task has its exact priority again. */
  lemma UnlockExact(s: State, r: State, t: nat, m: nat)
    requires AllExact(s) && t in s.tasks && WaitersOrdered(s)
    requires forall x :: m in Owned(s.tasks, x) <==> x == t
    requires forall n :: t !in Waiters(s, n)
    requires Transferred(s, r, m)
    ensures var d := Demote(r, t, m); AllExact(d) && Prio(s.tasks, t) <= Prio(d.tasks, t)
  {
    var d := Demote(r, t, m);
    TransferredWaiters(s, r, m);
    DemoteReleases(s, r, t, m);
    DemotedSelf(s, r, t, m);
    forall x | x in d.tasks && x != t ensures Exact(d, x) {
      if Waiters(s, m) != [] && x == Waiters(s, m)[0] {
        SuccessorExact(s, d, t, m);
      } else {
        BystanderExact(s, d, t, m, x);
      }
    }
  }

  lemma DemotedSelf(s: State, r: State, t: nat, m: nat)
    requires Exact(s, t) && t in s.tasks && Transferred(s, r, m) && (forall n :: t !in Waiters(s, n))
    requires WaitersOrdered(r) && Released(s, Demote(r, t, m), t, m)
    ensures Exact(Demote(r, t, m), t) && Prio(s.tasks, t) <= Prio(Demote(r, t, m).tasks, t)
  {
    assert forall n, w :: w in Waiters(r, n) ==> w in Waiters(s, n);
    DemotedExact(r, t, m);
    DemotedRises(s, Demote(r, t, m), t, m);
  }

  lemma DemotedRises(s: State, d: State, t: nat, m: nat)
    requires Exact(s, t) && Exact(d, t) && Released(s, d, t, m) && forall n :: t !in Waiters(s, n)
    ensures Prio(s.tasks, t) <= Prio(d.tasks, t)
  {
    assert forall n, w :: HoldsUp(d, t, n, w) ==> HoldsUp(s, t, n, w) && w != t;
  }

  lemma HandOverUrgent(find: Search, s: State, m: nat)
    requires FindsSlot(find) && Ordered(s.tasks, s.ready) && MostUrgent(s)
    ensures MostUrgent(HandOver(find, s, m))
  {
    if Waiters(s, m) != [] {
      var s1 := Succeed(s, m);
      assert forall x :: Prio(s1.tasks, x) == Prio(s.tasks, x);
      OrderedFrame(s.tasks, s1.tasks, s.ready);
      MakeReadyUrgent(find, s1, Waiters(s, m)[0]);
    }
  }

  lemma ResettleUrgent(find: Search, r: State, d: State, t: nat)
    requires FindsSlot(find) && MostUrgent(r) && Runnable(r, t)
    requires d.ready == r.ready && d.current == r.current && Ordered(d.tasks, Without(d.ready, t))
    requires Prio(r.tasks, t) <= Prio(d.tasks, t)
    requires forall x :: x != t ==> Prio(d.tasks, x) == Prio(r.tasks, x)
    requires d.current.Some? ==> d.current.value !in d.ready
    requires Distinct(d.ready)
    ensures MostUrgent(Resettle(find, d, t))
  {
    if t in d.ready {
      Repositioned(find, d.tasks, d.ready, t);
    } else {
      WithoutAbsent(d.ready, t);
      PreemptUrgent(find, d);
      HeadUrgent(d.tasks, d.ready);
    }
  }

  lemma DemoteOrders(r: State, t: nat, m: nat)
    requires WaitersOrdered(r) && OnePlace(r) && Runnable(r, t)
    ensures WaitersOrdered(Demote(r, t, m))
  {
    var d := Demote(r, t, m);
    forall n ensures Ordered(d.tasks, Waiters(d, n)) {
      assert Waiters(d, n) == Waiters(r, n) && t !in Waiters(r, n);
      OrderedFrame(r.tasks, d.tasks, Waiters(r, n));
    }
  }

  lemma UnlockHolders(s: State, r: State, q: State, m: nat)
    requires HoldersRunnable(s) && Transferred(s, r, m) && q.mutexes == r.mutexes
    requires forall x :: Runnable(q, x) <==> Runnable(r, x)
    ensures HoldersRunnable(q)
  {
    assert forall n :: Owner(q, n) == Owner(r, n);
  }

  lemma UnlockChains(find: Search, s: State, t: nat, m: nat)
    requires FindsSlot(find) && Chained(s) && (Owner(s, m) == Some(t) ==> Runnable(s, t))
    ensures Chained(Unlock(find, s, t, m))
    ensures HoldersRunnable(s) ==> HoldersRunnable(Unlock(find, s, t, m))
  {
    if Owner(s, m) == Some(t) {
      UnlockConserves(find, s, t, m);
      HandOverKeeps(find, s, m);
      HandOverUrgent(find, s, m);
      UnlockReleased(find, s, HandOver(find, s, m), t, m);
    }
  }

  /** What remains after the hand-over: demote the former owner and settle it. */
  lemma UnlockReleased(find: Search, s: State, r: State, t: nat, m: nat)
    requires FindsSlot(find) && Chained(s) && Owner(s, m) == Some(t) && Runnable(s, t)
    requires OnePlace(r) && Ordered(r.tasks, r.ready) && Working(r) && Transferred(s, r, m) && MostUrgent(r)
    ensures var q := Resettle(find, Demote(r, t, m), t);
            && WaitersOrdered(q) && MostUrgent(q) && AllExact(q) && Rooted(q)
            && (HoldersRunnable(s) ==> HoldersRunnable(q))
  {
    var d := Demote(r, t, m);
    var q := Resettle(find, d, t);
    DemoteKeeps(s, r, t, m);
    OwnerIs(s, m, t);
    UnlockExact(s, r, t, m);
    TransferredWaiters(s, r, m);
    DemoteOrders(r, t, m);
    ResettleUrgent(find, r, d, t);
    ResettleKeeps(find, d, t);
    SameTables(d, q);
    SettledRooted(s, r, d, q, t, m);
  }

  lemma UnlockRooted(find: Search, s: State, t: nat, m: nat)
    requires FindsSlot(find) && Conserved(s) && Rooted(s) && (Owner(s, m) == Some(t) ==> Runnable(s, t))
    ensures Rooted(Unlock(find, s, t, m))
  {
    if Owner(s, m) == Some(t) {
      var r := HandOver(find, s, m);
      var d := Demote(r, t, m);
      HandOverKeeps(find, s, m);
      DemoteKeeps(s, r, t, m);
      ResettleKeeps(find, d, t);
      SettledRooted(s, r, d, Resettle(find, d, t), t, m);
    }
  }

  lemma SettledRooted(s: State, r: State, d: State, q: State, t: nat, m: nat)
    requires OnePlace(s) && Rooted(s) && Transferred(s, r, m) && Owner(s, m) == Some(t)
    requires q.mutexes == d.mutexes == r.mutexes
    requires d.ready == r.ready && d.current == r.current && forall x :: Runnable(q, x) <==> Runnable(d, x)
    ensures Rooted(q) && (HoldersRunnable(s) ==> HoldersRunnable(q))
  {
    assert forall x :: Runnable(q, x) <==> Runnable(r, x) by {
      assert forall x :: Runnable(d, x) <==> Runnable(r, x);
    }
    TransferredRooted(s, r, q, t, m);
    if HoldersRunnable(s) { UnlockHolders(s, r, q, m); }
  }
}
