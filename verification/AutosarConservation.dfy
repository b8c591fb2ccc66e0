/** What every operation keeps under arbitrary, possibly nested, locking. */
module AutosarConservation {
  import opened Options
  import opened ReadyList
  import opened AutosarModel

  predicate Runnable(s: State, t: nat) { s.current == Some(t) || t in s.ready }

  ghost predicate Blocked(s: State, t: nat) { exists m :: t in Waiters(s, m) }

  /** A released task: running, ready or waiting for a mutex. */
  ghost predicate Placed(s: State, t: nat) { Runnable(s, t) || Blocked(s, t) }

  ghost predicate Ordered(tasks: TaskTable, list: seq<nat>) {
    forall i, j :: 0 <= i < j < |list| ==> Prio(tasks, list[i]) <= Prio(tasks, list[j])
  }

  /** Every released task is registered and has exactly one place. */
  ghost predicate OnePlace(s: State) {
    && (forall t :: Runnable(s, t) ==> t in s.tasks)
    && (forall m, t :: t in Waiters(s, m) ==> t in s.tasks && !Runnable(s, t))
    && Distinct(s.ready)
    && (s.current.Some? ==> s.current.value !in s.ready)
    && (forall m :: Distinct(Waiters(s, m)))
    && (forall m, n, t :: t in Waiters(s, m) && t in Waiters(s, n) ==> m == n)
  }

  /** The two records of ownership agree, and a mutex is never waited for in vain. */
  ghost predicate Deeds(s: State) {
    && (forall t, m :: m in Owned(s.tasks, t) <==> t in s.tasks && Owner(s, m) == Some(t))
    && (forall m :: Owner(s, m).Some? ==> Owner(s, m).value in s.tasks)
    && (forall m :: Waiters(s, m) != [] ==> Owner(s, m).Some?)
  }

  ghost predicate HoldersPlaced(s: State) {
    forall m :: Owner(s, m).Some? ==> Placed(s, Owner(s, m).value)
  }

  ghost predicate Capped(s: State) {
    forall t :: t in s.tasks ==> s.tasks[t].prio <= s.tasks[t].base
  }

  /** Nobody is ready while nobody runs. */
  predicate Working(s: State) { s.current == None ==> s.ready == [] }

  ghost predicate Conserved(s: State) {
    && OnePlace(s) && Ordered(s.tasks, s.ready) && Working(s)
    && Deeds(s) && HoldersPlaced(s) && Capped(s)
  }

  // ----- ordered lists

  lemma InsertOrdered(find: Search, tasks: TaskTable, list: seq<nat>, t: nat)
    requires FindsSlot(find) && Ordered(tasks, list)
    ensures Ordered(tasks, InsertByPrio(find, tasks, list, t))
  {
    var keys, key := Prios(tasks, list), Prio(tasks, t);
    var slot := find(keys, key);
    assert Sorted(keys) && slot <= |keys|;
    InsertSorted(keys, key, slot);
    InsertAtIs(list, slot, t);
    InsertAtIs(keys, slot, key);
    var r := InsertByPrio(find, tasks, list, t);
    forall i | 0 <= i < |r| ensures Prio(tasks, r[i]) == InsertAt(keys, slot, key)[i] { }
  }

  lemma InsertKeepsDistinct(find: Search, tasks: TaskTable, list: seq<nat>, t: nat)
    requires FindsSlot(find) && Distinct(list) && t !in list
    ensures Distinct(InsertByPrio(find, tasks, list, t))
  {
    InsertDistinct(list, find(Prios(tasks, list), Prio(tasks, t)), t);
  }

  lemma {:induction false} WithoutOrdered(tasks: TaskTable, list: seq<nat>, t: nat)
    requires Ordered(tasks, list)
    ensures Ordered(tasks, Without(list, t))
  {
    if list != [] {
      WithoutOrdered(tasks, list[1..], t);
      var rest := Without(list[1..], t);
      forall i | 0 <= i < |rest| ensures Prio(tasks, list[0]) <= Prio(tasks, rest[i]) {
        assert rest[i] in list[1..];
      }
    }
  }

  lemma OrderedFrame(tasks: TaskTable, tasks': TaskTable, list: seq<nat>)
    requires Ordered(tasks, list)
    requires forall x :: x in list ==> Prio(tasks', x) == Prio(tasks, x)
    ensures Ordered(tasks', list)
  {
  }

  lemma {:induction false} WithoutAbsent(list: seq<nat>, t: nat)
    requires t !in list
    ensures Without(list, t) == list
  {
    if list != [] { WithoutAbsent(list[1..], t); }
  }

  /** Moving one task to its slot repairs a list that is ordered up to that task. */
  lemma Repositioned(find: Search, tasks: TaskTable, list: seq<nat>, t: nat)
    requires FindsSlot(find) && Distinct(list) && Ordered(tasks, Without(list, t))
    ensures Distinct(Reposition(find, tasks, list, t))
    ensures Ordered(tasks, Reposition(find, tasks, list, t))
    ensures forall x :: x in Reposition(find, tasks, list, t) <==> x in list
  {
    WithoutDistinct(list, t);
    if t in list {
      InsertOrdered(find, tasks, Without(list, t), t);
      InsertKeepsDistinct(find, tasks, Without(list, t), t);
    } else {
      WithoutAbsent(list, t);
    }
  }

  // ----- dispatching

  /** Only the lists of runnable tasks may differ, and they stay tidy. */
  ghost predicate Rearranged(s: State, r: State) {
    && r.tasks == s.tasks && r.mutexes == s.mutexes
    && Distinct(r.ready) && (r.current.Some? ==> r.current.value !in r.ready)
  }

  lemma RearrangedOnePlace(s: State, r: State)
    requires OnePlace(s) && Rearranged(s, r)
    requires forall t :: Runnable(r, t) ==> t in s.tasks && !Blocked(s, t)
    ensures OnePlace(r)
  {
    assert forall m :: Waiters(r, m) == Waiters(s, m);
    assert forall m, t :: t in Waiters(s, m) ==> Blocked(s, t);
  }

  lemma RunnableNotBlocked(s: State, t: nat)
    requires OnePlace(s) && Runnable(s, t)
    ensures !Blocked(s, t) && t in s.tasks
  {
  }

  lemma SamePlaces(s: State, r: State)
    requires OnePlace(s) && Rearranged(s, r) && forall t :: Runnable(r, t) ==> Runnable(s, t)
    ensures OnePlace(r)
  {
    forall t | Runnable(r, t) ensures t in s.tasks && !Blocked(s, t) { RunnableNotBlocked(s, t); }
    RearrangedOnePlace(s, r);
  }

  /** Taking the head of the ready list moves a task, and only that. */
  lemma RunNextMoves(s: State)
    requires Distinct(s.ready) && Ordered(s.tasks, s.ready) && s.current == None
    ensures var r := RunNext(s);
            && Rearranged(s, r) && Ordered(r.tasks, r.ready) && Working(r)
            && (forall t :: Runnable(r, t) <==> Runnable(s, t))
  {
  }

  lemma RunNextKeeps(s: State)
    requires OnePlace(s) && Ordered(s.tasks, s.ready) && s.current == None
    ensures var r := RunNext(s);
            && OnePlace(r) && Ordered(r.tasks, r.ready) && Working(r)
            && r.tasks == s.tasks && r.mutexes == s.mutexes
            && (forall t :: Runnable(r, t) <==> Runnable(s, t))
  {
    RunNextMoves(s);
    SamePlaces(s, RunNext(s));
  }

  lemma PreemptMoves(find: Search, s: State)
    requires FindsSlot(find) && Ordered(s.tasks, s.ready)
    requires Distinct(s.ready) && (s.current.Some? ==> s.current.value !in s.ready)
    ensures var r := Preempt(find, s);
            && Rearranged(s, r) && Ordered(r.tasks, r.ready) && Working(r)
            && (forall t :: Runnable(r, t) <==> Runnable(s, t))
  {
    if s.current == None {
      RunNextMoves(s);
    } else {
      var c := s.current.value;
      InsertOrdered(find, s.tasks, s.ready, c);
      InsertKeepsDistinct(find, s.tasks, s.ready, c);
      RunNextMoves(s.(current := None, ready := InsertByPrio(find, s.tasks, s.ready, c)));
    }
  }

  lemma MakeReadyMoves(find: Search, s: State, id: nat)
    requires FindsSlot(find) && Ordered(s.tasks, s.ready) && Working(s)
    requires Distinct(s.ready) && (s.current.Some? ==> s.current.value !in s.ready)
    ensures var r := MakeReady(find, s, id);
            && Rearranged(s, r) && Ordered(r.tasks, r.ready) && Working(r)
            && (forall t :: Runnable(r, t) <==> Runnable(s, t) || t == id)
  {
    if !Runnable(s, id) {
      var s1 := s.(ready := InsertByPrio(find, s.tasks, s.ready, id));
      InsertOrdered(find, s.tasks, s.ready, id);
      InsertKeepsDistinct(find, s.tasks, s.ready, id);
      if s.current == None { RunNextMoves(s1); } else { PreemptMoves(find, s1); }
    }
  }

  lemma MakeReadyKeeps(find: Search, s: State, id: nat)
    requires FindsSlot(find) && OnePlace(s) && Ordered(s.tasks, s.ready) && Working(s)
    requires id in s.tasks && !Blocked(s, id)
    ensures var r := MakeReady(find, s, id);
            && OnePlace(r) && Ordered(r.tasks, r.ready) && Working(r)
            && r.tasks == s.tasks && r.mutexes == s.mutexes
            && (forall t :: Runnable(r, t) <==> Runnable(s, t) || t == id)
  {
    var r := MakeReady(find, s, id);
    MakeReadyMoves(find, s, id);
    forall t | Runnable(r, t) ensures t in s.tasks && !Blocked(s, t) {
      if t != id { RunnableNotBlocked(s, t); }
    }
    RearrangedOnePlace(s, r);
  }

  // ----- the public operations

  /** Registering an id nobody has released changes no place. */
  lemma AddTaskConserves(s: State, id: nat, period: nat, cap: nat)
    requires Conserved(s) && !Placed(s, id)
    ensures Conserved(AddTask(s, id, period, cap))
    ensures forall t :: Placed(AddTask(s, id, period, cap), t) <==> Placed(s, t)
  {
    var r := AddTask(s, id, period, cap);
    assert forall m :: Waiters(r, m) == Waiters(s, m) && Owner(r, m) == Owner(s, m);
    assert forall m :: id !in Waiters(s, m);
    assert forall t :: Blocked(r, t) <==> Blocked(s, t);
    assert forall t :: Runnable(r, t) <==> Runnable(s, t);
    assert forall t :: t != id ==> Owned(r.tasks, t) == Owned(s.tasks, t);
  }

  lemma MakeReadyConserves(find: Search, s: State, id: nat)
    requires FindsSlot(find) && Conserved(s) && id in s.tasks && !Blocked(s, id)
    ensures Conserved(MakeReady(find, s, id))
    ensures forall t :: Placed(MakeReady(find, s, id), t) <==> Placed(s, t) || t == id
  {
    var r := MakeReady(find, s, id);
    MakeReadyKeeps(find, s, id);
    assert forall m :: Waiters(r, m) == Waiters(s, m) && Owner(r, m) == Owner(s, m);
    assert forall t :: Blocked(r, t) <==> Blocked(s, t);
  }

  lemma AcquireConserves(s: State, t: nat, m: nat)
    requires Conserved(s) && Runnable(s, t) && Owner(s, m) == None
    ensures Conserved(Acquire(s, t, m))
    ensures forall x :: Placed(Acquire(s, t, m), x) <==> Placed(s, x)
  {
    var r := Acquire(s, t, m);
    assert forall n :: Waiters(r, n) == Waiters(s, n);
    assert forall n :: Owner(r, n) == if n == m then Some(t) else Owner(s, n);
    assert forall x :: Blocked(r, x) <==> Blocked(s, x);
    assert forall x :: Runnable(r, x) <==> Runnable(s, x);
    assert forall x :: Owned(r.tasks, x) == if x == t then Owned(s.tasks, t) + {m} else Owned(s.tasks, x);
  }

  /** The waiter lists after `t` has joined those of `m`. */
  lemma EnqueueLists(find: Search, s: State, t: nat, m: nat, o: nat)
    requires FindsSlot(find) && Conserved(s) && Runnable(s, t) && Owner(s, m) == Some(o)
    ensures var r := Enqueue(find, s, t, m, o);
            && (forall n :: Owner(r, n) == Owner(s, n))
            && (forall n :: n != m ==> Waiters(r, n) == Waiters(s, n))
            && Waiters(r, m) == InsertByPrio(find, s.tasks, Waiters(s, m), t)
            && Distinct(r.ready) && Ordered(r.tasks, r.ready)
            && (forall x :: x in r.ready <==> x in s.ready && x != t)
  {
    var tasks := Enqueue(find, s, t, m, o).tasks;
    var rest := Without(s.ready, t);
    WithoutDistinct(s.ready, t);
    WithoutOrdered(s.tasks, s.ready, t);
    WithoutOrdered(s.tasks, rest, o);
    OrderedFrame(s.tasks, tasks, Without(rest, o));
    Repositioned(find, tasks, rest, o);
  }

  /** The state in which `t` has joined the waiters of `m`, owned by `o`, and stopped running. */
  function Suspended(find: Search, s: State, t: nat, m: nat, o: nat): State {
    var r := Enqueue(find, s, t, m, o);
    if s.current == Some(t) then r.(current := None) else r
  }

  /** A runnable task that becomes a waiter of `m` only changes its own place. */
  ghost predicate Moved(s: State, r: State, t: nat, m: nat) {
    && (forall n :: Owner(r, n) == Owner(s, n))
    && (forall x :: Runnable(r, x) <==> Runnable(s, x) && x != t)
    && (forall n, x :: x in Waiters(r, n) <==> x in Waiters(s, n) || (n == m && x == t))
  }

  lemma SuspendedMoves(find: Search, s: State, t: nat, m: nat, o: nat)
    requires FindsSlot(find) && Conserved(s) && Runnable(s, t) && Owner(s, m) == Some(o)
    ensures Moved(s, Suspended(find, s, t, m, o), t, m)
  {
    var r := Suspended(find, s, t, m, o);
    EnqueueLists(find, s, t, m, o);
    assert forall n :: Waiters(r, n) == Waiters(Enqueue(find, s, t, m, o), n);
  }

  lemma MovedPlaces(s: State, r: State, t: nat, m: nat)
    requires Moved(s, r, t, m) && Runnable(s, t)
    ensures forall x :: Placed(r, x) <==> Placed(s, x)
  {
    assert t in Waiters(r, m);
    forall x ensures Placed(r, x) <==> Placed(s, x) {
      if Blocked(s, x) { var n :| x in Waiters(s, n); assert x in Waiters(r, n); }
      if Blocked(r, x) { var n :| x in Waiters(r, n); assert x in Waiters(s, n) || x == t; }
    }
  }

  lemma SuspendedOnePlace(find: Search, s: State, t: nat, m: nat, o: nat)
    requires FindsSlot(find) && Conserved(s) && Runnable(s, t) && Owner(s, m) == Some(o)
    ensures var r := Suspended(find, s, t, m, o); OnePlace(r) && Ordered(r.tasks, r.ready)
  {
    var r := Suspended(find, s, t, m, o);
    SuspendedMoves(find, s, t, m, o);
    EnqueueLists(find, s, t, m, o);
    InsertKeepsDistinct(find, s.tasks, Waiters(s, m), t);
    assert forall n :: Waiters(r, n) == Waiters(Enqueue(find, s, t, m, o), n);
    assert forall n :: Distinct(Waiters(r, n));
    assert forall x :: Runnable(r, x) ==> Runnable(s, x);
    assert forall n, x :: x in Waiters(r, n) ==> x in s.tasks && !Runnable(r, x);
  }

  lemma SuspendedConserves(find: Search, s: State, t: nat, m: nat, o: nat)
    requires FindsSlot(find) && Conserved(s) && Runnable(s, t) && Owner(s, m) == Some(o)
    ensures var r := Suspended(find, s, t, m, o);
            && OnePlace(r) && Deeds(r) && HoldersPlaced(r) && Capped(r) && Ordered(r.tasks, r.ready)
            && (forall x :: Placed(r, x) <==> Placed(s, x))
  {
    var r := Suspended(find, s, t, m, o);
    SuspendedMoves(find, s, t, m, o);
    MovedPlaces(s, r, t, m);
    SuspendedOnePlace(find, s, t, m, o);
    assert forall x :: Owned(r.tasks, x) == Owned(s.tasks, x);
    assert forall n :: Waiters(r, n) != [] ==> Owner(r, n).Some? by {
      forall n | Waiters(r, n) != [] ensures Owner(s, n).Some? {
        var x := Waiters(r, n)[0];
        assert x in Waiters(r, n);
      }
    }
  }

  lemma LockConserves(find: Search, s: State, t: nat, m: nat)
    requires FindsSlot(find) && Conserved(s) && Runnable(s, t)
    ensures Conserved(Lock(find, s, t, m))
    ensures forall x :: Placed(Lock(find, s, t, m), x) <==> Placed(s, x)
  {
    match Owner(s, m)
    case None => AcquireConserves(s, t, m);
    case Some(o) =>
      var s1 := Suspended(find, s, t, m, o);
      SuspendedConserves(find, s, t, m, o);
      if s.current == Some(t) {
        RunNextKeeps(s1);
        SameMutexes(s1, RunNext(s1));
      }
  }

  /** Deeds and places depend on the mutex table and on who is runnable only. */
  lemma SameMutexes(s: State, r: State)
    requires r.mutexes == s.mutexes && r.tasks == s.tasks
    requires forall t :: Runnable(r, t) <==> Runnable(s, t)
    ensures forall t :: Placed(r, t) <==> Placed(s, t)
    ensures Deeds(s) ==> Deeds(r)
    ensures HoldersPlaced(s) ==> HoldersPlaced(r)
    ensures Capped(s) ==> Capped(r)
  {
    assert forall m :: Waiters(r, m) == Waiters(s, m);
    assert forall m :: Owner(r, m) == Owner(s, m);
    assert forall t :: Owned(r.tasks, t) == Owned(s.tasks, t);
    assert forall t :: Blocked(r, t) <==> Blocked(s, t);
  }

  /** How the tables change when `m` leaves the hands of its owner. */
  ghost predicate Transferred(s: State, r: State, m: nat) {
    var ws := Waiters(s, m);
    && r.tasks.Keys == s.tasks.Keys
    && (forall x :: Prio(r.tasks, x) == Prio(s.tasks, x) && Base(r.tasks, x) == Base(s.tasks, x))
    && (forall x :: Owned(r.tasks, x) ==
                    if ws != [] && x == ws[0] then Owned(s.tasks, x) + {m} else Owned(s.tasks, x))
    && (forall n :: Owner(r, n) ==
                    if n != m then Owner(s, n) else if ws == [] then None else Some(ws[0]))
    && (forall n :: Waiters(r, n) == if n == m && ws != [] then ws[1..] else Waiters(s, n))
    && (forall x :: Runnable(r, x) <==> Runnable(s, x) || (ws != [] && x == ws[0]))
  }

  lemma TransferredPlaces(s: State, r: State, m: nat)
    requires Transferred(s, r, m)
    ensures forall x :: Placed(r, x) <==> Placed(s, x)
  {
  }

  lemma SucceedKeeps(s: State, m: nat)
    requires OnePlace(s) && Waiters(s, m) != []
    ensures OnePlace(Succeed(s, m)) && !Blocked(Succeed(s, m), Waiters(s, m)[0])
  {
    var r, ws := Succeed(s, m), Waiters(s, m);
    assert ws == [ws[0]] + ws[1..] && ws[0] in Waiters(s, m);
    assert forall n :: Waiters(r, n) == if n == m then ws[1..] else Waiters(s, n);
    assert forall n, x :: x in Waiters(r, n) ==> x in Waiters(s, n) && x != ws[0];
    assert forall x :: Runnable(r, x) <==> Runnable(s, x);
  }

  lemma SucceedTransfers(s: State, r: State, m: nat)
    requires Waiters(s, m) != [] && Waiters(s, m)[0] in s.tasks
    requires r.tasks == Succeed(s, m).tasks && r.mutexes == Succeed(s, m).mutexes
    requires forall x :: Runnable(r, x) <==> Runnable(s, x) || x == Waiters(s, m)[0]
    ensures Transferred(s, r, m)
  {
  }

  /** The first waiter takes `m` over and is made ready. */
  lemma HandOverKeeps(find: Search, s: State, m: nat)
    requires FindsSlot(find) && Conserved(s) && Owner(s, m).Some?
    ensures var r := HandOver(find, s, m);
            OnePlace(r) && Ordered(r.tasks, r.ready) && Working(r) && Transferred(s, r, m)
  {
    var r, ws := HandOver(find, s, m), Waiters(s, m);
    if ws != [] {
      var s1 := Succeed(s, m);
      SucceedKeeps(s, m);
      assert ws[0] in Waiters(s, m);
      assert forall x :: Prio(s1.tasks, x) == Prio(s.tasks, x);
      OrderedFrame(s.tasks, s1.tasks, s.ready);
      MakeReadyKeeps(find, s1, ws[0]);
      SucceedTransfers(s, r, m);
    } else {
      assert forall n :: Waiters(r, n) == Waiters(s, n);
      assert forall x :: Runnable(r, x) <==> Runnable(s, x);
    }
  }

  /** Giving up `m` touches nothing but the record and the priority of `t`. */
  lemma {:induction false} DemoteKeeps(s: State, r: State, t: nat, m: nat)
    requires Conserved(s) && Runnable(s, t) && Owner(s, m) == Some(t)
    requires OnePlace(r) && Ordered(r.tasks, r.ready) && Working(r) && Transferred(s, r, m)
    ensures var d := Demote(r, t, m);
            && d == r.(tasks := d.tasks) && d.tasks.Keys == r.tasks.Keys
            && OnePlace(d) && Deeds(d) && Capped(d) && HoldersPlaced(d)
            && (forall x :: x != t ==> Prio(d.tasks, x) == Prio(r.tasks, x))
            && Ordered(d.tasks, Without(d.ready, t))
            && (forall x :: Placed(d, x) <==> Placed(s, x))
  {
    var d := Demote(r, t, m);
    TransferredPlaces(s, r, m);
    assert forall n :: Waiters(d, n) == Waiters(r, n) && Owner(d, n) == Owner(r, n);
    assert forall x :: Runnable(d, x) <==> Runnable(r, x);
    assert forall x :: Blocked(d, x) <==> Blocked(r, x);
    WithoutOrdered(r.tasks, r.ready, t);
    OrderedFrame(r.tasks, d.tasks, Without(r.ready, t));
    DemoteDeeds(s, r, t, m);
    assert forall x :: x in d.tasks && x != t ==>
      Prio(s.tasks, x) == d.tasks[x].prio && Base(s.tasks, x) == d.tasks[x].base by {
      forall x | x in d.tasks && x != t
        ensures Prio(s.tasks, x) == d.tasks[x].prio && Base(s.tasks, x) == d.tasks[x].base
      {
        assert Prio(r.tasks, x) == d.tasks[x].prio && Base(r.tasks, x) == d.tasks[x].base;
      }
    }
  }

  lemma DemoteDeeds(s: State, r: State, t: nat, m: nat)
    requires OnePlace(s) && Deeds(s) && Runnable(s, t) && Owner(s, m) == Some(t)
    requires Transferred(s, r, m)
    ensures Deeds(Demote(r, t, m))
  {
    var d, ws := Demote(r, t, m), Waiters(s, m);
    assert forall n :: Waiters(d, n) == Waiters(r, n) && Owner(d, n) == Owner(r, n);
    assert ws != [] ==> ws[0] in Waiters(s, m);
    assert forall x :: Owned(d.tasks, x) == if x == t then Owned(r.tasks, x) - {m} else Owned(r.tasks, x);
    assert forall n :: Owner(d, n).Some? ==> Owner(d, n).value in s.tasks;
    forall x, n ensures n in Owned(d.tasks, x) <==> x in d.tasks && Owner(d, n) == Some(x) {
      assert n in Owned(s.tasks, x) <==> x in s.tasks && Owner(s, n) == Some(x);
    }
  }

  lemma ResettleKeeps(find: Search, s: State, t: nat)
    requires FindsSlot(find) && OnePlace(s) && Working(s) && Runnable(s, t)
    requires Ordered(s.tasks, Without(s.ready, t))
    ensures var r := Resettle(find, s, t);
            && OnePlace(r) && Ordered(r.tasks, r.ready) && Working(r)
            && r.tasks == s.tasks && r.mutexes == s.mutexes
            && (forall x :: Runnable(r, x) <==> Runnable(s, x))
  {
    var r := Resettle(find, s, t);
    if t in s.ready {
      Repositioned(find, s.tasks, s.ready, t);
    } else {
      WithoutAbsent(s.ready, t);
      PreemptMoves(find, s);
    }
    SamePlaces(s, r);
  }

  lemma UnlockConserves(find: Search, s: State, t: nat, m: nat)
    requires FindsSlot(find) && Conserved(s)
    requires Owner(s, m) == Some(t) ==> Runnable(s, t)
    ensures Conserved(Unlock(find, s, t, m))
    ensures forall x :: Placed(Unlock(find, s, t, m), x) <==> Placed(s, x)
  {
    if Owner(s, m) == Some(t) {
      var s1 := HandOver(find, s, m);
      HandOverKeeps(find, s, m);
      var s2 := Demote(s1, t, m);
      DemoteKeeps(s, s1, t, m);
      ResettleKeeps(find, s2, t);
      SameMutexes(s2, Resettle(find, s2, t));
    }
  }
}
