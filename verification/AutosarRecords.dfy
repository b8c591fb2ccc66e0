/** What every call leaves in the tables, told from the tables before it. */
module AutosarRecords {
  import opened Numbers
  import opened Options
  import opened ReadyList
  import opened AutosarModel
  import opened AutosarConservation
  import opened AutosarInheritance

  // ----- registering and waking

  /** A new task starts at the priority of its period, owns nothing and changes nobody else. */
  lemma AddTaskRecords(s: State, id: nat, period: nat, cap: nat)
    ensures var r := AddTask(s, id, period, cap);
            && id in r.tasks && r.tasks[id].cap == cap
            && Base(r.tasks, id) == Prio(r.tasks, id) == period && Owned(r.tasks, id) == {}
            && r.tasks - {id} == s.tasks - {id}
            && r.ready == s.ready && r.current == s.current && r.mutexes == s.mutexes
  {
    var r := AddTask(s, id, period, cap);
    assert r.tasks - {id} == s.tasks - {id};
  }

  lemma {:induction false} WithoutAppends(a: seq<nat>, b: seq<nat>, x: nat)
    ensures Without(a + b, x) == Without(a, x) + Without(b, x)
    decreases a
  {
    if a == [] {
      assert a + b == b;
    } else {
      assert (a + b)[1..] == a[1..] + b && (a + b)[0] == a[0];
      WithoutAppends(a[1..], b, x);
    }
  }

  lemma {:induction false} InsertedOnce(list: seq<nat>, slot: nat, x: nat)
    requires x !in list && slot <= |list|
    ensures Without(InsertAt(list, slot, x), x) == list
  {
    InsertAtIs(list, slot, x);
    WithoutAppends(list[..slot] + [x], list[slot..], x);
    WithoutAppends(list[..slot], [x], x);
    WithoutAbsent(list[..slot], x);
    WithoutAbsent(list[slot..], x);
    assert Without([x], x) == [];
  }

  /** A task that is woken runs at once exactly if it is more urgent than the running task,
      or nobody runs; otherwise it is added to the list and nothing else happens. */
  lemma {:induction false} WakePreemptsExactlyWhen(find: Search, s: State, id: nat)
    requires FindsSlot(find) && Ordered(s.tasks, s.ready) && MostUrgent(s) && Working(s) && !Runnable(s, id)
    ensures var r := MakeReady(find, s, id);
            if s.current == None || Prio(s.tasks, id) < Prio(s.tasks, s.current.value)
            then r.current == Some(id)
            else r.current == s.current && Without(r.ready, id) == s.ready && id in r.ready
  {
    var list := InsertByPrio(find, s.tasks, s.ready, id);
    InsertedOnce(s.ready, find(Prios(s.tasks, s.ready), Prio(s.tasks, id)), id);
    if s.current == None {
      assert list == [id];
    } else if Prio(s.tasks, id) < Prio(s.tasks, s.current.value) {
      WokenLeads(find, s, id, s.current.value);
    }
  }

  lemma StrictlyLeastLeads(tasks: TaskTable, list: seq<nat>, id: nat)
    requires Ordered(tasks, list) && id in list
    requires forall x :: x in list ==> x == id || Prio(tasks, id) < Prio(tasks, x)
    ensures list[0] == id
  {
    HeadUrgent(tasks, list);
    assert list[0] in list;
  }

  /** Of a list that is no more urgent than the running task, the newcomer is the head. */
  lemma {:induction false} WokenLeads(find: Search, s: State, id: nat, c: nat)
    requires FindsSlot(find) && Ordered(s.tasks, s.ready) && MostUrgent(s) && s.current == Some(c)
    requires Prio(s.tasks, id) < Prio(s.tasks, c) && !Runnable(s, id)
    ensures MakeReady(find, s, id).current == Some(id)
  {
    var list := InsertByPrio(find, s.tasks, s.ready, id);
    var all := InsertByPrio(find, s.tasks, list, c);
    InsertOrdered(find, s.tasks, s.ready, id);
    InsertOrdered(find, s.tasks, list, c);
    StrictlyLeastLeads(s.tasks, all, id);
    assert MakeReady(find, s, id) == RunNext(s.(current := None, ready := all));
  }

  lemma WakeAgain(find: Search, s: State, id: nat)
    requires Runnable(s, id)
    ensures MakeReady(find, s, id) == s
  {
  }

  // ----- locking

  /** A free mutex is recorded as taken, by the task and for the task, and nothing else changes. */
  lemma LockFree(find: Search, s: State, t: nat, m: nat)
    requires Conserved(s) && Runnable(s, t) && Owner(s, m) == None
    ensures var r := Lock(find, s, t, m);
            && Owner(r, m) == Some(t) && (forall n :: n != m ==> Owner(r, n) == Owner(s, n))
            && Owned(r.tasks, t) == Owned(s.tasks, t) + {m}
            && (forall x :: x != t ==> Owned(r.tasks, x) == Owned(s.tasks, x))
            && (forall n :: Waiters(r, n) == Waiters(s, n))
            && (forall x :: Prio(r.tasks, x) == Prio(s.tasks, x) && Base(r.tasks, x) == Base(s.tasks, x))
            && r.tasks.Keys == s.tasks.Keys && r.ready == s.ready && r.current == s.current
  {
  }

  /** A held mutex: the caller joins the waiters and stops being runnable, the owner gets its
      priority if that is more urgent, and no other record changes. */
  lemma LockHeld(find: Search, s: State, t: nat, m: nat, o: nat)
    requires FindsSlot(find) && Conserved(s) && Runnable(s, t) && Owner(s, m) == Some(o)
    ensures var r := Lock(find, s, t, m);
            && (forall n :: Owner(r, n) == Owner(s, n))
            && (forall x :: Owned(r.tasks, x) == Owned(s.tasks, x) && Base(r.tasks, x) == Base(s.tasks, x))
            && (forall x :: x != o ==> Prio(r.tasks, x) == Prio(s.tasks, x))
            && Prio(r.tasks, o) == Min(Prio(s.tasks, o), Prio(s.tasks, t))
            && (forall n :: n != m ==> Waiters(r, n) == Waiters(s, n))
            && t in Waiters(r, m) && Without(Waiters(r, m), t) == Waiters(s, m)
            && (forall x :: Runnable(r, x) <==> Runnable(s, x) && x != t)
            && (s.current != Some(t) ==> r.current == s.current)
  {
    var r := Lock(find, s, t, m);
    LockMoves(find, s, t, m, o);
    LockJoins(find, s, t, m, o);
    JoinedRecords(s, r, t, m, o);
    RunnableNotBlocked(s, t);
    LockQueues(find, s, t, m, o);
  }

  lemma JoinedRecords(s: State, r: State, t: nat, m: nat, o: nat)
    requires Joined(s, r, t, m, o) && o in s.tasks
    ensures forall x :: Owned(r.tasks, x) == Owned(s.tasks, x) && Base(r.tasks, x) == Base(s.tasks, x)
    ensures forall x :: x != o ==> Prio(r.tasks, x) == Prio(s.tasks, x)
    ensures Prio(r.tasks, o) == Min(Prio(s.tasks, o), Prio(s.tasks, t))
  {
  }

  lemma {:induction false} LockQueues(find: Search, s: State, t: nat, m: nat, o: nat)
    requires FindsSlot(find) && Owner(s, m) == Some(o) && t !in Waiters(s, m)
    ensures var r := Lock(find, s, t, m); t in Waiters(r, m) && Without(Waiters(r, m), t) == Waiters(s, m)
  {
    var slot := find(Prios(s.tasks, Waiters(s, m)), Prio(s.tasks, t));
    InsertedOnce(Waiters(s, m), slot, t);
    assert Waiters(Lock(find, s, t, m), m) == InsertAt(Waiters(s, m), slot, t);
  }

  // ----- unlocking

  lemma UnlockByOthers(find: Search, s: State, t: nat, m: nat)
    requires Owner(s, m) != Some(t)
    ensures Unlock(find, s, t, m) == s
  {
  }

  /** The heads of the lists of what `t` keeps are the same before and after the hand-over. */
  lemma SameHeads(s: State, h: State, t: nat, m: nat)
    requires Transferred(s, h, m) && t in h.tasks
    requires Waiters(s, m) != [] ==> t != Waiters(s, m)[0]
    ensures HeadPrios(Dropped(h, t, m), Owned(Dropped(h, t, m).tasks, t)) ==
            HeadPrios(s, Owned(s.tasks, t) - {m})
  {
    var s1, ms := Dropped(h, t, m), Owned(s.tasks, t) - {m};
    assert Owned(s1.tasks, t) == ms;
    assert forall n :: n in ms ==> Waiters(s1, n) == Waiters(s, n);
    assert forall x :: Prio(s1.tasks, x) == Prio(s.tasks, x);
    assert HeadPrios(s1, ms) == HeadPrios(s, ms);
  }

  /** Giving a mutex up: it goes to its first waiter, which becomes runnable, or becomes free;
      the former owner gets the least of its base priority and those of the first waiters for
      what it still owns; and no other record changes. */
  lemma UnlockOwned(find: Search, s: State, t: nat, m: nat)
    requires FindsSlot(find) && Conserved(s) && Runnable(s, t) && Owner(s, m) == Some(t)
    ensures var r, ws := Unlock(find, s, t, m), Waiters(s, m);
            && Owner(r, m) == (if ws == [] then None else Some(ws[0]))
            && (forall n :: n != m ==> Owner(r, n) == Owner(s, n) && Waiters(r, n) == Waiters(s, n))
            && Waiters(r, m) == (if ws == [] then [] else ws[1..])
            && Owned(r.tasks, t) == Owned(s.tasks, t) - {m}
            && (forall x :: x != t ==>
                  Owned(r.tasks, x) == if ws != [] && x == ws[0] then Owned(s.tasks, x) + {m} else Owned(s.tasks, x))
            && (forall x :: Base(r.tasks, x) == Base(s.tasks, x))
            && (forall x :: x != t ==> Prio(r.tasks, x) == Prio(s.tasks, x))
            && Prio(r.tasks, t) == LeastOf(Base(s.tasks, t), HeadPrios(s, Owned(s.tasks, t) - {m}))
            && (forall x :: Runnable(r, x) <==> Runnable(s, x) || (ws != [] && x == ws[0]))
  {
    var h := HandOver(find, s, m);
    var d := Demote(h, t, m);
    HandOverKeeps(find, s, m);
    DemoteKeeps(s, h, t, m);
    ResettleKeeps(find, d, t);
    RunnableNotBlocked(s, t);
    assert Waiters(s, m) != [] ==> Waiters(s, m)[0] in Waiters(s, m);
    assert t !in Waiters(s, m);
    SameHeads(s, h, t, m);
    DemoteIs(h, t, m);
    DemoteReleases(s, h, t, m);
    UnlockTables(s, h, d, Unlock(find, s, t, m), t, m);
  }

  lemma UnlockTables(s: State, h: State, d: State, r: State, t: nat, m: nat)
    requires Transferred(s, h, m) && Released(s, d, t, m) && d == h.(tasks := d.tasks)
    requires r.tasks == d.tasks && r.mutexes == d.mutexes && forall x :: Runnable(r, x) <==> Runnable(d, x)
    requires Owner(s, m) == Some(t)
    ensures var ws := Waiters(s, m);
            && Owner(r, m) == (if ws == [] then None else Some(ws[0]))
            && (forall n :: n != m ==> Owner(r, n) == Owner(s, n) && Waiters(r, n) == Waiters(s, n))
            && Waiters(r, m) == (if ws == [] then [] else ws[1..])
            && Owned(r.tasks, t) == Owned(s.tasks, t) - {m}
            && (forall x :: x != t ==>
                  Owned(r.tasks, x) == if ws != [] && x == ws[0] then Owned(s.tasks, x) + {m} else Owned(s.tasks, x))
            && (forall x :: Base(r.tasks, x) == Base(s.tasks, x))
            && (forall x :: x != t ==> Prio(r.tasks, x) == Prio(s.tasks, x))
            && (forall x :: Runnable(r, x) <==> Runnable(s, x) || (ws != [] && x == ws[0]))
  {
    assert forall n :: Owner(r, n) == Owner(h, n) && Waiters(r, n) == Waiters(h, n);
    assert forall x :: Runnable(d, x) <==> Runnable(h, x);
  }

  // ----- switching

  /** A preempted task gives way to one that is at least as urgent as the former head. */
  lemma {:induction false} PreemptYields(find: Search, s: State, c: nat)
    requires FindsSlot(find) && Ordered(s.tasks, s.ready) && s.current == Some(c) && s.ready != []
    ensures var r := Preempt(find, s);
            r.current.Some? && Prio(r.tasks, r.current.value) <= Prio(s.tasks, s.ready[0]) && r.tasks == s.tasks
  {
    var all := InsertByPrio(find, s.tasks, s.ready, c);
    InsertOrdered(find, s.tasks, s.ready, c);
    HeadUrgent(s.tasks, all);
    assert s.ready[0] in all;
  }

  /** The hand-over replaces the running task only by a more urgent one. */
  lemma HandOverSwitches(find: Search, s: State, m: nat, c: nat)
    requires FindsSlot(find) && Ordered(s.tasks, s.ready) && MostUrgent(s) && s.current == Some(c)
    requires Waiters(s, m) != [] ==> !Runnable(s, Waiters(s, m)[0])
    ensures var h := HandOver(find, s, m);
            h.current == Some(c) ||
            (Waiters(s, m) != [] && h.current == Some(Waiters(s, m)[0])
             && Prio(s.tasks, Waiters(s, m)[0]) < Prio(s.tasks, c))
  {
    if Waiters(s, m) != [] {
      var s1, next := Succeed(s, m), Waiters(s, m)[0];
      assert forall x :: Prio(s1.tasks, x) == Prio(s.tasks, x);
      OrderedFrame(s.tasks, s1.tasks, s.ready);
      assert !Runnable(s1, next);
      WakePreemptsExactlyWhen(find, s1, next);
    }
  }

  /** An unlock takes the processor away only in favour of a more urgent task. */
  lemma {:induction false} UnlockSwitches(find: Search, s: State, t: nat, m: nat)
    requires FindsSlot(find) && Chained(s) && Runnable(s, t) && Owner(s, m) == Some(t)
    ensures var r := Unlock(find, s, t, m);
            s.current.Some? && r.current.Some?
            && (r.current == s.current ||
                Prio(r.tasks, r.current.value) < Prio(r.tasks, s.current.value))
  {
    var c := s.current.value;
    var h := HandOver(find, s, m);
    var d := Demote(h, t, m);
    assert Waiters(s, m) != [] ==> Waiters(s, m)[0] in Waiters(s, m);
    HandOverKeeps(find, s, m);
    DemoteKeeps(s, h, t, m);
    OwnerIs(s, m, t);
    RunnableNotBlocked(s, t);
    assert forall n :: t !in Waiters(s, n);
    UnlockExact(s, h, t, m);
    HandOverSwitches(find, s, m, c);
    SettleSwitches(find, s, h, d, t, c);
  }

  lemma SettleSwitches(find: Search, s: State, h: State, d: State, t: nat, c: nat)
    requires FindsSlot(find) && d == h.(tasks := d.tasks) && Ordered(d.tasks, Without(d.ready, t))
    requires Distinct(d.ready) && (d.current.Some? ==> d.current.value !in d.ready)
    requires forall x :: x != t ==> Prio(d.tasks, x) == Prio(s.tasks, x)
    requires Prio(s.tasks, t) <= Prio(d.tasks, t)
    requires h.current == Some(c) ||
             (h.current.Some? && h.current.value != t && Prio(s.tasks, h.current.value) < Prio(s.tasks, c))
    ensures var r := Resettle(find, d, t);
            r.current.Some? && r.tasks == d.tasks
            && (r.current == Some(c) || Prio(r.tasks, r.current.value) < Prio(r.tasks, c))
  {
    if t in d.ready {
      SettleInList(find, d, t);
    } else {
      WithoutAbsent(d.ready, t);
      SettleRunning(find, d, t);
    }
  }

  lemma SettleInList(find: Search, d: State, t: nat)
    requires t in d.ready
    ensures Resettle(find, d, t).current == d.current && Resettle(find, d, t).tasks == d.tasks
  {
  }

  /** A demoted running task stays unless the head of the list is more urgent. */
  lemma SettleRunning(find: Search, d: State, t: nat)
    requires FindsSlot(find) && t !in d.ready && Ordered(d.tasks, d.ready)
    ensures var r := Resettle(find, d, t);
            && r.tasks == d.tasks
            && (r.current == d.current ||
                (d.current == Some(t) && r.current.Some? && Prio(r.tasks, r.current.value) < Prio(d.tasks, t)))
  {
    if d.current == Some(t) && d.ready != [] { PreemptYields(find, d, t); }
  }
}
