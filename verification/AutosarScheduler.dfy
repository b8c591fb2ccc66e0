/** The AUTOSAR-style scheduler as an object that updates its tables in place. */
module AutosarScheduler {
  import opened Numbers
  import opened Options
  import opened ReadyList
  import opened AutosarModel
  import opened AutosarConservation
  import opened AutosarInheritance
  import opened AutosarRecords
  import opened AutosarRuns

  class Scheduler {
    const find: Search
    var tasks: TaskTable
    var ready: seq<nat>
    var current: Option<nat>
    var mutexes: map<nat, Mutex>

    ghost function View(): State
      reads this
    {
      State(tasks, ready, current, mutexes)
    }

    ghost predicate Valid()
      reads this
    {
      FindsSlot(find) && Conserved(View())
    }

    constructor (find: Search)
      requires FindsSlot(find)
      ensures this.find == find && View() == Initial && Valid() && Inheriting(View())
    {
      this.find := find;
      tasks, ready, current, mutexes := map[], [], None, map[];
      new;
      InitialInherits();
    }

    method AddTask(id: nat, period: nat, cap: nat)
      requires Valid() && !Placed(View(), id)
      modifies this`tasks
      ensures Valid() && View() == AutosarModel.AddTask(old(View()), id, period, cap)
      ensures old(Chained(View())) ==> Chained(View())
      ensures old(Inheriting(View())) ==> Inheriting(View())
    {
      AddTaskConserves(View(), id, period, cap);
      if Chained(View()) { AddTaskChains(View(), id, period, cap); }
      tasks := tasks[id := Task(period, period, cap, {})];
    }

    /** The keys a list is searched by. */
    method PriosOf(list: seq<nat>) returns (keys: seq<nat>)
      requires forall t :: t in list ==> t in tasks
      ensures keys == Prios(tasks, list)
    {
      keys := seq(|list|, i requires 0 <= i < |list| && list[i] in tasks reads this => tasks[list[i]].prio);
    }

    method InsertReadySorted(id: nat)
      requires id in tasks && forall t :: t in ready ==> t in tasks
      modifies this`ready
      ensures View() == old(View()).(ready := InsertByPrio(find, old(tasks), old(ready), id))
    {
      var prio := tasks[id].prio;
      var keys := PriosOf(ready);
      ready := InsertAt(ready, find(keys, prio), id);
    }

    method RunNext()
      modifies this`ready, this`current
      ensures View() == AutosarModel.RunNext(old(View()))
    {
      if ready != [] {
        var next := ready[0];
        ready := ready[1..];
        current := Some(next);
      }
    }

    method Preempt()
      requires forall t :: Runnable(View(), t) ==> t in tasks
      modifies this`ready, this`current
      ensures View() == AutosarModel.Preempt(find, old(View()))
    {
      if current.Some? {
        var c := current.value;
        assert Runnable(View(), c) && forall t :: t in ready ==> Runnable(View(), t);
        current := None;
        InsertReadySorted(c);
      }
      RunNext();
    }

    /** The body of `make_ready`, also used while an unlock is in progress. */
    method Wake(id: nat)
      requires id in tasks && forall t :: Runnable(View(), t) ==> t in tasks
      modifies this`ready, this`current
      ensures View() == AutosarModel.MakeReady(find, old(View()), id)
    {
      if current == Some(id) || id in ready {
        return;
      }
      assert forall t :: t in ready ==> Runnable(View(), t);
      assert current.Some? ==> Runnable(View(), current.value);
      InsertReadySorted(id);
      if current.Some? {
        if tasks[id].prio < tasks[current.value].prio {
          Preempt();
        }
      } else {
        RunNext();
      }
    }

    method MakeReady(id: nat)
      requires Valid() && id in tasks && !Blocked(View(), id)
      modifies this`ready, this`current
      ensures Valid() && View() == AutosarModel.MakeReady(find, old(View()), id)
      ensures old(Chained(View())) ==> Chained(View())
      ensures old(Inheriting(View())) ==> Inheriting(View())
    {
      MakeReadyConserves(find, View(), id);
      if Chained(View()) { MakeReadyChains(find, View(), id); }
      Wake(id);
    }

    method LockMutex(task: nat, mutex: nat)
      requires Valid() && Runnable(View(), task)
      modifies this`tasks, this`ready, this`current, this`mutexes
      ensures Valid() && View() == Lock(find, old(View()), task, mutex)
      ensures old(Owner(View(), mutex)) == None ==>
                Owner(View(), mutex) == Some(task) && Owned(tasks, task) == old(Owned(tasks, task)) + {mutex}
      ensures old(Owner(View(), mutex)).Some? ==>
                Owner(View(), mutex) == old(Owner(View(), mutex)) && task in Waiters(View(), mutex)
      ensures old(Chained(View())) ==> (Chained(View()) <==> old(Harmless(View(), task, mutex)))
      ensures old(Inheriting(View()) && Patient(View(), Locks(task, mutex))) ==> Inheriting(View())
    {
      LockKeeps(find, View(), task, mutex);
      var m := if mutex in mutexes then mutexes[mutex] else Mutex(None, []);
      if m.owner.None? {
        mutexes := mutexes[mutex := m.(owner := Some(task))];
        tasks := tasks[task := tasks[task].(owned := tasks[task].owned + {mutex})];
      } else {
        LockLookups(View(), mutex, m.owner.value);
        Join(task, mutex, m.owner.value);
        if current == Some(task) {
          current := None;
          RunNext();
        }
      }
    }

    /** The blocking branch of `lock_mutex`: wait, and lend the priority to the owner. */
    method Join(task: nat, mutex: nat, owner: nat)
      requires task in tasks && owner in tasks && Owner(View(), mutex) == Some(owner)
      requires forall t :: t in ready || t in Waiters(View(), mutex) ==> t in tasks
      modifies this`tasks, this`ready, this`mutexes
      ensures View() == Enqueue(find, old(View()), task, mutex, owner)
    {
      var m := mutexes[mutex];
      ready := Without(ready, task);
      var prio := tasks[task].prio;
      var keys := PriosOf(m.waiters);
      mutexes := mutexes[mutex := m.(waiters := InsertAt(m.waiters, find(keys, prio), task))];
      tasks := tasks[owner := tasks[owner].(prio := Min(tasks[owner].prio, prio))];
      if owner in ready {
        ready := Without(ready, owner);
        InsertReadySorted(owner);
      }
    }

    /** The fold over the mutexes a task still owns. */
    method InheritedPrio(task: nat) returns (p: nat)
      requires task in tasks && forall m, w :: w in Waiters(View(), m) ==> w in tasks
      ensures p == LeastOf(tasks[task].base, HeadPrios(View(), tasks[task].owned))
    {
      p := tasks[task].base;
      var todo := tasks[task].owned;
      ghost var seen: set<nat> := {};
      while todo != {}
        invariant todo + seen == tasks[task].owned && todo !! seen
        invariant p == LeastOf(tasks[task].base, HeadPrios(View(), seen))
        decreases todo
      {
        var m :| m in todo;
        HeadPriosGrow(View(), seen, m, tasks[task].base);
        if m in mutexes && mutexes[m].waiters != [] {
          var waiter := mutexes[m].waiters[0];
          assert waiter in Waiters(View(), m);
          p := Min(p, tasks[waiter].prio);
        }
        todo, seen := todo - {m}, seen + {m};
      }
      assert seen == tasks[task].owned;
    }

    method UnlockMutex(task: nat, mutex: nat)
      requires Valid() && (Owner(View(), mutex) == Some(task) ==> Runnable(View(), task))
      modifies this`tasks, this`ready, this`current, this`mutexes
      ensures Valid() && View() == Unlock(find, old(View()), task, mutex)
      ensures old(Owner(View(), mutex)) == Some(task) ==> Owner(View(), mutex) != Some(task)
      ensures old(Owner(View(), mutex)) != Some(task) ==> View() == old(View())
      ensures old(Chained(View())) ==> Chained(View())
      ensures old(Inheriting(View())) ==> Inheriting(View())
    {
      UnlockKeeps(find, View(), task, mutex);
      if mutex in mutexes && mutexes[mutex].owner == Some(task) {
        HandOverKeeps(find, View(), mutex);
        PassOn(mutex);
        GiveUp(task, mutex);
        Settle(task);
      }
    }

    /** The first part of `unlock_mutex`: the first waiter gets the mutex. */
    method PassOn(mutex: nat)
      requires Valid() && Owner(View(), mutex).Some?
      modifies this`tasks, this`ready, this`current, this`mutexes
      ensures View() == HandOver(find, old(View()), mutex)
    {
      var m := mutexes[mutex];
      if m.waiters != [] {
        var next := m.waiters[0];
        assert next in Waiters(View(), mutex);
        mutexes := mutexes[mutex := Mutex(Some(next), m.waiters[1..])];
        tasks := tasks[next := tasks[next].(owned := tasks[next].owned + {mutex})];
        Wake(next);
      } else {
        mutexes := mutexes[mutex := m.(owner := None)];
      }
    }

    /** The second part: the former owner drops the mutex and what it inherited from it. */
    method GiveUp(task: nat, mutex: nat)
      requires task in tasks && forall m, w :: w in Waiters(View(), m) ==> w in tasks
      modifies this`tasks
      ensures View() == Demote(old(View()), task, mutex) && tasks.Keys == old(tasks.Keys)
    {
      tasks := tasks[task := tasks[task].(owned := tasks[task].owned - {mutex})];
      assert forall m :: Waiters(View(), m) == old(Waiters(View(), m));
      var newPrio := InheritedPrio(task);
      tasks := tasks[task := tasks[task].(prio := newPrio)];
    }

    /** The last part: reorder or give way. */
    method Settle(task: nat)
      requires task in tasks && forall t :: Runnable(View(), t) ==> t in tasks
      modifies this`ready, this`current
      ensures View() == Resettle(find, old(View()), task)
    {
      assert forall t :: t in ready ==> Runnable(View(), t);
      if task in ready {
        ready := Without(ready, task);
        InsertReadySorted(task);
      } else if current == Some(task) {
        if ready != [] && tasks[ready[0]].prio < tasks[task].prio {
          Preempt();
        }
      }
    }
  }

  lemma LockKeeps(find: Search, s: State, t: nat, m: nat)
    requires FindsSlot(find) && Conserved(s) && Runnable(s, t)
    ensures Conserved(Lock(find, s, t, m))
    ensures Chained(s) ==> (Chained(Lock(find, s, t, m)) <==> Harmless(s, t, m))
    ensures Inheriting(s) && Patient(s, Locks(t, m)) ==> Inheriting(Lock(find, s, t, m))
    ensures var r := Lock(find, s, t, m);
            match Owner(s, m)
            case None => Owner(r, m) == Some(t) && Owned(r.tasks, t) == Owned(s.tasks, t) + {m}
            case Some(o) => Owner(r, m) == Some(o) && t in Waiters(r, m)
  {
    match Owner(s, m) {
      case None => LockFree(find, s, t, m);
      case Some(o) => LockHeld(find, s, t, m, o);
    }
    LockConserves(find, s, t, m);
    if Chained(s) { LockChainsExactlyWhen(find, s, t, m); }
    if Inheriting(s) && Patient(s, Locks(t, m)) { LockInherits(find, s, t, m); }
  }

  lemma UnlockKeeps(find: Search, s: State, t: nat, m: nat)
    requires FindsSlot(find) && Conserved(s) && (Owner(s, m) == Some(t) ==> Runnable(s, t))
    ensures Conserved(Unlock(find, s, t, m))
    ensures Chained(s) ==> Chained(Unlock(find, s, t, m))
    ensures Inheriting(s) ==> Inheriting(Unlock(find, s, t, m))
    ensures Owner(s, m) == Some(t) ==> Owner(Unlock(find, s, t, m), m) != Some(t)
    ensures Owner(s, m) != Some(t) ==> Unlock(find, s, t, m) == s
  {
    if Owner(s, m) == Some(t) {
      UnlockOwned(find, s, t, m);
      RunnableNotBlocked(s, t);
      assert Waiters(s, m) != [] ==> Waiters(s, m)[0] in Waiters(s, m);
    }
    UnlockConserves(find, s, t, m);
    if Chained(s) { UnlockChains(find, s, t, m); }
  }

  lemma LockLookups(s: State, m: nat, o: nat)
    requires Conserved(s) && Owner(s, m) == Some(o)
    ensures o in s.tasks && (forall t :: t in Waiters(s, m) ==> t in s.tasks)
    ensures forall t :: t in s.ready ==> t in s.tasks
  {
  }

  /** One more mutex lowers the least priority to at most that of its first waiter. */
  lemma HeadPriosGrow(s: State, ms: set<nat>, m: nat, bound: nat)
    ensures LeastOf(bound, HeadPrios(s, ms + {m})) ==
            if Waiters(s, m) == [] then LeastOf(bound, HeadPrios(s, ms))
            else Min(LeastOf(bound, HeadPrios(s, ms)), Prio(s.tasks, Waiters(s, m)[0]))
  {
    if Waiters(s, m) == [] {
      assert HeadPrios(s, ms + {m}) == HeadPrios(s, ms);
    } else {
      var p := Prio(s.tasks, Waiters(s, m)[0]);
      assert m in ms + {m};
      assert HeadPrios(s, ms + {m}) == HeadPrios(s, ms) + {p};
    }
  }
}
