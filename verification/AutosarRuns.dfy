/** Safety of the AUTOSAR-style scheduler over whole runs. */
module AutosarRuns {
  import opened Options
  import opened ReadyList
  import opened AutosarModel
  import opened AutosarConservation
  import opened AutosarChains
  import opened AutosarInheritance
  import opened AutosarUrgency
  import opened AutosarRecords

  datatype Call =
    | Adds(id: nat, period: nat, cap: nat)
    | Wakes(id: nat)
    | Locks(task: nat, mutex: nat)
    | Unlocks(task: nat, mutex: nat)

  ghost function After(find: Search, s: State, c: Call): State {
    match c
    case Adds(id, period, cap) => AddTask(s, id, period, cap)
    case Wakes(id) => MakeReady(find, s, id)
    case Locks(t, m) => Lock(find, s, t, m)
    case Unlocks(t, m) => Unlock(find, s, t, m)
  }

  /** The calling rules: ids in use are not registered again, only registered tasks
      that are not blocked are released, and blocked tasks do not call. */
  ghost predicate Permitted(s: State, c: Call) {
    match c
    case Adds(id, _, _) => !Placed(s, id)
    case Wakes(id) => id in s.tasks && !Blocked(s, id)
    case Locks(t, _) => Runnable(s, t)
    case Unlocks(t, m) => Owner(s, m) == Some(t) ==> Runnable(s, t)
  }

  /** No hold and wait: a task that owns a mutex asks for free mutexes only. */
  predicate Patient(s: State, c: Call) {
    c.Locks? ==> Owner(s, c.mutex) == None || Owned(s.tasks, c.task) == {}
  }

  /** A task asks for mutexes that are free or owned by another runnable task. */
  predicate Direct(s: State, c: Call) {
    c.Locks? ==>
      match Owner(s, c.mutex)
      case None => true
      case Some(o) => o != c.task && Runnable(s, o)
  }

  /** No lock closes a cycle of waits or asks for a boost that would have to be passed on. */
  ghost predicate Safe(s: State, c: Call) { c.Locks? ==> Harmless(s, c.task, c.mutex) }

  /** No lock asks for a mutex whose owner waits, directly or not, for the caller. */
  ghost predicate Acyclic(s: State, c: Call) {
    c.Locks? && Owner(s, c.mutex).Some? ==> EndsElsewhere(s, Owner(s, c.mutex).value, c.task)
  }

  ghost function Run(find: Search, s: State, calls: seq<Call>): State
    decreases calls
  {
    if calls == [] then s else Run(find, After(find, s, calls[0]), calls[1..])
  }

  ghost predicate Legal(find: Search, s: State, calls: seq<Call>)
    decreases calls
  {
    calls == [] || (Permitted(s, calls[0]) && Legal(find, After(find, s, calls[0]), calls[1..]))
  }

  ghost predicate AllPatient(find: Search, s: State, calls: seq<Call>)
    decreases calls
  {
    calls == [] || (Patient(s, calls[0]) && AllPatient(find, After(find, s, calls[0]), calls[1..]))
  }

  ghost predicate AllDirect(find: Search, s: State, calls: seq<Call>)
    decreases calls
  {
    calls == [] || (Direct(s, calls[0]) && AllDirect(find, After(find, s, calls[0]), calls[1..]))
  }

  ghost predicate AllSafe(find: Search, s: State, calls: seq<Call>)
    decreases calls
  {
    calls == [] || (Safe(s, calls[0]) && AllSafe(find, After(find, s, calls[0]), calls[1..]))
  }

  ghost predicate AllAcyclic(find: Search, s: State, calls: seq<Call>)
    decreases calls
  {
    calls == [] || (Acyclic(s, calls[0]) && AllAcyclic(find, After(find, s, calls[0]), calls[1..]))
  }

  predicate Woken(calls: seq<Call>, t: nat) { Wakes(t) in calls }

  // ----- every run conserves

  lemma CallConserves(find: Search, s: State, c: Call)
    requires FindsSlot(find) && Conserved(s) && Permitted(s, c)
    ensures Conserved(After(find, s, c))
    ensures forall t :: Placed(After(find, s, c), t) <==> Placed(s, t) || c == Wakes(t)
  {
    match c
    case Adds(id, period, cap) => AddTaskConserves(s, id, period, cap);
    case Wakes(id) => MakeReadyConserves(find, s, id);
    case Locks(t, m) => LockConserves(find, s, t, m);
    case Unlocks(t, m) => UnlockConserves(find, s, t, m);
  }

  /** Whatever the nesting of locks, no task is lost, duplicated or invented: those
      with a place are those that had one and those that were woken. */
  lemma {:induction false} RunConserves(find: Search, s: State, calls: seq<Call>)
    requires FindsSlot(find) && Conserved(s) && Legal(find, s, calls)
    ensures Conserved(Run(find, s, calls))
    ensures forall t :: Placed(Run(find, s, calls), t) <==> Placed(s, t) || Woken(calls, t)
    decreases calls
  {
    if calls != [] {
      CallConserves(find, s, calls[0]);
      RunConserves(find, After(find, s, calls[0]), calls[1..]);
      assert calls == [calls[0]] + calls[1..];
    }
  }

  // ----- ownership

  /** Who owns `m` after a call: a free mutex goes to whoever locks it, an unlock by the owner
      passes it to the first waiter or frees it, and nothing else moves it. */
  ghost function OwnerAfter(s: State, c: Call, m: nat): Option<nat> {
    if c.Locks? && c.mutex == m && Owner(s, m) == None then Some(c.task)
    else if c.Unlocks? && c.mutex == m && Owner(s, m) == Some(c.task)
    then if Waiters(s, m) == [] then None else Some(Waiters(s, m)[0])
    else Owner(s, m)
  }

  lemma OwnershipLaw(find: Search, s: State, c: Call, m: nat)
    requires FindsSlot(find) && Conserved(s) && Permitted(s, c)
    ensures Owner(After(find, s, c), m) == OwnerAfter(s, c, m)
  {
    match c
    case Adds(id, period, cap) => AddTaskRecords(s, id, period, cap);
    case Wakes(id) => MakeReadyKeeps(find, s, id);
    case Locks(t, n) =>
      if Owner(s, n) == None { LockFree(find, s, t, n); } else { LockHeld(find, s, t, n, Owner(s, n).value); }
    case Unlocks(t, n) =>
      if Owner(s, n) == Some(t) { UnlockOwned(find, s, t, n); } else { UnlockByOthers(find, s, t, n); }
  }

  /** Mutual exclusion: a task that owns a mutex stays its owner, whatever the others do,
      until it unlocks it. */
  lemma {:induction false} MutualExclusion(find: Search, s: State, calls: seq<Call>, t: nat, m: nat)
    requires FindsSlot(find) && Conserved(s) && Legal(find, s, calls)
    requires Owner(s, m) == Some(t) && Unlocks(t, m) !in calls
    ensures Owner(Run(find, s, calls), m) == Some(t)
    ensures forall x :: m in Owned(Run(find, s, calls).tasks, x) <==> x == t
    decreases calls
  {
    if calls == [] {
      SoleOwner(s, m, t);
    } else {
      assert calls[0] in calls;
      OwnershipLaw(find, s, calls[0], m);
      CallConserves(find, s, calls[0]);
      MutualExclusion(find, After(find, s, calls[0]), calls[1..], t, m);
    }
  }

  lemma InitialInherits()
    ensures Inheriting(Initial)
    ensures forall t :: !Placed(Initial, t)
  {
    assert forall m :: Waiters(Initial, m) == [] && Owner(Initial, m) == None;
    assert forall t :: !Runnable(Initial, t) && !Blocked(Initial, t) && Owned(Initial.tasks, t) == {};
    assert OnePlace(Initial) && Ordered(Initial.tasks, Initial.ready);
    assert Deeds(Initial) && HoldersPlaced(Initial) && Capped(Initial);
    assert HoldersRunnable(Initial) && WaitersOrdered(Initial);
  }

  // ----- every run of safe locks keeps the chains

  lemma CallChains(find: Search, s: State, c: Call)
    requires FindsSlot(find) && Chained(s) && Permitted(s, c) && Safe(s, c)
    ensures Chained(After(find, s, c))
  {
    match c
    case Adds(id, period, cap) => AddTaskChains(s, id, period, cap);
    case Wakes(id) => MakeReadyChains(find, s, id);
    case Locks(t, m) => LockChains(find, s, t, m);
    case Unlocks(t, m) => UnlockChains(find, s, t, m);
  }

  lemma {:induction false} RunChains(find: Search, s: State, calls: seq<Call>)
    requires FindsSlot(find) && Chained(s) && Legal(find, s, calls) && AllSafe(find, s, calls)
    ensures Chained(Run(find, s, calls))
    decreases calls
  {
    if calls != [] {
      CallChains(find, s, calls[0]);
      RunChains(find, After(find, s, calls[0]), calls[1..]);
    }
  }

  /** One unsafe lock is enough to break them. */
  lemma SafetyIsNecessary(find: Search, s: State, c: Call)
    requires FindsSlot(find) && Chained(s) && Permitted(s, c)
    ensures Chained(After(find, s, c)) <==> Safe(s, c)
  {
    if c.Locks? { LockChainsExactlyWhen(find, s, c.task, c.mutex); } else { CallChains(find, s, c); }
  }

  // ----- two rules that make locks safe

  /** Nested locks are safe as long as every owner asked for is runnable. */
  lemma {:induction false} DirectRunsAreSafe(find: Search, s: State, calls: seq<Call>)
    requires FindsSlot(find) && Conserved(s) && Legal(find, s, calls) && AllDirect(find, s, calls)
    ensures AllSafe(find, s, calls)
    decreases calls
  {
    if calls != [] {
      var c := calls[0];
      if c.Locks? { RunnableOwnerHarmless(s, c.task, c.mutex); }
      CallConserves(find, s, c);
      DirectRunsAreSafe(find, After(find, s, c), calls[1..]);
    }
  }

  lemma CallInherits(find: Search, s: State, c: Call)
    requires FindsSlot(find) && Inheriting(s) && Permitted(s, c) && Patient(s, c)
    ensures Inheriting(After(find, s, c))
  {
    match c
    case Adds(id, period, cap) => AddTaskChains(s, id, period, cap);
    case Wakes(id) => MakeReadyChains(find, s, id);
    case Locks(t, m) => LockInherits(find, s, t, m);
    case Unlocks(t, m) => UnlockChains(find, s, t, m);
  }

  /** Without hold and wait owners are always runnable, and every lock is safe. */
  lemma {:induction false} RunInherits(find: Search, s: State, calls: seq<Call>)
    requires FindsSlot(find) && Inheriting(s) && Legal(find, s, calls) && AllPatient(find, s, calls)
    ensures Inheriting(Run(find, s, calls)) && AllSafe(find, s, calls)
    decreases calls
  {
    if calls != [] {
      var c := calls[0];
      if c.Locks? { PatientHarmless(s, c.task, c.mutex); }
      CallInherits(find, s, c);
      RunInherits(find, After(find, s, c), calls[1..]);
    }
  }

  /** Owners stay runnable over a lock exactly when the caller is patient. */
  lemma PatienceIsNecessary(find: Search, s: State, t: nat, m: nat)
    requires FindsSlot(find) && Inheriting(s) && Runnable(s, t)
    ensures HoldersRunnable(Lock(find, s, t, m)) <==> Patient(s, Locks(t, m))
  {
    var r := Lock(find, s, t, m);
    if Patient(s, Locks(t, m)) {
      LockInherits(find, s, t, m);
    } else {
      var o := Owner(s, m).value;
      var n :| n in Owned(s.tasks, t);
      LockMoves(find, s, t, m, o);
      assert !Runnable(r, t) && Owner(r, n) == Some(t);
    }
  }

  // ----- what follows for whole runs

  /** Transitive priority inheritance: the effective priority of every task is the least
      base priority among the tasks whose waits lead to it. */
  lemma TransitiveInheritance(find: Search, calls: seq<Call>, t: nat)
    requires FindsSlot(find) && Legal(find, Initial, calls) && AllSafe(find, Initial, calls)
    requires t in Run(find, Initial, calls).tasks
    ensures LeastBase(Run(find, Initial, calls), t)
  {
    InitialInherits();
    RunChains(find, Initial, calls);
    InheritsLeastBase(Run(find, Initial, calls), t);
  }

  /** The base priorities of all tasks that wait for a mutex owned by `t`. */
  ghost function Claims(s: State, t: nat): set<nat> {
    set m, w | m in Owned(s.tasks, t) && w in Waiters(s, m) :: Base(s.tasks, w)
  }

  lemma ClaimsAreLeast(s: State, t: nat)
    requires Inheriting(s) && t in s.tasks
    ensures Prio(s.tasks, t) == LeastOf(Base(s.tasks, t), Claims(s, t))
  {
    assert Exact(s, t);
    forall m, w | HoldsUp(s, t, m, w)
      ensures Prio(s.tasks, w) == Base(s.tasks, w) && Base(s.tasks, w) in Claims(s, t)
    {
      WaiterAtBase(s, m, w);
    }
    forall p | p in Claims(s, t) ensures Prio(s.tasks, t) <= p {
      var m, w :| m in Owned(s.tasks, t) && w in Waiters(s, m) && Base(s.tasks, w) == p;
      assert HoldsUp(s, t, m, w);
    }
  }

  /** Exact priority inheritance: without hold and wait one level of waiters is all there is. */
  lemma PriorityInheritance(find: Search, calls: seq<Call>, t: nat)
    requires FindsSlot(find) && Legal(find, Initial, calls) && AllPatient(find, Initial, calls)
    requires t in Run(find, Initial, calls).tasks
    ensures var s := Run(find, Initial, calls);
            && Prio(s.tasks, t) == LeastOf(Base(s.tasks, t), Claims(s, t))
            && (Owned(s.tasks, t) == {} ==> Prio(s.tasks, t) == Base(s.tasks, t))
  {
    InitialInherits();
    RunInherits(find, Initial, calls);
    ClaimsAreLeast(Run(find, Initial, calls), t);
  }

  /** Bounded priority inversion: nobody released is more urgent than the running task. */
  lemma BoundedInversion(find: Search, calls: seq<Call>, t: nat)
    requires FindsSlot(find) && Legal(find, Initial, calls) && AllSafe(find, Initial, calls)
    requires Placed(Run(find, Initial, calls), t)
    ensures var s := Run(find, Initial, calls);
            && s.current.Some?
            && Prio(s.tasks, s.current.value) <= Base(s.tasks, t)
            && (t in s.ready ==> Prio(s.tasks, s.current.value) <= Prio(s.tasks, t))
  {
    InitialInherits();
    RunChains(find, Initial, calls);
    MostUrgentOfAll(Run(find, Initial, calls), t);
  }

  // ----- inversion under any nesting

  lemma CallBacked(find: Search, s: State, c: Call)
    requires FindsSlot(find) && Conserved(s) && AllBacked(s) && Permitted(s, c)
    ensures AllBacked(After(find, s, c))
  {
    match c
    case Adds(id, period, cap) => AddTaskBacked(s, id, period, cap);
    case Wakes(id) => MakeReadyBacked(find, s, id);
    case Locks(t, m) => LockBacked(find, s, t, m);
    case Unlocks(t, m) => UnlockBacked(find, s, t, m);
  }

  /** Whatever the nesting of locks, every priority is the base priority of its task or of
      a released one. */
  lemma {:induction false} RunBacked(find: Search, s: State, calls: seq<Call>)
    requires FindsSlot(find) && Conserved(s) && AllBacked(s) && Legal(find, s, calls)
    ensures AllBacked(Run(find, s, calls))
    decreases calls
  {
    if calls != [] {
      CallConserves(find, s, calls[0]);
      CallBacked(find, s, calls[0]);
      RunBacked(find, After(find, s, calls[0]), calls[1..]);
    }
  }

  /** After any legal run, harmful locks included: when the next lock starts an inversion. */
  lemma InversionStartsExactlyWhen(find: Search, calls: seq<Call>, t: nat, m: nat)
    requires FindsSlot(find) && Legal(find, Initial, calls)
    requires NoInversion(Run(find, Initial, calls)) && Runnable(Run(find, Initial, calls), t)
    ensures var s := Run(find, Initial, calls);
            !NoInversion(Lock(find, s, t, m)) <==>
            && s.current == Some(t) && Owner(s, m).Some? && Owner(s, m).value !in s.ready
            && (s.ready == [] || Prio(s.tasks, t) < Prio(s.tasks, s.ready[0]))
  {
    InitialInherits();
    RunConserves(find, Initial, calls);
    RunBacked(find, Initial, calls);
    InversionExactlyWhen(find, Run(find, Initial, calls), t, m);
  }

  // ----- freedom from deadlock

  /** A call leaves every wait an end exactly if it closes no cycle. */
  lemma AcyclicIsExact(find: Search, s: State, c: Call)
    requires FindsSlot(find) && Conserved(s) && Rooted(s) && Permitted(s, c)
    ensures Rooted(After(find, s, c)) <==> Acyclic(s, c)
  {
    match c
    case Adds(id, period, cap) => AddTaskRooted(s, id, period, cap);
    case Wakes(id) => MakeReadyRooted(find, s, id);
    case Locks(t, m) => LockRootedExactlyWhen(find, s, t, m);
    case Unlocks(t, m) => UnlockRooted(find, s, t, m);
  }

  lemma {:induction false} RunRooted(find: Search, s: State, calls: seq<Call>)
    requires FindsSlot(find) && Conserved(s) && Rooted(s) && Legal(find, s, calls) && AllAcyclic(find, s, calls)
    ensures Rooted(Run(find, s, calls))
    decreases calls
  {
    if calls != [] {
      CallConserves(find, s, calls[0]);
      AcyclicIsExact(find, s, calls[0]);
      RunRooted(find, After(find, s, calls[0]), calls[1..]);
    }
  }

  /** Deadlock freedom and work conservation, whatever becomes of the priorities: as long as
      no lock closes a cycle of waits, the processor idles exactly until the first task is
      woken. */
  lemma IdleOnlyBeforeTheFirstTask(find: Search, calls: seq<Call>)
    requires FindsSlot(find) && Legal(find, Initial, calls) && AllAcyclic(find, Initial, calls)
    ensures Run(find, Initial, calls).current == None <==> forall t :: !Woken(calls, t)
  {
    var s := Run(find, Initial, calls);
    InitialInherits();
    RunRooted(find, Initial, calls);
    RunConserves(find, Initial, calls);
    if s.current.Some? {
      assert Placed(s, s.current.value) && Woken(calls, s.current.value);
    }
    if t :| Woken(calls, t) {
      SomebodyRuns(s, t);
    }
  }

  lemma {:induction false} SafeRunsAreAcyclic(find: Search, s: State, calls: seq<Call>)
    requires AllSafe(find, s, calls)
    ensures AllAcyclic(find, s, calls)
    decreases calls
  {
    if calls != [] { SafeRunsAreAcyclic(find, After(find, s, calls[0]), calls[1..]); }
  }
}
