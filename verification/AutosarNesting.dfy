/** One legal run with nested locks, all of them safe, and two ways to go on with a lock
    that is not: the owner asked for is blocked. */
module AutosarNesting {
  import opened Numbers
  import opened Options
  import opened ReadyList
  import opened AutosarModel
  import opened AutosarConservation
  import opened AutosarRuns

  function Table(p1: nat, p2: nat, o1: set<nat>, o2: set<nat>): TaskTable {
    map[1 := Task(300, p1, 0, o1), 2 := Task(200, p2, 0, o2), 3 := Task(100, 100, 0, {})]
  }

  const Registered := State(Table(300, 200, {}, {}), [], None, map[])
  const FirstRuns := Registered.(current := Some(1))
  const FirstHolds := State(Table(300, 200, {1}, {}), [], Some(1), map[1 := Mutex(Some(1), [])])
  const SecondRuns := FirstHolds.(ready := [1], current := Some(2))
  const SecondHolds := State(Table(300, 200, {1}, {2}), [1], Some(2),
                             map[1 := Mutex(Some(1), []), 2 := Mutex(Some(2), [])])
  const SecondWaits := State(Table(200, 200, {1}, {2}), [], Some(1),
                             map[1 := Mutex(Some(1), [2]), 2 := Mutex(Some(2), [])])
  const ThirdRuns := SecondWaits.(ready := [1], current := Some(3))

  const Prefix := [Adds(1, 300, 0), Adds(2, 200, 0), Adds(3, 100, 0), Wakes(1), Locks(1, 1),
                   Wakes(2), Locks(2, 2), Locks(2, 1)]

  lemma OneCall(find: Search, s: State, c: Call, rest: seq<Call>)
    ensures Run(find, s, [c] + rest) == Run(find, After(find, s, c), rest)
    ensures Legal(find, s, [c] + rest) <==> Permitted(s, c) && Legal(find, After(find, s, c), rest)
    ensures AllDirect(find, s, [c] + rest) <==> Direct(s, c) && AllDirect(find, After(find, s, c), rest)
    ensures AllPatient(find, s, [c] + rest) <==> Patient(s, c) && AllPatient(find, After(find, s, c), rest)
  {
  }

  lemma AddsAll(find: Search, rest: seq<Call>)
    ensures var calls := [Adds(1, 300, 0), Adds(2, 200, 0), Adds(3, 100, 0)] + rest;
            && Run(find, Initial, calls) == Run(find, Registered, rest)
            && (Legal(find, Initial, calls) <==> Legal(find, Registered, rest))
            && (AllDirect(find, Initial, calls) <==> AllDirect(find, Registered, rest))
            && (AllPatient(find, Initial, calls) <==> AllPatient(find, Registered, rest))
  {
    var a1, a2, a3 := Adds(1, 300, 0), Adds(2, 200, 0), Adds(3, 100, 0);
    var s1 := AddTask(Initial, 1, 300, 0);
    var s2 := AddTask(s1, 2, 200, 0);
    assert [a1, a2, a3] + rest == [a1] + ([a2] + ([a3] + rest));
    OneCall(find, Initial, a1, [a2] + ([a3] + rest));
    OneCall(find, s1, a2, [a3] + rest);
    OneCall(find, s2, a3, rest);
    assert AddTask(s2, 3, 100, 0) == Registered;
  }

  // ----- single calls on short lists

  lemma InsertIntoEmpty(find: Search, tasks: TaskTable, t: nat)
    requires FindsSlot(find)
    ensures InsertByPrio(find, tasks, [], t) == [t]
  {
  }

  lemma InsertBehind(find: Search, tasks: TaskTable, c: nat, t: nat)
    requires FindsSlot(find) && Prio(tasks, c) < Prio(tasks, t)
    ensures InsertByPrio(find, tasks, [c], t) == [c, t]
  {
    var keys := Prios(tasks, [c]);
    assert Sorted(keys) && keys[0] == Prio(tasks, c);
    assert Splits(keys, Prio(tasks, t), find(keys, Prio(tasks, t)));
    InsertAtIs([c], 1, t);
  }

  lemma WakeIdle(find: Search, s: State, id: nat)
    requires FindsSlot(find) && s.ready == [] && s.current == None
    ensures MakeReady(find, s, id) == s.(current := Some(id))
  {
  }

  lemma WakeUrgent(find: Search, s: State, id: nat, c: nat)
    requires FindsSlot(find) && s.ready == [] && s.current == Some(c)
    requires Prio(s.tasks, id) < Prio(s.tasks, c)
    ensures MakeReady(find, s, id) == s.(ready := [c], current := Some(id))
  {
    InsertIntoEmpty(find, s.tasks, id);
    InsertBehind(find, s.tasks, id, c);
  }

  /** The running task waits for `m`, owned by `o`; the only ready task takes over. */
  lemma LockHeld(find: Search, s: State, t: nat, m: nat, o: nat, next: nat)
    requires FindsSlot(find) && s.current == Some(t) && s.ready == [next] && next != t
    requires Owner(s, m) == Some(o) && Waiters(s, m) == []
    ensures Lock(find, s, t, m) ==
            State(SetPrio(s.tasks, o, Min(Prio(s.tasks, o), Prio(s.tasks, t))), [], Some(next),
                  s.mutexes[m := Mutex(Some(o), [t])])
  {
    var tasks := SetPrio(s.tasks, o, Min(Prio(s.tasks, o), Prio(s.tasks, t)));
    InsertIntoEmpty(find, s.tasks, t);
    InsertIntoEmpty(find, tasks, o);
    assert Without([next], t) == [next];
    assert o == next ==> Without([next], o) == [];
    assert Reposition(find, tasks, [next], o) == [next];
  }

  // ----- the run

  lemma FirstStarts(find: Search)
    requires FindsSlot(find)
    ensures !Blocked(Registered, 1) && MakeReady(find, Registered, 1) == FirstRuns
    ensures Lock(find, FirstRuns, 1, 1) == FirstHolds
  {
    WakeIdle(find, Registered, 1);
    assert Owned(FirstRuns.tasks, 1) + {1} == {1};
    assert SetOwned(FirstRuns.tasks, 1, {1}) == FirstHolds.tasks;
  }

  lemma SecondStarts(find: Search)
    requires FindsSlot(find)
    ensures !Blocked(FirstHolds, 2) && MakeReady(find, FirstHolds, 2) == SecondRuns
    ensures Lock(find, SecondRuns, 2, 2) == SecondHolds
  {
    WakeUrgent(find, FirstHolds, 2, 1);
    assert Owned(SecondRuns.tasks, 2) + {2} == {2};
    assert SetOwned(SecondRuns.tasks, 2, {2}) == SecondHolds.tasks;
  }

  lemma SecondBlocks(find: Search)
    requires FindsSlot(find)
    ensures Lock(find, SecondHolds, 2, 1) == SecondWaits
  {
    LockHeld(find, SecondHolds, 2, 1, 1, 1);
    assert SetPrio(SecondHolds.tasks, 1, 200) == SecondWaits.tasks;
  }

  lemma ThirdStarts(find: Search)
    requires FindsSlot(find)
    ensures !Blocked(SecondWaits, 3) && MakeReady(find, SecondWaits, 3) == ThirdRuns
  {
    WakeUrgent(find, SecondWaits, 3, 1);
  }

  lemma PrefixRuns(find: Search, rest: seq<Call>)
    requires FindsSlot(find)
    ensures Run(find, Initial, Prefix + rest) == Run(find, SecondWaits, rest)
    ensures Legal(find, Initial, Prefix + rest) <==> Legal(find, SecondWaits, rest)
    ensures AllDirect(find, Initial, Prefix + rest) <==> AllDirect(find, SecondWaits, rest)
    ensures !AllPatient(find, Initial, Prefix + rest)
  {
    var r1 := [Locks(2, 1)] + rest;
    var r2 := [Locks(2, 2)] + r1;
    var r3 := [Wakes(2)] + r2;
    var r4 := [Locks(1, 1)] + r3;
    assert Prefix + rest == [Adds(1, 300, 0), Adds(2, 200, 0), Adds(3, 100, 0)] + ([Wakes(1)] + r4);
    AddsAll(find, [Wakes(1)] + r4);
    FirstStarts(find);
    SecondStarts(find);
    SecondBlocks(find);
    OneCall(find, Registered, Wakes(1), r4);
    OneCall(find, FirstRuns, Locks(1, 1), r3);
    OneCall(find, FirstHolds, Wakes(2), r2);
    OneCall(find, SecondRuns, Locks(2, 2), r1);
    OneCall(find, SecondHolds, Locks(2, 1), rest);
  }

  /** Safe runs need not be patient: the second task waits while it owns a mutex. */
  lemma NestingCanBeSafe(find: Search)
    requires FindsSlot(find)
    ensures Legal(find, Initial, Prefix) && AllSafe(find, Initial, Prefix)
    ensures !AllPatient(find, Initial, Prefix)
  {
    PrefixRuns(find, []);
    assert Prefix + [] == Prefix;
    InitialInherits();
    DirectRunsAreSafe(find, Initial, Prefix);
  }

  /** The first task asks for what the second, blocked task owns: nobody runs any more. */
  lemma NestedLockingCanDeadlock(find: Search)
    requires FindsSlot(find)
    ensures var calls := Prefix + [Locks(1, 2)];
            && Legal(find, Initial, calls) && Woken(calls, 1)
            && Run(find, Initial, calls).current == None
  {
    PrefixRuns(find, [Locks(1, 2)]);
    OneCall(find, SecondWaits, Locks(1, 2), []);
    assert [Locks(1, 2)] + [] == [Locks(1, 2)];
    assert Wakes(1) in Prefix;
  }

  /** The third task blocks on the second, which waits for the first: the boost stops at
      the second task, and the first runs although a more urgent task is released. */
  lemma NestedLockingCanInvert(find: Search)
    requires FindsSlot(find)
    ensures var calls := Prefix + [Wakes(3), Locks(3, 2)];
            var s := Run(find, Initial, calls);
            && Legal(find, Initial, calls) && Placed(s, 3) && s.current == Some(1)
            && Base(s.tasks, 3) < Prio(s.tasks, 1)
  {
    PrefixRuns(find, [Wakes(3)] + [Locks(3, 2)]);
    assert [Wakes(3)] + [Locks(3, 2)] == [Wakes(3), Locks(3, 2)];
    ThirdStarts(find);
    OneCall(find, SecondWaits, Wakes(3), [Locks(3, 2)]);
    OneCall(find, ThirdRuns, Locks(3, 2), []);
    assert [Locks(3, 2)] + [] == [Locks(3, 2)];
    LockHeld(find, ThirdRuns, 3, 2, 2, 1);
    assert 3 in Waiters(Lock(find, ThirdRuns, 3, 2), 2);
  }
}
