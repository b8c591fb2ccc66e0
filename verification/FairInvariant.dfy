/** What every operation of the fair-share scheduler keeps. */
module FairInvariant {
  import opened Options
  import opened ReadyList
  import opened FairModel

  predicate Runnable(s: State, t: nat) { s.current == Some(t) || t in s.ready }

  ghost predicate Ordered(tasks: TaskTable, list: seq<nat>) {
    forall i, j :: 0 <= i < j < |list| ==> V(tasks, list[i]) <= V(tasks, list[j])
  }

  /** Virtual runtime a task can gain in one whole slice. */
  function Quota(t: Task): nat
    requires t.weight > 0
  {
    t.slice * Inc(t.weight)
  }

  /** Virtual runtime gained in the part of the slice that is used up. */
  function Used(t: Task): nat
    requires t.weight > 0 && t.remaining <= t.slice
  {
    (t.slice - t.remaining) * Inc(t.weight)
  }

  /** The record of one task: enough weight, and virtual time in step with real time. */
  predicate Sound(t: Task) {
    && t.weight >= 205 && t.slice == Slice(t.weight)
    && t.vruntime == t.runtime * Inc(t.weight)
  }

  ghost predicate Accounts(s: State) {
    && (forall t :: t in s.tasks ==> Sound(s.tasks[t]))
    && (forall t :: t in s.tasks && !Runnable(s, t) ==> s.tasks[t].runtime == 0)
  }

  ghost predicate Lists(s: State) {
    && (forall t :: Runnable(s, t) ==> t in s.tasks)
    && Distinct(s.ready) && (s.current.Some? ==> s.current.value !in s.ready)
    && Ordered(s.tasks, s.ready)
  }

  predicate Working(s: State) { s.current == None ==> s.ready == [] }

  /** The running task is within its slice, and ahead of a ready task by no more than
      what it has gained in this slice. */
  ghost predicate InSlice(s: State) {
    s.current.Some? && s.current.value in s.tasks ==>
      var c := s.tasks[s.current.value];
      && c.weight > 0 && 1 <= c.remaining <= c.slice
      && forall r :: r in s.ready ==> c.vruntime <= V(s.tasks, r) + Used(c)
  }

  ghost predicate Fair(s: State) { Accounts(s) && Lists(s) && Working(s) && InSlice(s) }

  // ----- lists

  lemma InsertOrdered(find: Search, tasks: TaskTable, list: seq<nat>, t: nat)
    requires FindsSlot(find) && Ordered(tasks, list)
    ensures Ordered(tasks, InsertByV(find, tasks, list, t))
  {
    var keys, key := Vs(tasks, list), V(tasks, t);
    var slot := find(keys, key);
    assert Sorted(keys) && slot <= |keys|;
    InsertSorted(keys, key, slot);
    InsertAtIs(list, slot, t);
    InsertAtIs(keys, slot, key);
    var r := InsertByV(find, tasks, list, t);
    forall i | 0 <= i < |r| ensures V(tasks, r[i]) == InsertAt(keys, slot, key)[i] { }
  }

  lemma InsertKeepsDistinct(find: Search, tasks: TaskTable, list: seq<nat>, t: nat)
    requires FindsSlot(find) && Distinct(list) && t !in list
    ensures Distinct(InsertByV(find, tasks, list, t))
  {
    InsertDistinct(list, find(Vs(tasks, list), V(tasks, t)), t);
  }

  lemma OrderedFrame(tasks: TaskTable, tasks': TaskTable, list: seq<nat>)
    requires Ordered(tasks, list)
    requires forall x :: x in list ==> V(tasks', x) == V(tasks, x)
    ensures Ordered(tasks', list)
  {
  }

  lemma HeadLeast(tasks: TaskTable, list: seq<nat>)
    requires Ordered(tasks, list)
    ensures forall t :: t in list ==> V(tasks, list[0]) <= V(tasks, t)
  {
  }

  // ----- dispatching

  /** Apart from refilled slices, all records are the same. */
  ghost predicate SameRecords(s: State, r: State) {
    && r.tasks.Keys == s.tasks.Keys
    && forall t :: t in s.tasks ==> r.tasks[t].(remaining := 0) == s.tasks[t].(remaining := 0)
  }

  lemma SameAccounts(s: State, r: State)
    requires SameRecords(s, r) && forall t :: Runnable(s, t) ==> Runnable(r, t)
    ensures Accounts(s) ==> Accounts(r)
    ensures forall t :: V(r.tasks, t) == V(s.tasks, t)
  {
  }

  /** The head of the ready list starts a fresh slice, and nobody is behind it. */
  lemma RunNextFair(s: State)
    requires Accounts(s) && Lists(s) && s.current == None
    ensures Fair(RunNext(s)) && SameRecords(s, RunNext(s))
    ensures forall t :: Runnable(RunNext(s), t) <==> Runnable(s, t)
  {
    var r := RunNext(s);
    if s.ready != [] {
      assert s.ready == [s.ready[0]] + s.ready[1..];
      assert Runnable(s, s.ready[0]);
      SameAccounts(s, r);
      OrderedFrame(s.tasks, r.tasks, s.ready);
      HeadLeast(r.tasks, s.ready);
      SlicePositive(s.tasks[s.ready[0]].weight);
    }
  }

  /** The next tick after a dispatch is free of underflow exactly if the one
      chosen has a weight of at least 205. */
  lemma DispatchIsSafe(s: State)
    requires s.ready != [] && s.ready[0] in s.tasks
    requires s.tasks[s.ready[0]].slice == Slice(s.tasks[s.ready[0]].weight)
    ensures Chargeable(RunNext(s)) <==> s.tasks[s.ready[0]].weight >= 205
  {
  }

  lemma PreemptFair(find: Search, s: State)
    requires FindsSlot(find) && Accounts(s) && Lists(s)
    ensures Fair(Preempt(find, s)) && SameRecords(s, Preempt(find, s))
    ensures forall t :: Runnable(Preempt(find, s), t) <==> Runnable(s, t)
  {
    if s.current == None {
      RunNextFair(s);
    } else {
      var c := s.current.value;
      var s1 := s.(current := None, ready := InsertByV(find, s.tasks, s.ready, c));
      InsertOrdered(find, s.tasks, s.ready, c);
      InsertKeepsDistinct(find, s.tasks, s.ready, c);
      assert forall t :: Runnable(s1, t) <==> Runnable(s, t);
      RunNextFair(s1);
    }
  }

  // ----- the public operations

  lemma AddTaskFair(s: State, id: nat, weight: nat, cap: nat)
    requires Fair(s) && weight >= 205 && !Runnable(s, id)
    ensures Fair(AddTask(s, id, weight, cap))
  {
  }

  /** A newcomer that is not behind the running task waits in the list. */
  lemma JoinFair(s: State, s1: State, id: nat)
    requires Accounts(s1) && Lists(s1) && InSlice(s) && s.current.Some? && s.current.value in s.tasks
    requires s1.tasks == s.tasks && s1.current == s.current
    requires forall t :: t in s1.ready <==> t in s.ready || t == id
    requires V(s.tasks, s.current.value) <= V(s.tasks, id)
    ensures Fair(s1)
  {
  }

  lemma InsertedLists(find: Search, s: State, id: nat)
    requires FindsSlot(find) && Accounts(s) && Lists(s) && id in s.tasks && !Runnable(s, id)
    ensures var s1 := s.(ready := InsertByV(find, s.tasks, s.ready, id)); Accounts(s1) && Lists(s1)
  {
    InsertOrdered(find, s.tasks, s.ready, id);
    InsertKeepsDistinct(find, s.tasks, s.ready, id);
  }

  lemma MakeReadyFair(find: Search, s: State, id: nat)
    requires FindsSlot(find) && Fair(s) && id in s.tasks
    ensures Fair(MakeReady(find, s, id)) && SameRecords(s, MakeReady(find, s, id))
    ensures forall t :: Runnable(MakeReady(find, s, id), t) <==> Runnable(s, t) || t == id
  {
    if !Runnable(s, id) {
      var s1 := s.(ready := InsertByV(find, s.tasks, s.ready, id));
      InsertedLists(find, s, id);
      assert forall t :: Runnable(s1, t) <==> Runnable(s, t) || t == id;
      if s.current == None {
        RunNextFair(s1);
      } else if V(s.tasks, id) < V(s.tasks, s.current.value) {
        PreemptFair(find, s1);
      } else {
        JoinFair(s, s1, id);
      }
    }
  }

  /** A charge moves virtual time and the used part of the slice by the same amount. */
  lemma ChargeSound(t: Task)
    requires Sound(t) && 1 <= t.remaining <= t.slice
    ensures Sound(Charge(t)) && Quota(Charge(t)) == Quota(t)
    ensures Charge(t).vruntime == t.vruntime + Inc(t.weight)
    ensures Used(Charge(t)) == Used(t) + Inc(t.weight) <= Quota(t)
  {
  }

  lemma FairChargeable(s: State)
    requires Fair(s)
    ensures Chargeable(s)
  {
  }

  /** The state after the running task is charged, before any preemption. */
  function Charged(s: State, c: nat): State
    requires c in s.tasks && s.tasks[c].weight > 0 && s.tasks[c].remaining > 0
  {
    s.(tasks := s.tasks[c := Charge(s.tasks[c])])
  }

  lemma ChargedKeeps(s: State, c: nat)
    requires Fair(s) && s.current == Some(c)
    ensures Chargeable(s) && Accounts(Charged(s, c)) && Lists(Charged(s, c))
    ensures Charged(s, c).tasks[c].remaining > 0 ==> Fair(Charged(s, c))
  {
    FairChargeable(s);
    var r := Charged(s, c);
    ChargeSound(s.tasks[c]);
    assert forall t :: Runnable(r, t) <==> Runnable(s, t);
    OrderedFrame(s.tasks, r.tasks, s.ready);
  }

  lemma TickFair(find: Search, s: State)
    requires FindsSlot(find) && Fair(s)
    ensures Chargeable(s) && Fair(Tick(find, s))
    ensures forall t :: Runnable(Tick(find, s), t) <==> Runnable(s, t)
    ensures s.current == None ==> Tick(find, s) == s
    ensures s.current.Some? ==> SameRecords(Charged(s, s.current.value), Tick(find, s))
  {
    FairChargeable(s);
    if s.current.Some? {
      var c := s.current.value;
      ChargedKeeps(s, c);
      assert forall t :: Runnable(Charged(s, c), t) <==> Runnable(s, t);
      if Charged(s, c).tasks[c].remaining == 0 { PreemptFair(find, Charged(s, c)); }
    }
  }
}
