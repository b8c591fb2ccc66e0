/** Who runs, and for how long: arrivals preempt by virtual runtime, and a task that was
    dispatched keeps the processor for its slice. */
module FairSlices {
  import opened Options
  import opened ReadyList
  import opened FairModel
  import opened FairInvariant
  import opened FairRuns
  import opened FairLag

  // ----- the numbers

  /** A slice is five ticks for every 1024 of weight, rounded down. */
  lemma SliceIs(weight: nat)
    ensures 1024 * Slice(weight) <= 5 * weight < 1024 * (Slice(weight) + 1)
  {
  }

  /** A tick is worth 1024 divided by the weight, rounded down, but at least one. */
  lemma IncIs(weight: nat)
    requires weight > 0
    ensures Inc(weight) >= 1
    ensures Inc(weight) > 1 ==> Inc(weight) * weight <= 1024
    ensures 1024 < (Inc(weight) + 1) * weight
  {
    var q := 1024 / weight;
    assert 1024 == q * weight + 1024 % weight;
    assert (q + 1) * weight == q * weight + weight;
    if q <= 1 { assert (q + 1) * weight <= 2 * weight by { assert (1 - q) * weight >= 0; } }
  }

  /** A new task has not run, has a whole slice and changes nobody else. */
  lemma AddTaskRecords(s: State, id: nat, weight: nat, cap: nat)
    ensures var r := AddTask(s, id, weight, cap);
            && id in r.tasks && r.tasks[id].weight == weight && r.tasks[id].cap == cap
            && r.tasks[id].vruntime == r.tasks[id].runtime == 0
            && r.tasks[id].slice == r.tasks[id].remaining == Slice(weight)
            && r.tasks - {id} == s.tasks - {id} && r.ready == s.ready && r.current == s.current
  {
    var r := AddTask(s, id, weight, cap);
    assert r.tasks - {id} == s.tasks - {id};
  }

  // ----- dispatching

  /** `c` runs with a whole slice, and no runnable task is behind it. */
  ghost predicate Dispatched(s: State, c: nat) {
    && s.current == Some(c) && c in s.tasks && s.tasks[c].remaining == s.tasks[c].slice
    && forall t :: Runnable(s, t) ==> V(s.tasks, c) <= V(s.tasks, t)
  }

  lemma RunNextDispatches(s: State)
    requires Lists(s) && s.current == None && s.ready != []
    ensures var r := RunNext(s); r.current.Some? && Dispatched(r, r.current.value)
  {
    var r := RunNext(s);
    assert Runnable(s, s.ready[0]);
    HeadLeast(s.tasks, s.ready);
    assert forall t :: Runnable(r, t) ==> t in s.ready;
    assert forall t :: V(r.tasks, t) == V(s.tasks, t);
  }

  lemma PreemptDispatches(find: Search, s: State, c: nat)
    requires FindsSlot(find) && Lists(s) && s.current == Some(c)
    ensures var r := Preempt(find, s); r.current.Some? && Dispatched(r, r.current.value)
  {
    var s1 := s.(current := None, ready := InsertByV(find, s.tasks, s.ready, c));
    InsertOrdered(find, s.tasks, s.ready, c);
    InsertKeepsDistinct(find, s.tasks, s.ready, c);
    assert forall t :: Runnable(s1, t) ==> Runnable(s, t);
    RunNextDispatches(s1);
  }

  // ----- arrivals

  /** A task that becomes ready replaces the running task exactly if that is ahead of it;
      then a task that is furthest behind starts a slice.  Otherwise the records, the rest of
      the slice included, stay as they are. */
  lemma ArrivalPreemptsExactlyWhen(find: Search, s: State, id: nat)
    requires FindsSlot(find) && Fair(s) && id in s.tasks && !Runnable(s, id)
    ensures var r := MakeReady(find, s, id);
            && r.current.Some? && V(r.tasks, r.current.value) <= V(s.tasks, id)
            && (if s.current == None || V(s.tasks, id) < V(s.tasks, s.current.value)
                then Dispatched(r, r.current.value) && r.current != s.current
                else r.current == s.current && r.tasks == s.tasks && id in r.ready)
  {
    var r := MakeReady(find, s, id);
    var s1 := s.(ready := InsertByV(find, s.tasks, s.ready, id));
    MakeReadyFair(find, s, id);
    InsertedLists(find, s, id);
    assert Runnable(r, id) && V(r.tasks, id) == V(s.tasks, id);
    if s.current == None {
      RunNextDispatches(s1);
    } else if V(s.tasks, id) < V(s.tasks, s.current.value) {
      PreemptDispatches(find, s1, s.current.value);
      SameAccounts(s, r);
    }
  }

  lemma ReadyAgain(find: Search, s: State, id: nat)
    requires Runnable(s, id)
    ensures MakeReady(find, s, id) == s
  {
  }

  // ----- slices

  /** Before the last tick of a slice nothing happens but the charge. */
  lemma TickInSlice(find: Search, s: State, c: nat)
    requires FindsSlot(find) && Fair(s) && s.current == Some(c) && s.tasks[c].remaining > 1
    ensures var r := Tick(find, s);
            && r.current == s.current && r.ready == s.ready && c in r.tasks
            && r.tasks[c].remaining == s.tasks[c].remaining - 1 && r.tasks[c].slice == s.tasks[c].slice
            && r.tasks - {c} == s.tasks - {c}
  {
    FairChargeable(s);
    assert Tick(find, s).tasks - {c} == s.tasks - {c};
  }

  /** With the last tick the processor goes to a task that is furthest behind. */
  lemma TickEndsSlice(find: Search, s: State, c: nat)
    requires FindsSlot(find) && Fair(s) && s.current == Some(c) && s.tasks[c].remaining == 1
    ensures var r := Tick(find, s); r.current.Some? && Dispatched(r, r.current.value)
  {
    ChargedKeeps(s, c);
    PreemptDispatches(find, Charged(s, c), c);
  }

  /** What a tick needs to charge the running task and leave it running. */
  predicate HasTicks(s: State, c: nat, n: nat) {
    s.current == Some(c) && c in s.tasks && s.tasks[c].weight > 0 && s.tasks[c].remaining == n
  }

  lemma OneMoreTick(find: Search, s: State, c: nat, n: nat)
    requires HasTicks(s, c, n) && n > 1
    ensures HasTicks(Tick(find, s), c, n - 1) && Tick(find, s).ready == s.ready
  {
  }

  lemma {:induction false} TicksInSlice(find: Search, s: State, c: nat, n: nat, k: nat)
    requires HasTicks(s, c, n) && k < n
    ensures HasTicks(TickBy(find, s, k), c, n - k) && TickBy(find, s, k).ready == s.ready
    decreases k
  {
    if k > 0 {
      TicksInSlice(find, s, c, n, k - 1);
      OneMoreTick(find, TickBy(find, s, k - 1), c, n - (k - 1));
    }
  }

  lemma {:induction false} TicksFair(find: Search, s: State, n: nat)
    requires FindsSlot(find) && Fair(s)
    ensures Fair(TickBy(find, s, n))
  {
    if n > 0 {
      TicksFair(find, s, n - 1);
      TickFair(find, TickBy(find, s, n - 1));
    }
  }

  lemma DispatchedTicks(s: State, c: nat)
    requires Fair(s) && Dispatched(s, c)
    ensures HasTicks(s, c, Slice(s.tasks[c].weight)) && Slice(s.tasks[c].weight) > 0
  {
    assert Sound(s.tasks[c]);
    SlicePositive(s.tasks[c].weight);
  }

  /** Without arrivals a task that was dispatched keeps the processor for all but the last
      tick of its slice. */
  lemma {:induction false} SliceIsKept(find: Search, s: State, c: nat, n: nat)
    requires FindsSlot(find) && Fair(s) && Dispatched(s, c) && n < Slice(s.tasks[c].weight)
    ensures TickBy(find, s, n).current == Some(c)
  {
    DispatchedTicks(s, c);
    TicksInSlice(find, s, c, Slice(s.tasks[c].weight), n);
  }

  /** With the last tick of the slice the next task is dispatched. */
  lemma {:induction false} SliceEnds(find: Search, s: State, c: nat, k: nat)
    requires FindsSlot(find) && Fair(s) && HasTicks(s, c, k) && k > 0
    ensures var r := Tick(find, TickBy(find, s, k - 1)); r.current.Some? && Dispatched(r, r.current.value)
  {
    TicksInSlice(find, s, c, k, k - 1);
    TicksFair(find, s, k - 1);
    LastTick(find, TickBy(find, s, k - 1), c);
  }

  lemma LastTick(find: Search, r: State, c: nat)
    requires FindsSlot(find) && Fair(r) && HasTicks(r, c, 1)
    ensures Tick(find, r).current.Some? && Dispatched(Tick(find, r), Tick(find, r).current.value)
  {
    TickEndsSlice(find, r, c);
  }

  /** Over every legal run the processor changes hands by a dispatch only. */
  lemma SwitchesDispatch(find: Search, s: State, call: Call)
    requires FindsSlot(find) && Fair(s) && Permitted(s, call)
    ensures var r := After(find, s, call);
            r.current != s.current ==> r.current.Some? && Dispatched(r, r.current.value)
  {
    match call
    case Adds(_, _, _) =>
    case Wakes(id) => if !Runnable(s, id) { ArrivalPreemptsExactlyWhen(find, s, id); }
    case Ticks =>
      TickFair(find, s);
      if s.current.Some? {
        var c := s.current.value;
        if s.tasks[c].remaining == 1 { TickEndsSlice(find, s, c); } else { TickInSlice(find, s, c); }
      }
  }
}
