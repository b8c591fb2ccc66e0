/** Accounting, lag and progress of the fair-share scheduler over whole runs. */
module FairRuns {
  import opened Options
  import opened ReadyList
  import opened Totals
  import opened FairModel
  import opened FairInvariant

  datatype Call = Adds(id: nat, weight: nat, cap: nat) | Wakes(id: nat) | Ticks

  function After(find: Search, s: State, c: Call): State {
    match c
    case Adds(id, weight, cap) => AddTask(s, id, weight, cap)
    case Wakes(id) => MakeReady(find, s, id)
    case Ticks => Tick(find, s)
  }

  /** The calling rules: weights give a slice of at least one tick, runnable tasks are
      not registered again, and only registered tasks are woken. */
  predicate Permitted(s: State, c: Call) {
    match c
    case Adds(id, weight, _) => weight >= 205 && !Runnable(s, id)
    case Wakes(id) => id in s.tasks
    case Ticks => true
  }

  function Run(find: Search, s: State, calls: seq<Call>): State
    decreases calls
  {
    if calls == [] then s else Run(find, After(find, s, calls[0]), calls[1..])
  }

  predicate Legal(find: Search, s: State, calls: seq<Call>)
    decreases calls
  {
    calls == [] || (Permitted(s, calls[0]) && Legal(find, After(find, s, calls[0]), calls[1..]))
  }

  lemma CallFair(find: Search, s: State, c: Call)
    requires FindsSlot(find) && Fair(s) && Permitted(s, c)
    ensures Fair(After(find, s, c))
    ensures forall t :: Runnable(After(find, s, c), t) <==> Runnable(s, t) || c == Wakes(t)
  {
    match c
    case Adds(id, weight, cap) => AddTaskFair(s, id, weight, cap);
    case Wakes(id) => MakeReadyFair(find, s, id);
    case Ticks => TickFair(find, s);
  }

  /** Every run keeps the scheduler fair and loses no task. */
  lemma {:induction false} RunFair(find: Search, s: State, calls: seq<Call>)
    requires FindsSlot(find) && Fair(s) && Legal(find, s, calls)
    ensures Fair(Run(find, s, calls))
    ensures forall t :: Runnable(Run(find, s, calls), t) <==> Runnable(s, t) || Wakes(t) in calls
    decreases calls
  {
    if calls != [] {
      CallFair(find, s, calls[0]);
      RunFair(find, After(find, s, calls[0]), calls[1..]);
      assert calls == [calls[0]] + calls[1..];
    }
  }

  lemma InitialFair()
    ensures Fair(Initial)
  {
  }

  // ----- accounting

  ghost function Runtimes(s: State): map<nat, nat> { map t | t in s.tasks :: s.tasks[t].runtime }

  /** The number of ticks taken while some task was running. */
  function BusyTicks(find: Search, s: State, calls: seq<Call>): nat
    decreases calls
  {
    if calls == [] then 0
    else (if calls[0] == Ticks && s.current.Some? then 1 else 0)
         + BusyTicks(find, After(find, s, calls[0]), calls[1..])
  }

  lemma SameRuntimes(s: State, r: State)
    requires SameRecords(s, r)
    ensures Runtimes(r) == Runtimes(s)
  {
  }

  lemma AddRuntimes(s: State, id: nat, weight: nat, cap: nat)
    requires Accounts(s) && !Runnable(s, id)
    ensures Total(Runtimes(AddTask(s, id, weight, cap))) == Total(Runtimes(s))
  {
    assert Runtimes(AddTask(s, id, weight, cap)) == Runtimes(s)[id := 0];
    TotalUpdate(Runtimes(s), id, 0);
    if id in s.tasks {
      TotalRemove(Runtimes(s), id);
    } else {
      assert Runtimes(s) - {id} == Runtimes(s);
    }
  }

  lemma ChargedRuntimes(s: State, c: nat)
    requires c in s.tasks && s.tasks[c].weight > 0 && s.tasks[c].remaining > 0
    ensures Total(Runtimes(Charged(s, c))) == Total(Runtimes(s)) + 1
  {
    assert Runtimes(Charged(s, c)) == Runtimes(s)[c := s.tasks[c].runtime + 1];
    TotalUpdate(Runtimes(s), c, s.tasks[c].runtime + 1);
    TotalRemove(Runtimes(s), c);
  }

  lemma CallRuntimes(find: Search, s: State, c: Call)
    requires FindsSlot(find) && Fair(s) && Permitted(s, c)
    ensures Total(Runtimes(After(find, s, c))) ==
            Total(Runtimes(s)) + if c == Ticks && s.current.Some? then 1 else 0
  {
    match c
    case Adds(id, weight, cap) => AddRuntimes(s, id, weight, cap);
    case Wakes(id) =>
      MakeReadyFair(find, s, id);
      SameRuntimes(s, MakeReady(find, s, id));
    case Ticks =>
      TickFair(find, s);
      if s.current.Some? {
        SameRuntimes(Charged(s, s.current.value), Tick(find, s));
        ChargedRuntimes(s, s.current.value);
      }
  }

  /** Conservation of processor time: all busy ticks, and only those, are accounted for. */
  lemma {:induction false} RuntimesAddUp(find: Search, s: State, calls: seq<Call>)
    requires FindsSlot(find) && Fair(s) && Legal(find, s, calls)
    ensures Total(Runtimes(Run(find, s, calls))) == Total(Runtimes(s)) + BusyTicks(find, s, calls)
    decreases calls
  {
    if calls != [] {
      CallFair(find, s, calls[0]);
      CallRuntimes(find, s, calls[0]);
      RuntimesAddUp(find, After(find, s, calls[0]), calls[1..]);
    }
  }

  /** Runtime accounting in every reachable state. */
  lemma RuntimeAccounting(find: Search, calls: seq<Call>)
    requires FindsSlot(find) && Legal(find, Initial, calls)
    ensures var s := Run(find, Initial, calls);
            && (forall t :: t in s.tasks ==> Sound(s.tasks[t]))
            && Total(Runtimes(s)) == BusyTicks(find, Initial, calls)
            && Distinct(s.ready) && Ordered(s.tasks, s.ready)
            && (s.current == None <==> forall t :: Wakes(t) !in calls)
            && (s.current.Some? ==>
                  && s.current.value in s.tasks && s.current.value !in s.ready
                  && 1 <= s.tasks[s.current.value].remaining <= s.tasks[s.current.value].slice)
  {
    var s := Run(find, Initial, calls);
    InitialFair();
    RunFair(find, Initial, calls);
    RuntimesAddUp(find, Initial, calls);
    assert Runtimes(Initial) == map[];
    if s.current.Some? {
      assert Runnable(s, s.current.value);
    } else {
      assert forall t :: !Runnable(s, t);
    }
  }
}
