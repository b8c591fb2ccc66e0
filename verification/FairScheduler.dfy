/** The fair-share scheduler as an object that updates its tables in place. */
module FairScheduler {
  import opened Options
  import opened ReadyList
  import opened FairModel
  import opened FairInvariant
  import opened FairRuns
  import opened FairSlices

  class Scheduler {
    const find: Search
    var tasks: TaskTable
    var ready: seq<nat>
    var current: Option<nat>

    ghost function View(): State
      reads this
    {
      State(tasks, ready, current)
    }

    ghost predicate Valid()
      reads this
    {
      FindsSlot(find) && Fair(View())
    }

    constructor (find: Search)
      requires FindsSlot(find)
      ensures this.find == find && View() == Initial && Valid()
    {
      this.find := find;
      tasks, ready, current := map[], [], None;
      new;
      InitialFair();
    }

    method AddTask(id: nat, weight: nat, cap: nat)
      requires Valid() && weight >= 205 && !Runnable(View(), id)
      modifies this`tasks
      ensures Valid() && View() == FairModel.AddTask(old(View()), id, weight, cap)
    {
      AddTaskFair(View(), id, weight, cap);
      var slice := BASE_SLICE * weight / 1024;
      tasks := tasks[id := Task(weight, 0, 0, cap, slice, slice)];
    }

    method InsertReadySorted(id: nat)
      requires id in tasks && forall t :: t in ready ==> t in tasks
      modifies this`ready
      ensures View() == old(View()).(ready := InsertByV(find, tasks, old(ready), id))
    {
      var vr := tasks[id].vruntime;
      var keys := seq(|ready|, i requires 0 <= i < |ready| && ready[i] in tasks reads this => tasks[ready[i]].vruntime);
      assert keys == Vs(tasks, ready);
      ready := InsertAt(ready, find(keys, vr), id);
    }

    method RunNext()
      requires forall t :: t in ready ==> t in tasks
      modifies this`tasks, this`ready, this`current
      ensures View() == FairModel.RunNext(old(View()))
    {
      if ready != [] {
        var next := ready[0];
        ready := ready[1..];
        tasks := tasks[next := tasks[next].(remaining := tasks[next].slice)];
        current := Some(next);
      }
    }

    method Preempt()
      requires forall t :: Runnable(View(), t) ==> t in tasks
      modifies this`tasks, this`ready, this`current
      ensures View() == FairModel.Preempt(find, old(View()))
    {
      assert forall t :: t in ready ==> Runnable(View(), t);
      if current.Some? {
        var c := current.value;
        assert Runnable(View(), c);
        current := None;
        InsertReadySorted(c);
      }
      RunNext();
    }

    method MakeReady(id: nat)
      requires Valid() && id in tasks
      modifies this`tasks, this`ready, this`current
      ensures Valid() && View() == FairModel.MakeReady(find, old(View()), id)
      ensures !old(Runnable(View(), id)) ==> current.Some? && V(tasks, current.value) <= old(V(tasks, id))
    {
      MakeReadyFair(find, View(), id);
      if !Runnable(View(), id) { ArrivalPreemptsExactlyWhen(find, View(), id); }
      if current == Some(id) || id in ready {
        return;
      }
      assert forall t :: t in ready ==> Runnable(View(), t);
      assert current.Some? ==> Runnable(View(), current.value);
      InsertReadySorted(id);
      if current.Some? {
        if tasks[id].vruntime < tasks[current.value].vruntime {
          Preempt();
        }
      } else {
        RunNext();
      }
    }

    /** One tick of runtime for the running task. */
    method ChargeTask(c: nat)
      requires c in tasks && tasks[c].weight > 0 && tasks[c].remaining > 0
      modifies this`tasks
      ensures View() == Charged(old(View()), c)
    {
      var t := tasks[c];
      var inc := if 1024 / t.weight > 1 then 1024 / t.weight else 1;
      tasks := tasks[c := t.(runtime := t.runtime + 1, vruntime := t.vruntime + inc,
                             remaining := t.remaining - 1)];
    }

    method Tick()
      requires Valid()
      modifies this`tasks, this`ready, this`current
      ensures Valid() && View() == FairModel.Tick(find, old(View()))
      ensures current != old(current) ==> current.Some? && Dispatched(View(), current.value)
      ensures old(current.Some? && current.value in tasks && tasks[current.value].remaining > 1) ==>
                current == old(current) && ready == old(ready)
    {
      TickFair(find, View());
      SwitchesDispatch(find, View(), Ticks);
      if current.Some? && tasks[current.value].remaining > 1 { TickInSlice(find, View(), current.value); }
      assert forall t :: Runnable(View(), t) ==> t in tasks;
      assert forall t :: t in ready ==> Runnable(View(), t);
      if current.Some? {
        var c := current.value;
        ChargeTask(c);
        if tasks[c].remaining == 0 {
          Preempt();
        }
      } else {
        RunNext();
      }
    }
  }
}
