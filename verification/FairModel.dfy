/** The state of the fair-share scheduler and the effect of its operations.

    A task's virtual runtime advances by `Inc(weight)` for every tick it runs; the ready
    list is kept in order of virtual runtime, and the running task keeps the processor
    for `slice` ticks unless a task that is further behind becomes ready. */
module FairModel {
  import opened Options
  import opened ReadyList

  const BASE_SLICE := 5

  datatype Task = Task(weight: nat, vruntime: nat, runtime: nat, cap: nat, slice: nat, remaining: nat)

  type TaskTable = map<nat, Task>

  datatype State = State(tasks: TaskTable, ready: seq<nat>, current: Option<nat>)

  const Initial := State(map[], [], None)

  function Slice(weight: nat): nat { BASE_SLICE * weight / 1024 }

  function Inc(weight: nat): nat
    requires weight > 0
  {
    if 1024 / weight > 1 then 1024 / weight else 1
  }

  /** A slice of at least one tick is what keeps `remaining -= 1` from underflowing. */
  lemma SlicePositive(weight: nat)
    ensures Slice(weight) >= 1 <==> weight >= 205
  {
  }

  function V(tasks: TaskTable, t: nat): nat { if t in tasks then tasks[t].vruntime else 0 }

  function Vs(tasks: TaskTable, list: seq<nat>): (r: seq<nat>)
    ensures |r| == |list|
  {
    seq(|list|, i requires 0 <= i < |list| => V(tasks, list[i]))
  }

  function InsertByV(find: Search, tasks: TaskTable, list: seq<nat>, t: nat): seq<nat> {
    InsertAt(list, find(Vs(tasks, list), V(tasks, t)), t)
  }

  // ----- operations

  function AddTask(s: State, id: nat, weight: nat, cap: nat): State {
    s.(tasks := s.tasks[id := Task(weight, 0, 0, cap, Slice(weight), Slice(weight))])
  }

  function Refill(tasks: TaskTable, t: nat): TaskTable {
    if t in tasks then tasks[t := tasks[t].(remaining := tasks[t].slice)] else tasks
  }

  function RunNext(s: State): State {
    if s.ready == [] then s
    else State(Refill(s.tasks, s.ready[0]), s.ready[1..], Some(s.ready[0]))
  }

  function Preempt(find: Search, s: State): State {
    match s.current
    case None => RunNext(s)
    case Some(c) => RunNext(s.(current := None, ready := InsertByV(find, s.tasks, s.ready, c)))
  }

  function MakeReady(find: Search, s: State, id: nat): State {
    if s.current == Some(id) || id in s.ready then s
    else
      var s1 := s.(ready := InsertByV(find, s.tasks, s.ready, id));
      match s.current
      case None => RunNext(s1)
      case Some(c) => if V(s.tasks, id) < V(s.tasks, c) then Preempt(find, s1) else s1
  }

  /** One tick of processor time charged to a task. */
  function Charge(t: Task): Task
    requires t.weight > 0 && t.remaining > 0
  {
    t.(runtime := t.runtime + 1, vruntime := t.vruntime + Inc(t.weight), remaining := t.remaining - 1)
  }

  /** The running task can be charged: no division by zero, no underflow. */
  predicate Chargeable(s: State) {
    s.current.Some? ==>
      && s.current.value in s.tasks
      && s.tasks[s.current.value].weight > 0 && s.tasks[s.current.value].remaining > 0
  }

  /** The first branch stands for the arithmetic panic; no reachable state takes it. */
  function Tick(find: Search, s: State): State {
    if !Chargeable(s) then s
    else match s.current
    case None => RunNext(s)
    case Some(c) =>
      var s1 := s.(tasks := s.tasks[c := Charge(s.tasks[c])]);
      if s1.tasks[c].remaining == 0 then Preempt(find, s1) else s1
  }
}
