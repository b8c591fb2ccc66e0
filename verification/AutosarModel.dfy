/** The state of the AUTOSAR-style scheduler and the effect of its operations.

    A smaller priority number is more urgent.  `base` is the period a task was
    registered with; `prio` is its effective priority, which rises (numerically
    falls) while more urgent tasks wait on a mutex it owns. */
module AutosarModel {
  import opened Numbers
  import opened Options
  import opened ReadyList

  datatype Task = Task(base: nat, prio: nat, cap: nat, owned: set<nat>)

  datatype Mutex = Mutex(owner: Option<nat>, waiters: seq<nat>)

  type TaskTable = map<nat, Task>

  datatype State = State(
    tasks: TaskTable, ready: seq<nat>, current: Option<nat>, mutexes: map<nat, Mutex>)

  const Initial := State(map[], [], None, map[])

  function Prio(tasks: TaskTable, t: nat): nat {
    if t in tasks then tasks[t].prio else 0
  }

  function Base(tasks: TaskTable, t: nat): nat {
    if t in tasks then tasks[t].base else 0
  }

  function Owned(tasks: TaskTable, t: nat): set<nat> {
    if t in tasks then tasks[t].owned else {}
  }

  function Prios(tasks: TaskTable, list: seq<nat>): (r: seq<nat>)
    ensures |r| == |list|
  {
    seq(|list|, i requires 0 <= i < |list| => Prio(tasks, list[i]))
  }

  function Owner(s: State, m: nat): Option<nat> {
    if m in s.mutexes then s.mutexes[m].owner else None
  }

  function Waiters(s: State, m: nat): seq<nat> {
    if m in s.mutexes then s.mutexes[m].waiters else []
  }

  // ----- table updates

  function SetPrio(tasks: TaskTable, t: nat, p: nat): TaskTable {
    if t in tasks then tasks[t := tasks[t].(prio := p)] else tasks
  }

  function SetOwned(tasks: TaskTable, t: nat, ms: set<nat>): TaskTable {
    if t in tasks then tasks[t := tasks[t].(owned := ms)] else tasks
  }

  /** Insertion of `t` into a list ordered by effective priority. */
  function InsertByPrio(find: Search, tasks: TaskTable, list: seq<nat>, t: nat): seq<nat> {
    InsertAt(list, find(Prios(tasks, list), Prio(tasks, t)), t)
  }

  /** The least element of {bound} + ps. */
  ghost function LeastOf(bound: nat, ps: set<nat>): (r: nat)
    ensures r <= bound && (forall p :: p in ps ==> r <= p)
    ensures r == bound || r in ps
    decreases |ps|
  {
    if ps == {} then bound
    else
      var p :| p in ps;
      var r := LeastOf(Min(bound, p), ps - {p});
      assert forall q :: q in ps ==> q == p || q in ps - {p};
      r
  }

  /** The priorities at the heads of the waiter lists of the given mutexes. */
  ghost function HeadPrios(s: State, ms: set<nat>): set<nat> {
    set m | m in ms && Waiters(s, m) != [] :: Prio(s.tasks, Waiters(s, m)[0])
  }

  // ----- operations

  function AddTask(s: State, id: nat, period: nat, cap: nat): State {
    s.(tasks := s.tasks[id := Task(period, period, cap, {})])
  }

  function RunNext(s: State): State {
    if s.ready == [] then s else s.(current := Some(s.ready[0]), ready := s.ready[1..])
  }

  function Preempt(find: Search, s: State): State {
    match s.current
    case None => RunNext(s)
    case Some(c) => RunNext(s.(current := None, ready := InsertByPrio(find, s.tasks, s.ready, c)))
  }

  function MakeReady(find: Search, s: State, id: nat): State {
    if s.current == Some(id) || id in s.ready then s
    else
      var s1 := s.(ready := InsertByPrio(find, s.tasks, s.ready, id));
      match s.current
      case None => RunNext(s1)
      case Some(c) => if Prio(s.tasks, id) < Prio(s.tasks, c) then Preempt(find, s1) else s1
  }

  /** A list in which `t`, if present, is moved to the slot its priority asks for. */
  function Reposition(find: Search, tasks: TaskTable, list: seq<nat>, t: nat): seq<nat> {
    if t in list then InsertByPrio(find, tasks, Without(list, t), t) else list
  }

  function Acquire(s: State, t: nat, m: nat): State {
    s.(mutexes := s.mutexes[m := Mutex(Some(t), Waiters(s, m))],
       tasks := SetOwned(s.tasks, t, Owned(s.tasks, t) + {m}))
  }

  /** `t` joins the waiters of `m` and lends its priority to the owner `o`. */
  function Enqueue(find: Search, s: State, t: nat, m: nat, o: nat): State {
    var tasks := SetPrio(s.tasks, o, Min(Prio(s.tasks, o), Prio(s.tasks, t)));
    State(tasks,
          Reposition(find, tasks, Without(s.ready, t), o),
          s.current,
          s.mutexes[m := Mutex(Some(o), InsertByPrio(find, s.tasks, Waiters(s, m), t))])
  }

  function Lock(find: Search, s: State, t: nat, m: nat): State {
    match Owner(s, m)
    case None => Acquire(s, t, m)
    case Some(o) =>
      var s1 := Enqueue(find, s, t, m, o);
      if s.current == Some(t) then RunNext(s1.(current := None)) else s1
  }

  /** `m` is handed to its first waiter, which stops waiting. */
  function Succeed(s: State, m: nat): State
    requires Waiters(s, m) != []
  {
    var next := Waiters(s, m)[0];
    s.(mutexes := s.mutexes[m := Mutex(Some(next), Waiters(s, m)[1..])],
       tasks := SetOwned(s.tasks, next, Owned(s.tasks, next) + {m}))
  }

  /** The first waiter takes `m` and is made ready; without waiters the mutex becomes free. */
  function HandOver(find: Search, s: State, m: nat): State {
    if Waiters(s, m) == [] then s.(mutexes := s.mutexes[m := Mutex(None, [])])
    else MakeReady(find, Succeed(s, m), Waiters(s, m)[0])
  }

  /** `t` gives up `m` and its priority is recomputed from what it still owns. */
  ghost function Demote(s: State, t: nat, m: nat): State {
    var s1 := s.(tasks := SetOwned(s.tasks, t, Owned(s.tasks, t) - {m}));
    s1.(tasks := SetPrio(s1.tasks, t,
                         LeastOf(Base(s1.tasks, t), HeadPrios(s1, Owned(s1.tasks, t)))))
  }

  /** The scheduling decision after the priority of `t` has changed. */
  function Resettle(find: Search, s: State, t: nat): State {
    if t in s.ready then s.(ready := Reposition(find, s.tasks, s.ready, t))
    else if s.current == Some(t) && s.ready != [] && Prio(s.tasks, s.ready[0]) < Prio(s.tasks, t)
    then Preempt(find, s)
    else s
  }

  ghost function Unlock(find: Search, s: State, t: nat, m: nat): State {
    if Owner(s, m) == Some(t) then Resettle(find, Demote(HandOver(find, s, m), t, m), t) else s
  }
}
