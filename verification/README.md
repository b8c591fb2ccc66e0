# Verification of the schedulers, IPC marshalling and disk stream of L4ReRust

This project models four parts of L4ReRust and proves what they keep and what they promise.

| part | modules |
|---|---|
| priority-inheritance scheduler | `AutosarModel`, `AutosarConservation`, `AutosarChains`, `AutosarInheritance`, `AutosarUrgency`, `AutosarRecords`, `AutosarRuns`, `AutosarNesting`, `AutosarScheduler` |
| fair-share scheduler | `FairModel`, `FairInvariant`, `FairRuns`, `FairLag`, `FairWeights`, `FairSlices`, `FairScheduler` |
| message registers, message tags and typed calls | `Bits`, `MsgTag`, `FlexPages`, `Marshal`, `Values`, `Utcb`, `Ipc`, `IpcOpType`, `IpcErrors`, `IpcCall`, `ReceiveSlots` |
| byte stream over a sector device | `Disk`, `DiskSession` |
| shared | `Bytes`, `Numbers`, `Options`, `ReadyList`, `Totals` |

`dafny verify dfyconfig.toml` checks everything.

## How to read it

Each scheduler has a specification (states and functions on them), a class that updates its
fields in place and is proved to compute that specification, laws that say what a call leaves
in every table, invariants that every call keeps, and theorems over whole runs. The ready lists
are searched with `binary_search`, which may return any position among equal keys; the theorems
hold for every search function that meets `ReadyList.FindsSlot`.

The priority-inheritance scheduler has four tiers.
- Conservation holds under arbitrary nested locking (`RunConserves`).
- Freedom from deadlock holds as long as no lock closes a cycle of waits, which is also
  necessary to keep every wait grounded (`AcyclicIsExact`).
- Transitive inheritance and bounded inversion hold, nested locks included, as long as every
  lock is harmless: the mutex is free, or its owner does not wait for the caller and its
  boost need not be passed on to those it waits for itself. Owners that
  are runnable and not the caller are always harmless (`DirectRunsAreSafe`). A lock keeps the
  invariant behind these theorems if and only if it is harmless (`SafetyIsNecessary`), and
  `LockIdles` and `InversionStartsExactlyWhen` give the exact conditions for the two failures
  of a single lock, after any legal run. `AutosarNesting` shows a nested run that is harmless and two ways to go on
  that are not: both ask for a mutex whose owner is blocked.
- Without hold and wait owners are runnable at all times, and inheritance has one level
  (`PriorityInheritance`, `PatienceIsNecessary`).

The registers, the disk and the receive slots are objects over a byte buffer, a device and an
allocator. The register count D is a parameter of at most 63. The kernel is any function that
delivers the announced words and leaves anything behind them. The device and the capability
allocator are arbitrary, with arbitrary failures.

Calling rules, stated as preconditions:
- a task id is not registered again once it is released; only registered tasks are woken, and
  a task that waits for a mutex is not; a blocked task neither locks nor unlocks;
- weights in the fair-share scheduler are at least 205, which is exactly when a slice has a
  tick and `remaining -= 1` does not underflow (`DispatchIsSafe`).

## Where code and documentation differ

The model follows the code.
- A test of the fair-share scheduler suggests that a higher weight brings more runtime. Beyond
  one slice it does so, in the long run, if and only if it lowers the increment per tick
  (`EqualIncrementsEqualTime`, `SmallerIncrementGetsMore`). Two weights above 512 have the
  same increment, and so have many pairs below (`IncrementSteps`). At a given moment the
  heavier task may be behind (`HeavierCanBeBehind`).
- The documentation of `iface!` lets an interface choose its `OpType`; the stub nevertheless
  writes the opcode as `i32`. All requests arrive if and only if it has at most four bytes
  and the cursors behind the opcode lead to the same first argument (`InStepIsExact`,
  `TrueDoesNotArrive`). With more bytes a request arrives only if those behind the opcode
  happen to be zero (`OpcodeArrives`).
- `alloc_capslots` means to keep room for a timeout and a terminator. Its addition is one of
  bytes: where it wraps around, demands from 253 on are accepted (`ReserveExactlyWhen`), and
  that call or a later one with any accepted demand may run off the buffer
  (`PanicsExactlyWhen`, `WrappedDemandPanics`, `SmallDemandPanics`).
- By convention errors are returned as negative labels. Invalid capabilities and encodings have
  negative codes that are negated once more on the way out, so that the client takes the reply
  for a result (`SeenExactlyWhen`, `TwoErrorsAreMissed`); so it does when the dispatcher refuses a badly encoded
  string (`RefusalSeenExactlyWhen`). Few errors are decoded to themselves
  (`SurvivesExactlyWhen`).
- A protocol number outside the signed 48-bit range is refused by every dispatcher
  (`RequestArrives`).
- The example at `UtcbMr` (crates/l4/utcb.rs:408-424) expects three words and one item after a
  plain `write` of a flex page; there are three words and no items (`PlainWritesAreNoItems`).
- `read_str` is said to discard zero bytes; it discards one, at the end (`ValueRoundTrip`).
- Reading an `Option` ignores the flag, so that `None` never arrives (`OptionRoundTrip`).

## Model

| member | source | states |
|---|---|---|
| `ReadyList.SearchFrom` | crates/l4/scheduler/autosar.rs:57-64 | a textbook binary search on a sorted list returns a slot with smaller-or-equal keys before it and larger-or-equal keys from it on; on any list it stays within bounds |
| `ReadyList.BinarySearchFindsSlot` | crates/l4/scheduler/linux_like.rs:54-61 | a textbook binary search is one of the searches the scheduler theorems range over |
| `ReadyList.InsertSorted` | crates/l4/scheduler/autosar.rs:57-64 | inserting at such a slot keeps a sorted list sorted |
| `ReadyList.Without` | crates/l4/scheduler/autosar.rs:117-117 | `retain` keeps exactly the other entries |
| `AutosarConservation.AddTaskConserves` | crates/l4/scheduler/autosar.rs:46-55 | registering an id that is not in use keeps every conservation invariant and every place |
| `AutosarConservation.RunNextKeeps` | crates/l4/scheduler/autosar.rs:89-102 | dispatching changes neither the tables nor the set of runnable tasks, keeps one place each and an ordered ready list, and leaves nobody ready without somebody running |
| `AutosarConservation.PreemptMoves` | crates/l4/scheduler/autosar.rs:82-87 | preemption loses and duplicates nobody, keeps the ready list ordered and leaves the processor busy if anyone is ready |
| `AutosarConservation.MakeReadyConserves` | crates/l4/scheduler/autosar.rs:66-80 | making a task ready keeps all conservation invariants and adds exactly that task to the places |
| `AutosarConservation.LockConserves` | crates/l4/scheduler/autosar.rs:104-138 | any lock by a runnable task, nested or not, even of a mutex it owns, keeps all conservation invariants and the set of placed tasks |
| `AutosarConservation.HandOverKeeps` | crates/l4/scheduler/autosar.rs:143-154 | the hand-over moves ownership and the first waiter, in both ownership records, and nothing else |
| `AutosarConservation.UnlockConserves` | crates/l4/scheduler/autosar.rs:140-191 | any unlock, by the owner or not, keeps all conservation invariants and the set of placed tasks |
| `AutosarRecords.AddTaskRecords` | crates/l4/scheduler/autosar.rs:46-55 | a new task has its period as base and effective priority, its capability and no mutex; no other record changes |
| `AutosarRecords.WakePreemptsExactlyWhen` | crates/l4/scheduler/autosar.rs:66-80 | a woken task runs at once exactly if nobody runs or it is more urgent than the running task; otherwise it is put into the ready list and nothing else changes |
| `AutosarRecords.WakeAgain` | crates/l4/scheduler/autosar.rs:66-69 | waking a runnable task changes nothing |
| `AutosarRecords.LockFree` | crates/l4/scheduler/autosar.rs:109-115 | a free mutex gets the caller as its owner, in both records, and nothing else changes |
| `AutosarRecords.LockHeld` | crates/l4/scheduler/autosar.rs:116-137 | a held mutex: the caller joins its waiters, whose order is otherwise kept, and stops being runnable; the owner gets the more urgent of both priorities; nothing else changes |
| `AutosarRecords.UnlockByOthers` | crates/l4/scheduler/autosar.rs:140-142 | an unlock by anybody but the owner changes nothing |
| `AutosarRecords.UnlockOwned` | crates/l4/scheduler/autosar.rs:140-191 | an unlock by the owner: owner, waiters and owned mutexes of everybody afterwards, the former owner's priority as the least of its base and of the first waiters for what it keeps, all other priorities unchanged, and who is runnable |
| `AutosarRecords.UnlockSwitches` | crates/l4/scheduler/autosar.rs:140-191 | an unlock takes the processor away from a task only in favour of a more urgent one |
| `AutosarInheritance.WaiterAtBase` | crates/l4/scheduler/autosar.rs:116-128 | while owners are runnable a waiting task owns nothing and waits at its base priority |
| `AutosarInheritance.LockExact` | crates/l4/scheduler/autosar.rs:116-132 | when a task starts to wait and the boost of the owner need not be passed on, every effective priority stays the minimum of the base priority and the effective priorities of the waiters held up |
| `AutosarInheritance.LockChains` | crates/l4/scheduler/autosar.rs:104-138 | a harmless lock, nested or not, keeps exact inheritance, ordered waiters, the most urgent task running and every chain of waits ending at a runnable task |
| `AutosarInheritance.LockChainsExactlyWhen` | crates/l4/scheduler/autosar.rs:104-138 | a lock keeps these properties if and only if the mutex is free, or its owner does not wait for the caller and its boost is no news to the list and the owner it waits for |
| `AutosarInheritance.RunnableOwnerHarmless` | crates/l4/scheduler/autosar.rs:126-132 | asking for a free mutex or for one owned by another runnable task is harmless, whatever the caller owns |
| `AutosarInheritance.LockInherits` | crates/l4/scheduler/autosar.rs:104-138 | a lock without hold-and-wait also keeps all owners runnable |
| `AutosarInheritance.DemotedExact` | crates/l4/scheduler/autosar.rs:155-177 | the fold over the heads of the waiter lists gives the exact inherited priority |
| `AutosarInheritance.SuccessorExact` | crates/l4/scheduler/autosar.rs:143-151 | the new owner already has the exact priority: the remaining waiters give it no boost |
| `AutosarInheritance.UnlockChains` | crates/l4/scheduler/autosar.rs:140-191 | every unlock keeps exact inheritance, ordered waiters, the most urgent task running, grounded chains and, if they were, runnable owners |
| `AutosarInheritance.MakeReadyChains` | crates/l4/scheduler/autosar.rs:66-87 | making a task ready keeps the same properties |
| `AutosarChains.WaitsRooted` | crates/l4/scheduler/autosar.rs:116-137 | when a task starts to wait for an owner whose chain ends elsewhere, every chain of waits ends at a runnable task again |
| `AutosarChains.WaitsCloses` | crates/l4/scheduler/autosar.rs:116-137 | when the chain of the owner ends at the caller, the caller waits for itself and its chain has no end |
| `AutosarChains.TransferredRooted` | crates/l4/scheduler/autosar.rs:143-151 | after a hand-over every chain of waits still ends at a runnable task |
| `AutosarUrgency.InheritsLeastBase` | crates/l4/scheduler/autosar.rs:104-191 | the effective priority of a task is the least base priority among the tasks whose waits lead to it, over any number of mutexes |
| `AutosarUrgency.LockIdles` | crates/l4/scheduler/autosar.rs:116-137 | under any nesting, a lock by the running task leaves the processor idle exactly if it has to wait and nobody is ready |
| `AutosarUrgency.InversionExactlyWhen` | crates/l4/scheduler/autosar.rs:124-137 | from every conserved state without inversion whose priorities are backed by released tasks, a lock leads to priority inversion if and only if the running caller has to wait, the owner is not ready and no ready task is as urgent as the caller |
| `AutosarUrgency.ChainedNoInversion` | crates/l4/scheduler/autosar.rs:57-191 | states of the chain invariant with a released task have no inversion |
| `AutosarUrgency.ChainedBacked` | crates/l4/scheduler/autosar.rs:104-191 | and every priority in them is backed |
| `AutosarRuns.RunBacked` | crates/l4/scheduler/autosar.rs:46-191 | over every legal run, whatever the nesting, every effective priority is the base priority of its task or of a released task |
| `AutosarRuns.InversionStartsExactlyWhen` | crates/l4/scheduler/autosar.rs:124-137 | the same condition after every legal run that ends without inversion, harmful locks included |
| `AutosarUrgency.BlockingFindsSuccessor` | crates/l4/scheduler/autosar.rs:116-137 | a running task that has to wait for a harmless lock hands the processor to a task that was ready |
| `AutosarUrgency.HandOverToMostUrgent` | crates/l4/scheduler/autosar.rs:140-159 | an unlock gives the mutex to a most urgent waiter, runnable and at its own priority, or frees it; by base priority if owners are runnable |
| `AutosarRuns.RunConserves` | crates/l4/scheduler/autosar.rs:46-191 | over every legal run: each released task has exactly one place, the ready list is duplicate-free and ordered, nobody is ready while the processor idles, both ownership records agree, a mutex with waiters has an owner, effective priorities never exceed base priorities; the placed tasks are exactly those woken |
| `AutosarRuns.OwnershipLaw` | crates/l4/scheduler/autosar.rs:46-191 | over any call a mutex changes hands only by a lock of a free one or an unlock by its owner, and to whom |
| `AutosarRuns.MutualExclusion` | crates/l4/scheduler/autosar.rs:104-159 | over every legal run a task that owns a mutex stays its only owner until it unlocks it |
| `AutosarRuns.RunChains` | crates/l4/scheduler/autosar.rs:46-191 | over every legal run of harmless locks, nested ones included, the chain invariant holds |
| `AutosarRuns.SafetyIsNecessary` | crates/l4/scheduler/autosar.rs:46-191 | a call keeps the chain invariant if and only if it is not a harmful lock |
| `AutosarRuns.DirectRunsAreSafe` | crates/l4/scheduler/autosar.rs:104-138 | a run whose locks ask for free mutexes or runnable owners only has harmless locks only |
| `AutosarRuns.RunInherits` | crates/l4/scheduler/autosar.rs:46-191 | over every run without hold-and-wait owners are runnable, every lock is harmless and the chain invariant holds |
| `AutosarRuns.TransitiveInheritance` | crates/l4/scheduler/autosar.rs:104-191 | in every state reached by harmless locks the effective priority of a task is the least base priority among the tasks whose waits lead to it |
| `AutosarRuns.PriorityInheritance` | crates/l4/scheduler/autosar.rs:104-191 | without hold-and-wait the effective priority of a task is the minimum of its base priority and the base priorities of all tasks that wait for something it owns; owning nothing means base priority |
| `AutosarRuns.BoundedInversion` | crates/l4/scheduler/autosar.rs:57-191 | in every state reached by harmless locks, if a task is released somebody runs, at least as urgent as every ready task and as the base priority of every released task, blocked ones included |
| `AutosarInheritance.LockRootedExactlyWhen` | crates/l4/scheduler/autosar.rs:104-138 | under any nesting and whatever the priorities, a lock leaves every chain of waits an end if and only if the owner asked for does not wait for the caller |
| `AutosarRuns.AcyclicIsExact` | crates/l4/scheduler/autosar.rs:46-191 | a call leaves every chain of waits an end if and only if it is not a lock that closes a cycle |
| `AutosarRuns.RunRooted` | crates/l4/scheduler/autosar.rs:46-191 | over every run without such a lock every chain of waits ends at a runnable task |
| `AutosarRuns.IdleOnlyBeforeTheFirstTask` | crates/l4/scheduler/autosar.rs:66-138 | over every run in which no lock closes a cycle of waits the processor is idle exactly if no task was ever woken |
| `AutosarRuns.SafeRunsAreAcyclic` | crates/l4/scheduler/autosar.rs:104-138 | runs of harmless locks are among them |
| `AutosarRuns.PatienceIsNecessary` | crates/l4/scheduler/autosar.rs:104-138 | after a lock all owners are runnable exactly if the caller owned nothing or the mutex was free |
| `AutosarNesting.NestingCanBeSafe` | crates/l4/scheduler/autosar.rs:104-138 | a legal run of harmless locks in which a task waits while it owns a mutex |
| `AutosarNesting.NestedLockingCanDeadlock` | crates/l4/scheduler/autosar.rs:104-138 | continued with a lock of a mutex whose owner waits for the caller: nobody runs although tasks are released |
| `AutosarNesting.NestedLockingCanInvert` | crates/l4/scheduler/autosar.rs:124-137 | continued with a lock of a mutex whose owner is blocked and less urgent: a less urgent task runs although a more urgent one is released |
| `AutosarScheduler.Scheduler.constructor` | crates/l4/scheduler/autosar.rs:35-44 | a new scheduler is empty and satisfies all invariants |
| `AutosarScheduler.Scheduler.AddTask` | crates/l4/scheduler/autosar.rs:46-55 | in place: the new state is the specified one and all invariants are kept |
| `AutosarScheduler.Scheduler.InsertReadySorted` | crates/l4/scheduler/autosar.rs:57-64 | in place: one entry is inserted at the slot of its priority |
| `AutosarScheduler.Scheduler.MakeReady` | crates/l4/scheduler/autosar.rs:66-80 | in place: the new state is the specified one, all table lookups succeed, all invariants are kept |
| `AutosarScheduler.Scheduler.Preempt` | crates/l4/scheduler/autosar.rs:82-87 | in place: the running task goes back to its slot and the head runs |
| `AutosarScheduler.Scheduler.RunNext` | crates/l4/scheduler/autosar.rs:89-102 | in place: the head of the ready list runs |
| `AutosarScheduler.Scheduler.LockMutex` | crates/l4/scheduler/autosar.rs:104-138 | in place: the new state is the specified one, all lookups succeed; a free mutex is recorded as owned by the caller, for a held one the caller becomes a waiter; conservation is always kept, the chain invariant exactly by harmless locks, runnable owners without hold-and-wait |
| `AutosarScheduler.Scheduler.InheritedPrio` | crates/l4/scheduler/autosar.rs:160-173 | the fold computes the minimum of the base priority and the first waiters' priorities |
| `AutosarScheduler.Scheduler.UnlockMutex` | crates/l4/scheduler/autosar.rs:140-191 | in place: the new state is the specified one, all lookups succeed, the owner gives the mutex up, a call by others changes nothing, all invariants are kept |
| `FairModel.SlicePositive` | crates/l4/scheduler/linux_like.rs:41-52 | a slice has at least one tick exactly from weight 205 on |
| `FairSlices.SliceIs` | crates/l4/scheduler/linux_like.rs:41-42 | a slice is five ticks for every 1024 of weight, rounded down |
| `FairSlices.IncIs` | crates/l4/scheduler/linux_like.rs:105-105 | a tick is worth 1024 divided by the weight, rounded down, but at least one |
| `FairSlices.AddTaskRecords` | crates/l4/scheduler/linux_like.rs:41-52 | a new task has not run and has a whole slice; no other record changes |
| `FairSlices.ArrivalPreemptsExactlyWhen` | crates/l4/scheduler/linux_like.rs:63-75 | a task that becomes ready leaves the processor to one that is not ahead of it; it causes a switch exactly if nobody runs or the running task is ahead of it, and otherwise no record changes |
| `FairSlices.ReadyAgain` | crates/l4/scheduler/linux_like.rs:63-66 | waking a runnable task changes nothing |
| `FairSlices.TickInSlice` | crates/l4/scheduler/linux_like.rs:101-111 | before the last tick of a slice a tick changes nothing but the record of the running task |
| `FairSlices.TickEndsSlice` | crates/l4/scheduler/linux_like.rs:101-111 | with the last tick a runnable task of least virtual runtime starts a whole slice |
| `FairSlices.DispatchedTicks` | crates/l4/scheduler/linux_like.rs:84-90 | a task that was just dispatched has exactly the ticks of its slice left |
| `FairSlices.SliceIsKept` | crates/l4/scheduler/linux_like.rs:84-111 | without arrivals a task that was dispatched runs before each of the ticks of its slice, as many as `Slice` of its weight |
| `FairSlices.SliceEnds` | crates/l4/scheduler/linux_like.rs:101-111 | after as many ticks as are left of the slice, and not before, the next task is dispatched |
| `FairSlices.SwitchesDispatch` | crates/l4/scheduler/linux_like.rs:63-114 | whichever call makes another task run, that task has a whole slice and the least virtual runtime |
| `FairInvariant.DispatchIsSafe` | crates/l4/scheduler/linux_like.rs:84-107 | the tick after a dispatch is free of underflow and division by zero exactly if the chosen weight is at least 205 |
| `FairInvariant.RunNextFair` | crates/l4/scheduler/linux_like.rs:84-99 | after a dispatch the fairness invariant holds, with the same accounts and the same runnable tasks |
| `FairInvariant.MakeReadyFair` | crates/l4/scheduler/linux_like.rs:63-82 | an arrival, with or without preemption, keeps the fairness invariant and all accounts |
| `FairInvariant.TickFair` | crates/l4/scheduler/linux_like.rs:101-114 | a tick never underflows, keeps the fairness invariant, charges only the running task and keeps everybody runnable |
| `FairRuns.RunFair` | crates/l4/scheduler/linux_like.rs:41-114 | over every legal run the invariant holds and the runnable tasks are exactly those woken |
| `FairRuns.RuntimesAddUp` | crates/l4/scheduler/linux_like.rs:101-114 | the sum of all runtimes grows by exactly the number of busy ticks |
| `FairRuns.RuntimeAccounting` | crates/l4/scheduler/linux_like.rs:41-114 | in every reachable state virtual time is runtime times increment, runtimes add up to the busy ticks, the ready list is duplicate-free, ordered and excludes the running task, which is within its slice, and the processor idles exactly until the first arrival |
| `FairLag.LagBound` | crates/l4/scheduler/linux_like.rs:41-114 | from any moment at which b is runnable, with any later arrivals, v(a) is at most the larger of v(a) at that moment and v(b) plus one slice of a |
| `FairLag.FairShares` | crates/l4/scheduler/linux_like.rs:41-114 | tasks woken before the first tick stay within one slice of each other in virtual time for ever |
| `FairWeights.EqualIncrementsEqualTime` | crates/l4/scheduler/linux_like.rs:101-107 | tasks woken before the first tick whose weights give the same increment stay within one slice of runtime of each other for ever, however different the weights |
| `FairWeights.SmallerIncrementGetsMore` | crates/l4/scheduler/linux_like.rs:101-107 | with different increments the lead of the task with the smaller one grows with the runtime of the other, and it is ahead once that exceeds slice times (increment + 1) |
| `FairWeights.IncrementSteps` | crates/l4/scheduler/linux_like.rs:105-106 | a larger weight never has a larger increment; it is 1 exactly above 512, and below that two weights share it exactly if 1024 divided by them does |
| `FairWeights.HeavyTasksGetEqualTime` | crates/l4/scheduler/linux_like.rs:105-106 | above weight 512 runtimes of such tasks differ by at most one slice |
| `FairWeights.HeavierCanBeBehind` | crates/l4/scheduler/linux_like.rs:146-157 | a legal run in which the heavier of two tasks has run less |
| `FairWeights.EqualTasksGetEqualTime` | crates/l4/scheduler/linux_like.rs:131-144 | two such tasks of weight 1024 differ by at most 5 ticks after any number of ticks |
| `FairLag.TickRank` | crates/l4/scheduler/linux_like.rs:101-114 | a tick on which b waits lowers the rank of b |
| `FairLag.WaitingUsesRank` | crates/l4/scheduler/linux_like.rs:101-114 | n ticks of waiting use up at least n units of rank, so there are at most as many |
| `FairLag.RunsWithinRank` | crates/l4/scheduler/linux_like.rs:54-114 | without further arrivals a ready task runs within the sum over the other runnable tasks of what each may still gain before it is a slice ahead |
| `FairLag.WaitIsBounded` | crates/l4/scheduler/linux_like.rs:41-114 | over any run, arrivals included, in which b keeps waiting there are no more ticks than its rank and the gaps of the newcomers |
| `FairScheduler.Scheduler.constructor` | crates/l4/scheduler/linux_like.rs:32-39 | a new scheduler is empty and fair |
| `FairScheduler.Scheduler.AddTask` | crates/l4/scheduler/linux_like.rs:41-52 | in place: the record is the specified one and the invariant is kept |
| `FairScheduler.Scheduler.InsertReadySorted` | crates/l4/scheduler/linux_like.rs:54-61 | in place: one entry is inserted at the slot of its virtual runtime |
| `FairScheduler.Scheduler.MakeReady` | crates/l4/scheduler/linux_like.rs:63-75 | in place: the new state is the specified one, nobody ahead of a newcomer runs, and the invariant is kept |
| `FairScheduler.Scheduler.Preempt` | crates/l4/scheduler/linux_like.rs:77-82 | in place: the running task goes back to its slot and the head runs |
| `FairScheduler.Scheduler.RunNext` | crates/l4/scheduler/linux_like.rs:84-99 | in place: the head of the ready list runs with a full slice |
| `FairScheduler.Scheduler.Tick` | crates/l4/scheduler/linux_like.rs:101-114 | in place: the new state is the specified one, no counter underflows, a task keeps the processor up to the last tick of its slice, a switch starts a whole slice, and the invariant is kept |
| `MsgTag.TagLayout` | crates/l4-sys/ipc_basic.rs:71-78 | the packed tag is the side-by-side sum of its four fields |
| `MsgTag.TagFields` | crates/l4-sys/ipc_basic.rs:94-119 | the accessors return the counts modulo 64, the four flag bits and the signed low 48 bits of the label |
| `MsgTag.TagRoundTrip` | crates/l4/ipc/mod.rs:97-151 | words and items survive exactly below 64, the label exactly within signed 48 bits |
| `MsgTag.SetLabelFields` | crates/l4/ipc/mod.rs:129-131 | `set_label` replaces the label and keeps counts and flags |
| `MsgTag.Repacked` | crates/l4-sys/ipc_basic.rs:138-143 | packing what was read from a tag with another item count changes only that count |
| `FlexPages.SndFpageAdd` | crates/l4-sys/ipc_basic.rs:123-145 | in place: appends one page and the count, or returns the out-of-memory code and changes nothing |
| `FlexPages.DescribeBits` | crates/l4-sys/ipc_basic.rs:135-135 | the first register of an item has exactly the bits of the base and the two marks |
| `FlexPages.Appending` | crates/l4-sys/ipc_basic.rs:123-145 | over any run of appends exactly as many pages are accepted as there is room for; page k lies at registers next + 2k and next + 2k + 1; all other registers, label, words and flags are unchanged |
| `FlexPages.AppendingFromWords` | crates/l4-sys/ipc_basic.rs:129-132 | from w words and no items exactly floor((D - w) / 2) appends succeed |
| `Marshal.AlignOffsetIsLeast` | crates/l4/utcb.rs:211-214 | the bit trick equals the arithmetic round-up for every power of two up to 2^63 |
| `Marshal.AlignUpIsLeast` | crates/l4/utcb.rs:211-214 | that is a multiple of the alignment and no larger than any multiple at or above the offset |
| `Marshal.StoreFrames` | crates/l4/utcb.rs:255-267 | a successful write changes exactly its own bytes, at or after the old cursor and inside the buffer; a failed one changes nothing |
| `Marshal.StoreLoad` | crates/l4/utcb.rs:255-285 | bytes written are read back, with the same cursor, from any buffer with the same beginning |
| `Marshal.NumberRoundTrip` | crates/l4/utcb.rs:262-264 | a number that fits its size survives its memory representation |
| `Marshal.ArrayRoundTrip` | crates/l4/utcb.rs:303-306 | an array of such numbers survives being copied byte by byte |
| `Marshal.ArrayLayout` | crates/l4/utcb.rs:303-306 | element k of an array lies k elements behind its start |
| `Values.ValueRoundTrip` | crates/l4/utcb.rs:255-371 | a scalar, optional scalar, array or string that was written is read back with the same cursor exactly if it is neither a string that ends in a zero byte nor an absent option |
| `Values.MessageRoundTrip` | crates/l4/utcb.rs:255-371 | the same for every sequence of values of any types |
| `Values.CursorsInStep` | crates/l4/utcb.rs:255-371 | after every step of such a sequence the reader's cursor is where the writer's was |
| `Values.OptionRoundTrip` | crates/l4/ipc/serialise.rs:128-148 | an optional scalar survives exactly if it is present, and then the cursors agree |
| `Values.WriteSucceedsExactlyWhen` | crates/l4/utcb.rs:255-314 | a write succeeds exactly if the number of elements can be expressed and the value fits, moves the cursor behind the value, and fails with the error of the source otherwise |
| `Values.CountedEnd` | crates/l4/utcb.rs:288-309 | if only the elements do not fit, the length stays written |
| `Values.OptionFlag` | crates/l4/ipc/serialise.rs:135-147 | the flag behind an optional value is one exactly if it is present; an absent value leaves all other bytes as they are |
| `Values.ScalarReadExactlyWhen` | crates/l4/utcb.rs:275-285 | a scalar is read exactly if the buffer reaches that far; a failed read leaves the cursor |
| `Values.CountedReadExactlyWhen` | crates/l4/utcb.rs:327-344 | elements are read exactly if the buffer has as many as the length says |
| `Values.StringReadExactlyWhen` | crates/l4/utcb.rs:355-371 | a string that is there is refused exactly if it is badly encoded |
| `Values.OneZeroIsDropped` | crates/l4/utcb.rs:355-371 | exactly one zero byte is dropped from the end of a string |
| `Utcb.Registers.constructor` | crates/l4/utcb.rs:246-249 | a cursor at the start of the buffer |
| `Utcb.Registers.Write` | crates/l4/utcb.rs:255-267 | in place: the buffer and cursor of the specified write, and its error |
| `Utcb.Registers.Read` | crates/l4/utcb.rs:275-285 | in place: the value and cursor of the specified read, and its error |
| `Utcb.Registers.WriteSlice` | crates/l4/utcb.rs:288-309 | in place: length, then elements; if only the elements do not fit, the length stays written |
| `Utcb.Registers.WriteStr` | crates/l4/utcb.rs:312-314 | in place: a `usize` length and the bytes of the string |
| `Utcb.Registers.ReadSlice` | crates/l4/utcb.rs:327-344 | in place: as many elements as the length says, or the error of the part that does not fit |
| `Utcb.Registers.ReadStr` | crates/l4/utcb.rs:355-371 | in place: the bytes without one trailing zero, consumed only if well encoded |
| `Utcb.Registers.Words` | crates/l4/utcb.rs:375-382 | the least number of words that cover all bytes up to the cursor |
| `Utcb.Registers.Reset` | crates/l4/utcb.rs:386-388 | the cursor returns to the start and no byte changes |
| `Utcb.Registers.Skip` | crates/l4/utcb.rs:391-399 | moves the cursor as writing the value would |
| `Utcb.PiecesAccount` | crates/l4/utcb.rs:440-472 | after any mix of data and items, words + 2 * items is the number of registers in use, at most D, without underflow |
| `Utcb.ItemsAreAccepted` | crates/l4/utcb.rs:440-444 | the item count grows by the number of items that found two whole registers free |
| `Utcb.PlainWritesAreNoItems` | crates/l4/utcb.rs:408-424 | after plain writes of a `u32`, a `bool` and a flex page there are three words and no items |
| `Utcb.CountsSurvive` | crates/l4/utcb.rs:440-472 | after any mix of data and items both counts survive the 6-bit fields of the tag and together announce at most D registers |
| `Ipc.BuiltMessagesPass` | crates/l4/ipc/iface.rs:157-162 | the length check of the dispatcher never refuses a message built that way |
| `Utcb.ItemRegister` | crates/l4/utcb.rs:440-444 | an item is written at the register where `l4_sndfpage_add_u` would put it |
| `Utcb.ItemStored` | crates/l4/utcb.rs:440-444 | an accepted item leaves its description in the register after all words and items, and its flex page in the next |
| `Utcb.ItemStays` | crates/l4/utcb.rs:440-444 | and there they are at the end of the message, whatever is written later |
| `Utcb.UtcbMr.WriteItem` | crates/l4/utcb.rs:440-444 | in place: the item is stored aligned and counted, or neither |
| `Utcb.UtcbMr.Words` | crates/l4/utcb.rs:469-472 | the untyped words, without underflow |
| `Utcb.UtcbMr.Reset` | crates/l4/utcb.rs:475-478 | cursor and item count return to zero |
| `Utcb.UtcbMr.WriteArg` | crates/l4/ipc/serialise.rs:51-84 | in place: the write of scalars and the unit, and through the methods above of optional scalars, arrays and strings |
| `Utcb.UtcbMr.WritePiece` | crates/l4/ipc/serialise.rs:86-91 | in place: the same, or a flex page written as an item and counted |
| `Utcb.Registers.WriteOpt` | crates/l4/ipc/serialise.rs:135-147 | in place: the value or a gap of its size, and the flag |
| `Utcb.Registers.ReadOpt` | crates/l4/ipc/serialise.rs:129-133 | in place: the value, present whatever the flag says |
| `Utcb.UtcbMr.ReadArg` | crates/l4/ipc/serialise.rs:51-84 | in place: the read of the same types of values |
| `Ipc.WordsCover` | crates/l4/ipc/iface.rs:102-104 | the words announced in a tag cover all bytes written and survive the tag unchanged |
| `Ipc.ArmIsFirst` | crates/l4/ipc/iface.rs:168-183 | the method called is the first with the opcode, and there is none exactly if no method has it |
| `Ipc.RefusedExactlyWhen` | crates/l4/ipc/iface.rs:157-184 | which requests are refused as too long, for another protocol or with an unknown opcode; a call has the types of the method |
| `Ipc.OpcodeArrives` | crates/l4/ipc/iface.rs:167-167 | the dispatcher reads the opcode the stub wrote as `i32` exactly if its `OpType` has at most four bytes or finds zeros behind the fourth |
| `Ipc.RequestArrives` | crates/l4/ipc/iface.rs:84-117 | if the cursors are in step behind the opcode, then after a transport of the announced words only the dispatcher selects the same method with the same arguments exactly if no string argument ends in a zero byte, no optional argument is absent, the protocol number fits 48 bits and an `OpType` of more than four bytes finds zeros behind the opcode |
| `IpcOpType.RequestArrivesExactlyWhen` | crates/l4/ipc/iface.rs:94-99 | for every `OpType` and every argument list whose first number has a non-zero low byte, being in step is also necessary |
| `IpcOpType.InStepIsExact` | crates/l4/ipc/iface.rs:84-117 | all requests of a method arrive if and only if the `OpType` has at most four bytes and the method is in step, provided one such request can be sent |
| `IpcOpType.StaleByteMisleads` | crates/l4/ipc/iface.rs:167-167 | with a wider `OpType` any request that can be sent fails from registers that hold a one behind the opcode |
| `IpcOpType.TrueDoesNotArrive` | crates/l4/ipc/iface.rs:190-202 | an interface with a two-byte `OpType` whose method with a `bool` can be called but does not get `true` |
| `IpcOpType.SecondMethodIsCalled` | crates/l4/ipc/iface.rs:168-183 | a call of the second method of an interface is decoded as one |
| `IpcCall.ReplyArrives` | crates/l4/ipc/iface.rs:174-179 | the client decodes exactly the value the server wrote, unless it is a string that ends in a zero byte or an absent option |
| `IpcCall.ReceivesExactlyWhen` | crates/l4/ipc/mod.rs:174-187 | the client reads its registers exactly if the kernel reports no error and the label is not negative |
| `IpcCall.RepliesAreSuccesses` | crates/l4/ipc/iface.rs:174-179 | a reply has the label zero and announces exactly the words that were written |
| `IpcErrors.SeenExactlyWhen` | crates/l4/error.rs:219-230 | which errors reach the client as errors: those with negative labels, so never an invalid capability or encoding |
| `IpcErrors.TwoErrorsAreMissed` | crates/l4/error.rs:223-228 | an invalid capability and an invalid encoding are sent with the labels 65540 and 65541 |
| `IpcErrors.KnownButNotSent` | crates/l4/error.rs:202-228 | the client would know these two by negative labels, with which the server never sends them |
| `IpcErrors.ArrivesAs` | crates/l4/error.rs:202-230 | what the client gets for every error it notices |
| `IpcErrors.RefusalArrivesAs` | crates/l4/ipc/iface.rs:157-184 | the generic error a client gets for each reason of a refusal |
| `IpcErrors.SurvivesExactlyWhen` | crates/l4/error.rs:202-230 | an error is decoded to itself if and only if it is a known generic error, or the one number that is its own negation in 48 bits |
| `IpcErrors.RefusalSeenExactlyWhen` | crates/l4/ipc/iface.rs:157-184 | a client notices that its request was refused if and only if the reason is not a badly encoded string |
| `IpcCall.ErrorComesBack` | crates/l4/ipc/mod.rs:174-187 | a reply with an error label is decoded to the error, one with a non-negative label is read as a value |
| `IpcCall.RemoteCallReturns` | crates/l4/ipc/iface.rs:84-185 | end to end, for every pair of transports: a request fails to leave exactly if it does not fit and is never refused; an error of the method, and a result that does not fit, go through the label of the reply and come back as errors exactly if it is negative; a result that fits is returned as it is exactly if it is neither a string that ends in a zero byte nor an absent option |
| `IpcCall.SendRequest` | crates/l4/ipc/iface.rs:94-104 | in place: the stub writes opcode and arguments and builds the tag, or stops at the first error |
| `IpcCall.OpDispatch` | crates/l4/ipc/iface.rs:152-185 | in place: validate, decode, call, reset, reply, with the outcome of the specification, errors of the called method included |
| `IpcCall.DispatchAndReply` | crates/l4/ipc/server.rs:264-283 | in place: the tag of the reply, or an empty message with the label of the error |
| `IpcCall.DecodeRequest` | crates/l4/ipc/iface.rs:157-172 | in place: the decoded call, or the reason for refusing it |
| `IpcCall.SendReply` | crates/l4/ipc/iface.rs:174-179 | in place: the result from the start of the registers, and its tag |
| `ReceiveSlots.GrowKeeps` | crates/l4/ipc/types.rs:204-226 | an allocation keeps used slots, fills the next ones with the capabilities obtained, keeps the rest zero, and stops only at the demand, at the end of the buffer or at an allocator failure |
| `ReceiveSlots.SlotsGrow` | crates/l4/ipc/types.rs:204-226 | over any sequence of demands and failures slot k holds the k-th usable capability offered, marked as a receive item, and never changes; without failures the number of slots is the largest accepted demand; demands of up to 252 keep four slots free |
| `ReceiveSlots.EntryBits` | crates/l4/ipc/types.rs:219-221 | a used slot has exactly the bits of its capability and of the marks of a receive item |
| `ReceiveSlots.AcceptedExactlyWhen` | crates/l4/ipc/types.rs:204-212 | with fewer than 256 slots a demand is accepted exactly if it leaves four of them free, or by the wrap-around |
| `ReceiveSlots.ReserveExactlyWhen` | crates/l4/ipc/types.rs:204-212 | an accepted demand of at most 252 leaves four slots free, and with fewer than 256 slots no other does |
| `ReceiveSlots.NoPanic` | crates/l4/ipc/types.rs:204-226 | while four slots are free, a demand of at most 252 keeps them free and every index inside the buffer |
| `ReceiveSlots.NoRunPanics` | crates/l4/ipc/types.rs:204-226 | over every sequence of demands of at most 252 from there no call leaves the buffer |
| `ReceiveSlots.PanicsExactlyWhen` | crates/l4/ipc/types.rs:204-226 | in every state, an index leaves the buffer if and only if the demand is accepted, the larger of demand and slots in use is at least N, and the calls of the allocator that are then needed succeed |
| `ReceiveSlots.WrappedDemandPanics` | crates/l4/ipc/types.rs:204-226 | it does for 58 slots, an allocator that never fails and a demand of 253 |
| `ReceiveSlots.SmallDemandPanics` | crates/l4/ipc/types.rs:223-224 | it does for 58 slots, an allocator that fails on its 59th call, a demand of 253 and then one of 10 |
| `ReceiveSlots.BufferManager.constructor` | crates/l4/ipc/types.rs:196-202 | all slots are empty |
| `ReceiveSlots.BufferManager.AllocCapslots` | crates/l4/ipc/types.rs:204-226 | in place, for every byte: the specified growth, and the error for a demand that is too large, for an allocator failure and for an index beyond the buffer |
| `ReceiveSlots.BufferManager.RcvCap` | crates/l4/ipc/types.rs:228-239 | a slot is found exactly if it is allocated, and gives the capability that was put there if the mask covers its bits and none of the marks |
| `Disk.SectorHolds` | src/fs_server/src/virtio.rs:187-188 | a piece of a sector is the corresponding piece of the flat image |
| `Disk.SectorOverwrites` | src/fs_server/src/virtio.rs:202-213 | writing back a patched sector overwrites exactly the patched bytes of the flat image |
| `Disk.VirtioBlk.ReadSector` | src/fs_server/src/virtio.rs:94-96 | the device as assumed: a transfer fails or returns the sector |
| `Disk.VirtioBlk.WriteSector` | src/fs_server/src/virtio.rs:99-104 | the device as assumed: a transfer fails and changes nothing, or replaces the sector |
| `Disk.VirtioDisk.Read` | src/fs_server/src/virtio.rs:177-194 | for every device and every pattern of failures: the bytes read are those of the image, the cursor has moved over exactly them, the rest of the buffer is untouched; on failure the cursor is at its start or on a sector boundary, at the end of the device or at a failed transfer |
| `Disk.VirtioDisk.Write` | src/fs_server/src/virtio.rs:196-218 | for every device and every pattern of failures: the image is the old one overwritten with exactly the bytes the cursor moved over; on failure the cursor is at its start or on a sector boundary, at the end of the device or at a failed transfer |
| `Disk.VirtioDisk.Seek` | src/fs_server/src/virtio.rs:225-238 | for every 64-bit cursor: the sum is taken modulo 2^64 and refused if that is not a signed 64-bit position; seeking from the end is refused |
| `Disk.SeekExactlyWhen` | src/fs_server/src/virtio.rs:225-238 | a seek goes where it should unless the sum exceeds 2^64, which takes a cursor of at least 2^63 |
| `DiskSession.Serve` | src/fs_server/src/virtio.rs:177-238 | any session of reads, writes and seeks on any device of less than 2^64 bytes, however it fails, gives the replies of a flat disk that lets through the bytes achieved, and ends in its state; without a failed transfer these are all bytes there are |
| `DiskSession.ReadBack` | src/fs_server/src/virtio.rs:177-238 | write, seek back, read returns the bytes that got through |
| `DiskSession.WritesConcatenate` | src/fs_server/src/virtio.rs:196-218 | two writes in a row, the first complete, leave the state of one write of both |

## Left out

- Threads and the kernel: `run_thread`, the IPC system calls, the errors they report and the waiting in the server loop are outside the model; a dispatch is a change of `current`.
- The `period` field of the priority-inheritance scheduler, which only seeds the base priority.
- Tasks of weight below 205 in the fair-share scheduler beyond `DispatchIsSafe`, and 64-bit overflow of runtimes and virtual runtimes.
- Utcb.UtcbMr.WriteArg: capabilities and flex pages are written by `WriteItem`, not here.
- Utcb.UtcbMr.ReadArg: capabilities and flex pages as arguments are not read, because they come from the receive buffers.
- Marshal.NumberRoundTrip: values are bit patterns; the validity of patterns for `bool` and `char` and the meaning of signed and floating-point patterns are not modelled.
- Which byte strings are UTF-8: the encoding is a parameter, and the theorems hold for every choice.
- Signed length types of arrays: lengths are unsigned, as all lengths used in the repository are.
- `set_rcv_cap_flags`, `setup_wait`, `Bufferless`, `BufStr` and the getters of the schedulers: short accessors.
- ReceiveSlots.BufferManager.AllocCapslots: models the wrap-around of a build without overflow checks; a build with them stops at the addition instead.
- The virtqueue inside `transfer`: it has no device or completion logic to model; sector transfers are assumed to fail or succeed as a whole.
- Disk.VirtioDisk.Seek: likewise models the wrap-around of the sum.
- The file, network, driver, epoll and aio servers, the C side, the procedural macros, build scripts and printing helpers.
