/** Receive-slot management: the buffer manager allocates capability slots on demand and
    never gives one up. */
module ReceiveSlots {
  import opened Bits
  import opened Numbers

  /** Capacity of the buffer registers, and the world outside: what the capability
      allocator returns on its k-th call, which values are invalid, and the bits that
      mark a receive item. */
  datatype Config = Config(n: nat, supply: nat -> nat, invalid: nat -> bool, single: nat, flags: nat)

  /** `calls` counts the allocator calls so far. */
  datatype Slots = Slots(br: seq<nat>, caps: nat, calls: nat)

  function Entry(c: Config, cap: nat): nat { Or(Or(cap, c.single), c.flags) }

  /** A receive item has the bits of the capability and of the marks, and no others. */
  lemma EntryBits(c: Config, cap: nat, bits: nat)
    ensures And(Entry(c, cap), bits) == 0 <==>
            And(cap, bits) == 0 && And(c.single, bits) == 0 && And(c.flags, bits) == 0
  {
    OrBits(cap, c.single, c.flags, bits);
  }

  /** Demand and capacity are compared as bytes, and the addition wraps around. */
  predicate TooLarge(c: Config, demand: nat) { (demand + 3) % 256 >= c.n % 256 }

  /** The next capability goes into the next slot. */
  function AddSlot(c: Config, m: Slots): Slots
    requires m.caps < |m.br|
  {
    Slots(m.br[m.caps := Entry(c, c.supply(m.calls))], m.caps + 1, m.calls + 1)
  }

  /** `Panics` is an index beyond the buffer; the state is then that before the access. */
  datatype AllocResult = Allocated | InvalidArg(demand: nat) | NoMem | Panics

  /** Allocate one slot at a time until the demand is met, the allocator fails or the buffer ends. */
  function Grow(c: Config, m: Slots, demand: nat): (r: Slots)
    ensures |r.br| == |m.br|
    decreases |m.br| - m.caps
  {
    if m.caps >= demand then m
    else if c.invalid(c.supply(m.calls)) then m.(calls := m.calls + 1)
    else if m.caps >= |m.br| then m
    else Grow(c, AddSlot(c, m), demand)
  }

  function Alloc(c: Config, m: Slots, demand: nat): Slots {
    if TooLarge(c, demand) then m else Grow(c, m, demand)
  }

  /** The usable ones among the first k capabilities offered. */
  function Harvest(c: Config, k: nat): seq<nat> {
    if k == 0 then []
    else Harvest(c, k - 1) + if c.invalid(c.supply(k - 1)) then [] else [c.supply(k - 1)]
  }

  /** The slots in use come first, one for each usable capability in the order in which
      they were offered; all others are empty. */
  ghost predicate Tidy(c: Config, m: Slots) {
    && |m.br| == c.n && m.caps <= c.n
    && m.caps == |Harvest(c, m.calls)|
    && (forall k :: 0 <= k < m.caps ==> m.br[k] == Entry(c, Harvest(c, m.calls)[k]))
    && (forall k :: m.caps <= k < |m.br| ==> m.br[k] == 0)
  }

  /** Four buffers stay free, among them one for the terminator. */
  predicate Spared(c: Config, m: Slots) { m.caps == 0 || m.caps + 4 <= c.n }

  /** Slots in use stay as they are. */
  ghost predicate Keeps(m: Slots, r: Slots) {
    m.caps <= r.caps <= |m.br| == |r.br| && r.br[..m.caps] == m.br[..m.caps]
  }

  lemma RefusedTidy(c: Config, m: Slots)
    requires Tidy(c, m) && c.invalid(c.supply(m.calls))
    ensures Tidy(c, m.(calls := m.calls + 1))
  {
    assert Harvest(c, m.calls + 1) == Harvest(c, m.calls);
  }

  lemma AddSlotTidy(c: Config, m: Slots)
    requires Tidy(c, m) && !c.invalid(c.supply(m.calls)) && m.caps < |m.br|
    ensures Tidy(c, AddSlot(c, m)) && Keeps(m, AddSlot(c, m))
  {
    assert Harvest(c, m.calls + 1) == Harvest(c, m.calls) + [c.supply(m.calls)];
  }

  lemma KeepsTransitive(a: Slots, b: Slots, c: Slots)
    requires Keeps(a, b) && Keeps(b, c)
    ensures Keeps(a, c)
  {
    assert c.br[..a.caps] == c.br[..b.caps][..a.caps] == b.br[..b.caps][..a.caps] == b.br[..a.caps];
  }

  lemma {:induction false} GrowKeeps(c: Config, m: Slots, demand: nat)
    requires Tidy(c, m)
    ensures var r := Grow(c, m, demand);
            && Tidy(c, r) && Keeps(m, r)
            && r.caps <= Max(m.caps, Min(demand, c.n))
            && (r.caps < Max(m.caps, Min(demand, c.n)) ==> r.calls > 0 && c.invalid(c.supply(r.calls - 1)))
    decreases |m.br| - m.caps
  {
    if m.caps < demand {
      if c.invalid(c.supply(m.calls)) {
        RefusedTidy(c, m);
      } else if m.caps < |m.br| {
        var m1 := AddSlot(c, m);
        AddSlotTidy(c, m);
        GrowKeeps(c, m1, demand);
        KeepsTransitive(m, m1, Grow(c, m1, demand));
      }
    }
  }

  /** The reserve of four is kept by an accepted demand of at most 252, and in a buffer of
      fewer than 256 slots by no other: from 253 on the addition wraps around and the check
      lets demands through that it should not. */
  lemma ReserveExactlyWhen(c: Config, demand: nat)
    requires demand <= 255 && !TooLarge(c, demand)
    ensures demand <= 252 ==> demand + 4 <= c.n
    ensures c.n <= 255 ==> (demand + 4 <= c.n <==> demand <= 252)
  {
  }

  /** Which demands are accepted: those that leave four slots free, and by mistake three more. */
  lemma AcceptedExactlyWhen(c: Config, demand: nat)
    requires demand <= 255 && c.n <= 255
    ensures !TooLarge(c, demand) <==> demand + 4 <= c.n || (demand >= 253 && demand - 253 < c.n)
  {
  }

  // ----- any sequence of demands

  function AllocAll(c: Config, m: Slots, demands: seq<nat>): Slots
    decreases demands
  {
    if demands == [] then m else AllocAll(c, Alloc(c, m, demands[0]), demands[1..])
  }

  /** The largest demand that is not refused. */
  function LargestAccepted(c: Config, demands: seq<nat>): nat
    decreases demands
  {
    if demands == [] then 0
    else Max(if TooLarge(c, demands[0]) then 0 else demands[0], LargestAccepted(c, demands[1..]))
  }

  lemma AllocKeeps(c: Config, m: Slots, demand: nat)
    requires Tidy(c, m)
    ensures var r := Alloc(c, m, demand);
            && Tidy(c, r) && Keeps(m, r)
            && ((forall k :: !c.invalid(c.supply(k))) ==>
                  r.caps == if TooLarge(c, demand) then m.caps else Max(m.caps, Min(demand, c.n)))
            && (Spared(c, m) && demand <= 252 ==> Spared(c, r))
            && (TooLarge(c, demand) || demand <= m.caps ==> r == m)
  {
    GrowKeeps(c, m, demand);
  }

  /** Receive-slot growth: over any sequence of demands and allocator failures the slots
      stay tidy and are never given up; if no call fails, their number is the largest
      accepted demand, as far as the buffer goes; and the reserve is kept if no demand
      is above 252. */
  lemma {:induction false} SlotsGrow(c: Config, m: Slots, demands: seq<nat>)
    requires Tidy(c, m)
    ensures var r := AllocAll(c, m, demands);
            && Tidy(c, r) && Keeps(m, r)
            && ((forall k :: !c.invalid(c.supply(k))) ==>
                  r.caps == Max(m.caps, Min(c.n, LargestAccepted(c, demands))))
            && (Spared(c, m) && (forall i :: 0 <= i < |demands| ==> demands[i] <= 252) ==> Spared(c, r))
    decreases demands
  {
    if demands != [] {
      var m1 := Alloc(c, m, demands[0]);
      AllocKeeps(c, m, demands[0]);
      SlotsGrow(c, m1, demands[1..]);
      KeepsTransitive(m, m1, AllocAll(c, m1, demands[1..]));
    }
  }

  // ----- taking a capability out of its slot

  /** A mask that leaves a capability alone and removes the marks of a receive item. */
  predicate Separates(c: Config, mask: nat, cap: nat) {
    And(cap, mask) == cap && And(c.single, mask) == 0 && And(c.flags, mask) == 0
  }

  lemma MaskedEntry(c: Config, mask: nat, cap: nat)
    requires Separates(c, mask, cap)
    ensures And(Entry(c, cap), mask) == cap
  {
    AndOverOr(Or(cap, c.single), c.flags, mask);
    AndOverOr(cap, c.single, mask);
  }

  // ----- the object

  /** What a call returns, seen from the slots before and after it: a capability was asked
      for in vain, or the buffer is full, or the demand is met and the terminator in place. */
  function Outcome(c: Config, m: Slots, r: Slots, demand: nat): AllocResult {
    if TooLarge(c, demand) then InvalidArg(demand)
    else if r.caps < demand && r.calls - m.calls > r.caps - m.caps then NoMem
    else if demand <= r.caps < c.n then Allocated
    else Panics
  }

  lemma {:induction false} GrowAsks(c: Config, m: Slots, demand: nat)
    requires Tidy(c, m)
    ensures var r := Grow(c, m, demand);
            && r.calls - m.calls >= r.caps - m.caps
            && (r.calls - m.calls == r.caps - m.caps ==> r.caps >= Min(demand, c.n))
            && (r.calls - m.calls > r.caps - m.caps ==>
                  r.caps < demand && r.calls > m.calls && c.invalid(c.supply(r.calls - 1)))
    decreases |m.br| - m.caps
  {
    if m.caps < demand && !c.invalid(c.supply(m.calls)) && m.caps < |m.br| {
      AddSlotTidy(c, m);
      GrowAsks(c, AddSlot(c, m), demand);
    }
  }

  /** The next `count` calls of the allocator succeed. */
  ghost predicate Supplies(c: Config, from: nat, count: int) {
    forall j :: from <= j < from + count ==> !c.invalid(c.supply(j))
  }

  /** How many calls it takes to meet the demand or, if there is no room for it, to leave the buffer. */
  function Needed(c: Config, m: Slots, demand: nat): int {
    if demand <= c.n then demand - m.caps else c.n - m.caps + 1
  }

  /** No call is in vain exactly if the allocator supplies what is needed. */
  lemma {:induction false} GrowSupplied(c: Config, m: Slots, demand: nat)
    requires Tidy(c, m)
    ensures var r := Grow(c, m, demand);
            r.calls - m.calls == r.caps - m.caps <==> Supplies(c, m.calls, Needed(c, m, demand))
    decreases |m.br| - m.caps
  {
    if m.caps < demand && !c.invalid(c.supply(m.calls)) && m.caps < |m.br| {
      var m1 := AddSlot(c, m);
      AddSlotTidy(c, m);
      GrowSupplied(c, m1, demand);
      assert Supplies(c, m.calls, Needed(c, m, demand)) <==> Supplies(c, m1.calls, Needed(c, m1, demand));
    }
  }

  /** An index leaves the buffer exactly if the demand is accepted, the slots in use or
      demanded fill the buffer, and the allocator does not fail before that. */
  lemma PanicsExactlyWhen(c: Config, m: Slots, demand: nat)
    requires Tidy(c, m)
    ensures Outcome(c, m, Alloc(c, m, demand), demand) == Panics <==>
            && !TooLarge(c, demand) && Max(m.caps, demand) >= c.n
            && Supplies(c, m.calls, Needed(c, m, demand))
  {
    GrowKeeps(c, m, demand);
    GrowAsks(c, m, demand);
    GrowSupplied(c, m, demand);
  }

  /** An allocator that never fails, and 58 slots. */
  const Endless := Config(58, k => k, _ => false, 0, 0)

  /** A demand of 253 is accepted there, and ends outside the buffer. */
  lemma {:induction false} WrappedDemandPanics()
    ensures var m := Slots(seq(58, _ => 0), 0, 0);
            Tidy(Endless, m) && Outcome(Endless, m, Alloc(Endless, m, 253), 253) == Panics
  {
    var m := Slots(seq(58, _ => 0), 0, 0);
    assert Harvest(Endless, 0) == [];
    PanicsExactlyWhen(Endless, m, 253);
  }

  /** 58 slots, and an allocator that fails only on its 59th call. */
  const OneFailure := Config(58, k => k, k => k == 58, 0, 0)

  lemma {:induction false} HarvestIs(k: nat)
    requires k <= 59
    ensures |Harvest(OneFailure, k)| == if k == 59 then 58 else k
  {
    if k > 0 { HarvestIs(k - 1); }
  }

  lemma {:induction false} FillsUp(m: Slots)
    requires m == Slots(seq(58, _ => 0), 0, 0)
    ensures var r := Alloc(OneFailure, m, 253);
            && Tidy(OneFailure, m) && Tidy(OneFailure, r) && Outcome(OneFailure, m, r, 253) == NoMem
            && r.calls == 59 && r.caps == 58
  {
    var c := OneFailure;
    assert Harvest(c, 0) == [];
    GrowKeeps(c, m, 253);
    GrowAsks(c, m, 253);
    GrowSupplied(c, m, 253);
    assert !Supplies(c, 0, 59) by { assert c.invalid(c.supply(58)); }
    HarvestIs(59);
  }

  /** A demand of 253 fills the buffer there and fails for want of memory; the next call,
      with a demand of 10, has nothing to allocate and puts the terminator outside. */
  lemma {:induction false} SmallDemandPanics()
    ensures var m := Slots(seq(58, _ => 0), 0, 0);
            var r := Alloc(OneFailure, m, 253);
            && Tidy(OneFailure, m) && Outcome(OneFailure, m, r, 253) == NoMem
            && Tidy(OneFailure, r) && Outcome(OneFailure, r, Alloc(OneFailure, r, 10), 10) == Panics
  {
    var m := Slots(seq(58, _ => 0), 0, 0);
    FillsUp(m);
    FullPanics(Alloc(OneFailure, m, 253));
  }

  lemma {:induction false} FullPanics(r: Slots)
    requires Tidy(OneFailure, r) && r.caps == 58
    ensures Outcome(OneFailure, r, Alloc(OneFailure, r, 10), 10) == Panics
  {
    PanicsExactlyWhen(OneFailure, r, 10);
  }

  /** While four slots are free, demands of up to 252 keep them free and every index inside. */
  lemma NoPanic(c: Config, m: Slots, demand: nat)
    requires Tidy(c, m) && Spared(c, m) && demand <= 252
    ensures Outcome(c, m, Alloc(c, m, demand), demand) != Panics && Spared(c, Alloc(c, m, demand))
  {
    PanicsExactlyWhen(c, m, demand);
    AllocKeeps(c, m, demand);
  }

  /** A manager that never gets a demand above 252 never leaves its buffer. */
  lemma NoRunPanics(c: Config, m: Slots, demands: seq<nat>, i: nat)
    requires Tidy(c, m) && Spared(c, m) && i < |demands|
    requires forall k :: 0 <= k <= i ==> demands[k] <= 252
    ensures var before := AllocAll(c, m, demands[..i]);
            Outcome(c, before, Alloc(c, before, demands[i]), demands[i]) != Panics
  {
    SlotsGrow(c, m, demands[..i]);
    NoPanic(c, AllocAll(c, m, demands[..i]), demands[i]);
  }

  class BufferManager {
    const c: Config
    const br: array<nat>
    var caps: nat
    var calls: nat

    ghost function View(): Slots
      reads this, br
    {
      Slots(br[..], caps, calls)
    }

    ghost predicate Valid()
      reads this, br
    {
      c.n == br.Length && Tidy(c, View())
    }

    constructor (c: Config)
      ensures Valid() && this.c == c && View() == Slots(seq(c.n, _ => 0), 0, 0)
    {
      this.c := c;
      this.br := new nat[c.n](_ => 0);
      this.caps, this.calls := 0, 0;
      new;
      assert br[..] == seq(c.n, _ => 0);
    }

    method AllocCapslots(demand: nat) returns (r: AllocResult)
      requires Valid() && demand <= 255
      modifies this`caps, this`calls, br
      ensures Valid() && View() == Alloc(c, old(View()), demand)
      ensures r == Outcome(c, old(View()), View(), demand)
    {
      if (demand + 3) % 256 >= br.Length % 256 {
        return InvalidArg(demand);
      }
      while demand > caps
        invariant Valid() && Grow(c, View(), demand) == Grow(c, old(View()), demand)
        invariant calls - caps == old(calls - caps)
        decreases br.Length - caps
      {
        var cap := c.supply(calls);
        if c.invalid(cap) {
          RefusedTidy(c, View());
          calls := calls + 1;
          return NoMem;
        }
        if caps >= br.Length {
          return Panics;
        }
        AddSlotTidy(c, View());
        PutSlot(cap);
      }
      if caps >= br.Length {
        return Panics;
      }
      assert br[..] == br[..][caps := 0];
      br[caps] := 0;
      r := Allocated;
    }

    /** Stores a capability as a receive item. */
    method PutSlot(cap: nat)
      requires caps < br.Length && cap == c.supply(calls)
      modifies this`caps, this`calls, br
      ensures View() == AddSlot(c, old(View()))
    {
      br[caps] := Or(Or(cap, c.single), c.flags);
      caps := caps + 1;
      calls := calls + 1;
    }

    /** A slot can be asked for exactly if it is allocated, and gives the capability that was
        put there, without the marks of a receive item. */
    method RcvCap(index: nat, capMask: nat) returns (found: bool, cap: nat)
      requires Valid()
      ensures found <==> index < |Harvest(c, calls)|
      ensures found && Separates(c, capMask, Harvest(c, calls)[index]) ==> cap == Harvest(c, calls)[index]
    {
      found := index < caps;
      cap := 0;
      if found {
        cap := And(br[index], capMask);
        assert br[index] == View().br[index];
        if Separates(c, capMask, Harvest(c, calls)[index]) { MaskedEntry(c, capMask, Harvest(c, calls)[index]); }
      }
    }
  }
}
