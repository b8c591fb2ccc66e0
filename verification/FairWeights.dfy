/** What a weight is worth: the share of a task depends on `Inc(weight)` alone. */
module FairWeights {
  import opened Options
  import opened ReadyList
  import opened FairModel
  import opened FairRuns
  import opened FairLag

  lemma Factor(k: int, d: nat, n: int)
    requires k * d < (n + 1) * d
    ensures k <= n
  {
  }

  /** From equal prices per tick: virtual times within a quota, runtimes within a slice. */
  lemma SamePrice(ra: nat, rb: nat, slice: nat, inc: nat)
    requires inc >= 1 && ra * inc - rb * inc <= slice * inc
    ensures ra <= rb + slice
  {
    assert (rb + slice + 1) * inc == rb * inc + slice * inc + inc;
    Factor(ra, inc, rb + slice);
  }

  lemma Times(x: int, y: int, d: int)
    ensures (x - y) * d == x * d - y * d && (x + y) * d == x * d + y * d
  {
  }

  lemma AtMost(x: nat, a: nat, b: nat)
    requires a <= b
    ensures x * a <= x * b && a * x <= b * x
  {
  }

  /** A dearer tick: what `b` cannot afford beyond its slice goes to `a`. */
  lemma DearerTicks(ra: nat, k: nat, ia: nat, ib: nat)
    requires ia < ib && k * ib <= ra * ia
    ensures k * ia + k <= ra * ia
  {
    AtMost(k, ia + 1, ib);
    Times(ia, 1, k);
  }

  lemma DearerPrice(ra: nat, rb: nat, slice: nat, ia: nat, ib: nat)
    requires 1 <= ia < ib && rb * ib - ra * ia <= slice * ib
    ensures (ra - rb) * ia >= rb - slice * (ia + 1)
  {
    Times(ra, rb, ia);
    Times(ia, 1, slice);
    if rb >= slice {
      Times(rb, slice, ib);
      Times(rb, slice, ia);
      DearerTicks(ra, rb - slice, ia, ib);
    } else {
      AtMost(ia, rb, slice);
    }
  }

  lemma Lead(ra: nat, rb: nat, slice: nat, ia: nat)
    requires ia >= 1 && (ra - rb) * ia >= rb - slice * (ia + 1) > 0
    ensures ra > rb
  {
  }

  /** Tasks whose ticks are worth the same get the same time for ever, up to one slice,
      whatever their weights. */
  lemma EqualIncrementsEqualTime(find: Search, setup: seq<Call>, rest: seq<Call>, a: nat, b: nat)
    requires FindsSlot(find) && Legal(find, Initial, setup + rest) && Ticks !in setup
    requires Wakes(a) in setup && Wakes(b) in setup
    ensures var s := Run(find, Initial, setup + rest);
            && a in s.tasks && b in s.tasks && s.tasks[a].weight > 0 && s.tasks[b].weight > 0
            && (Inc(s.tasks[a].weight) == Inc(s.tasks[b].weight) ==>
                  && s.tasks[a].runtime <= s.tasks[b].runtime + Slice(s.tasks[a].weight)
                  && s.tasks[b].runtime <= s.tasks[a].runtime + Slice(s.tasks[b].weight))
  {
    FairShares(find, setup, rest, a, b);
    var s := Run(find, Initial, setup + rest);
    var ta, tb := s.tasks[a], s.tasks[b];
    if Inc(ta.weight) == Inc(tb.weight) {
      SamePrice(ta.runtime, tb.runtime, ta.slice, Inc(ta.weight));
      SamePrice(tb.runtime, ta.runtime, tb.slice, Inc(tb.weight));
    }
  }

  /** Otherwise the task with the smaller increment pulls away: its lead grows with the
      time the other one gets, and it is ahead for good once the other has run long enough. */
  lemma SmallerIncrementGetsMore(find: Search, setup: seq<Call>, rest: seq<Call>, a: nat, b: nat)
    requires FindsSlot(find) && Legal(find, Initial, setup + rest) && Ticks !in setup
    requires Wakes(a) in setup && Wakes(b) in setup
    ensures var s := Run(find, Initial, setup + rest);
            && a in s.tasks && b in s.tasks && s.tasks[a].weight > 0 && s.tasks[b].weight > 0
            && var ia, ra, rb := Inc(s.tasks[a].weight), s.tasks[a].runtime, s.tasks[b].runtime;
               ia < Inc(s.tasks[b].weight) ==>
                 && (ra - rb) * ia >= rb - Slice(s.tasks[b].weight) * (ia + 1)
                 && (rb > Slice(s.tasks[b].weight) * (ia + 1) ==> ra > rb)
  {
    FairShares(find, setup, rest, a, b);
    var s := Run(find, Initial, setup + rest);
    var ta, tb := s.tasks[a], s.tasks[b];
    var ia, ib := Inc(ta.weight), Inc(tb.weight);
    if ia < ib {
      DearerPrice(ta.runtime, tb.runtime, tb.slice, ia, ib);
      if tb.runtime > tb.slice * (ia + 1) { Lead(ta.runtime, tb.runtime, tb.slice, ia); }
    }
  }

  /** Which weights are worth the same: increments fall, in steps, to 1 above 512. */
  lemma IncrementSteps(v: nat, w: nat)
    requires 0 < v <= w
    ensures Inc(w) <= Inc(v)
    ensures Inc(w) == 1 <==> w > 512
    ensures Inc(v) == Inc(w) <==> v > 512 || 1024 / v == 1024 / w
  {
    assert 1024 / w <= 1024 / v by { Quotients(v, w); }
    HeavyIncrement(v);
    HeavyIncrement(w);
  }

  lemma QuotientAtLeast(x: nat, d: nat, q: nat)
    requires d > 0 && q * d <= x
    ensures q <= x / d
  {
    assert (x / d + 1) * d == x / d * d + d;
    Factor(q, d, x / d);
  }

  lemma Quotients(v: nat, w: nat)
    requires 0 < v <= w
    ensures 1024 / w <= 1024 / v
  {
    var q := 1024 / w;
    AtMost(q, v, w);
    assert q * w <= 1024;
    QuotientAtLeast(1024, v, q);
  }

  lemma HeavyIncrement(w: nat)
    requires w > 0
    ensures w > 512 ==> 1024 / w <= 1
    ensures w <= 512 ==> 1024 / w >= 2
  {
    if w <= 512 {
      QuotientAtLeast(1024, w, 2);
    } else {
      assert 1024 / w * w <= 1024 < 2 * w;
      Factor(1024 / w, w, 1);
    }
  }

  /** Above a weight of 512 all tasks share equally. */
  lemma HeavyTasksGetEqualTime(find: Search, setup: seq<Call>, rest: seq<Call>, a: nat, b: nat)
    requires FindsSlot(find) && Legal(find, Initial, setup + rest) && Ticks !in setup
    requires Wakes(a) in setup && Wakes(b) in setup
    ensures var s := Run(find, Initial, setup + rest);
            && a in s.tasks && b in s.tasks
            && (s.tasks[a].weight > 512 && s.tasks[b].weight > 512 ==>
                  && s.tasks[a].runtime <= s.tasks[b].runtime + Slice(s.tasks[a].weight)
                  && s.tasks[b].runtime <= s.tasks[a].runtime + Slice(s.tasks[b].weight))
  {
    EqualIncrementsEqualTime(find, setup, rest, a, b);
    var s := Run(find, Initial, setup + rest);
    HeavyIncrement(s.tasks[a].weight);
    HeavyIncrement(s.tasks[b].weight);
  }

  /** Two tasks of weight 1024 differ by at most 5 ticks. */
  lemma EqualTasksGetEqualTime(find: Search, setup: seq<Call>, rest: seq<Call>, a: nat, b: nat)
    requires FindsSlot(find) && Legal(find, Initial, setup + rest) && Ticks !in setup
    requires Wakes(a) in setup && Wakes(b) in setup
    ensures var s := Run(find, Initial, setup + rest);
            && a in s.tasks && b in s.tasks
            && (s.tasks[a].weight == s.tasks[b].weight == 1024 ==>
                  && s.tasks[a].runtime <= s.tasks[b].runtime + 5
                  && s.tasks[b].runtime <= s.tasks[a].runtime + 5)
  {
    HeavyTasksGetEqualTime(find, setup, rest, a, b);
  }

  // ----- a heavier task that is behind

  const Setup := [Adds(1, 2048, 0), Adds(2, 1024, 0), Wakes(2), Wakes(1)]

  function Table(r2: nat): TaskTable
    requires r2 <= 5
  {
    map[1 := Task(2048, 0, 0, 0, 10, 10), 2 := Task(1024, r2, r2, 0, 5, 5 - r2)]
  }

  lemma OneCall(find: Search, s: State, c: Call, rest: seq<Call>)
    ensures Run(find, s, [c] + rest) == Run(find, After(find, s, c), rest)
    ensures Legal(find, s, [c] + rest) <==> Permitted(s, c) && Legal(find, After(find, s, c), rest)
  {
  }

  lemma SetupRuns(find: Search, rest: seq<Call>)
    requires FindsSlot(find)
    ensures Run(find, Initial, Setup + rest) == Run(find, State(Table(0), [1], Some(2)), rest)
    ensures Legal(find, Initial, Setup + rest) <==> Legal(find, State(Table(0), [1], Some(2)), rest)
  {
    var s1 := AddTask(Initial, 1, 2048, 0);
    var s2 := State(Table(0), [], None);
    var s3 := State(Table(0), [], Some(2));
    var r3 := [Wakes(1)] + rest;
    var r2 := [Wakes(2)] + r3;
    var r1 := [Adds(2, 1024, 0)] + r2;
    assert Setup + rest == [Adds(1, 2048, 0)] + r1;
    OneCall(find, Initial, Adds(1, 2048, 0), r1);
    assert AddTask(s1, 2, 1024, 0) == s2;
    OneCall(find, s1, Adds(2, 1024, 0), r2);
    assert Refill(Table(0), 2) == Table(0);
    assert MakeReady(find, s2, 2) == s3;
    OneCall(find, s2, Wakes(2), r3);
    assert MakeReady(find, s3, 1) == State(Table(0), [1], Some(2));
    OneCall(find, s3, Wakes(1), rest);
  }

  /** After one tick the lighter of two tasks has run and the heavier has not. */
  lemma HeavierCanBeBehind(find: Search)
    requires FindsSlot(find)
    ensures var s := Run(find, Initial, Setup + [Ticks]);
            && Legal(find, Initial, Setup + [Ticks]) && 1 in s.tasks && 2 in s.tasks
            && s.tasks[1].weight > s.tasks[2].weight && s.tasks[1].runtime < s.tasks[2].runtime
  {
    var s := State(Table(0), [1], Some(2));
    SetupRuns(find, [Ticks]);
    OneCall(find, s, Ticks, []);
    assert [Ticks] + [] == [Ticks];
    assert Charge(s.tasks[2]) == Table(1)[2];
  }
}
