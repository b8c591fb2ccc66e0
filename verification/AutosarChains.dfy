/** Who waits for whom, through how many mutexes, and where the waiting ends. */
module AutosarChains {
  import opened Options
  import opened AutosarModel
  import opened AutosarConservation

  /** `x` waits for a mutex that `y` owns. */
  ghost predicate WaitsFor(s: State, x: nat, y: nat) {
    exists m :: x in Waiters(s, m) && Owner(s, m) == Some(y)
  }

  /** `hops` waits in a row lead from `x` to `y`. */
  ghost predicate Chain(s: State, x: nat, y: nat, hops: nat)
    decreases hops
  {
    if hops == 0 then x == y else exists z: nat :: WaitsFor(s, x, z) && Chain(s, z, y, hops - 1)
  }

  ghost predicate Leads(s: State, x: nat, y: nat) { exists hops: nat :: Chain(s, x, y, hops) }

  /** The task that will let `x` go on in the end, `e`, can itself go on. */
  ghost predicate EndsAt(s: State, x: nat, e: nat) { Runnable(s, e) && Leads(s, x, e) }

  ghost predicate Grounded(s: State, x: nat) { exists e: nat :: EndsAt(s, x, e) }

  /** Every wait ends at a runnable task: there is no cycle and no dead end. */
  ghost predicate Rooted(s: State) { forall x :: Placed(s, x) ==> Grounded(s, x) }

  // ----- one hop

  lemma OneHop(s: State, x: nat, y: nat)
    requires OnePlace(s) && WaitsFor(s, x, y)
    ensures Blocked(s, x) && !Runnable(s, x)
    ensures forall z :: WaitsFor(s, x, z) ==> z == y
  {
  }

  // ----- chains

  lemma FirstHop(s: State, x: nat, z: nat, y: nat, hops: nat)
    requires WaitsFor(s, x, z) && Chain(s, z, y, hops)
    ensures Chain(s, x, y, hops + 1)
  {
  }

  lemma LastHops(s: State, x: nat, y: nat, hops: nat) returns (z: nat)
    requires hops > 0 && Chain(s, x, y, hops)
    ensures WaitsFor(s, x, z) && Chain(s, z, y, hops - 1)
  {
    z :| WaitsFor(s, x, z) && Chain(s, z, y, hops - 1);
  }

  lemma HopLeads(s: State, x: nat, y: nat, z: nat)
    requires WaitsFor(s, x, y) && Leads(s, y, z)
    ensures Leads(s, x, z)
  {
    var k: nat :| Chain(s, y, z, k);
    FirstHop(s, x, y, z, k);
  }

  lemma {:induction false} HopsLead(s: State, x: nat, y: nat, z: nat, hops: nat)
    requires Chain(s, x, y, hops) && Leads(s, y, z)
    ensures Leads(s, x, z)
    decreases hops
  {
    if hops > 0 {
      var n := LastHops(s, x, y, hops);
      HopsLead(s, n, y, z, hops - 1);
      HopLeads(s, x, n, z);
    }
  }

  lemma LeadsOn(s: State, x: nat, y: nat, z: nat)
    requires Leads(s, x, y) && Leads(s, y, z)
    ensures Leads(s, x, z)
  {
    var j: nat :| Chain(s, x, y, j);
    HopsLead(s, x, y, z, j);
  }

  lemma WaitLeads(s: State, x: nat, y: nat)
    requires WaitsFor(s, x, y)
    ensures Leads(s, x, y)
  {
    FirstHop(s, x, y, y, 0);
  }

  /** From a given task there is one chain only, and a runnable task is its last link. */
  lemma {:induction false} OneEnd(s: State, x: nat, e: nat, j: nat, y: nat, k: nat)
    requires OnePlace(s) && Runnable(s, e) && Chain(s, x, e, j) && Chain(s, x, y, k)
    ensures k <= j && Chain(s, y, e, j - k)
    decreases k
  {
    if k > 0 {
      var z := LastHops(s, x, y, k);
      OneHop(s, x, z);
      OneEnd(s, z, e, j - 1, y, k - 1);
    }
  }

  lemma SameEnd(s: State, x: nat, e: nat, f: nat)
    requires OnePlace(s) && EndsAt(s, x, e) && EndsAt(s, x, f)
    ensures e == f
  {
    var j: nat :| Chain(s, x, e, j);
    var k: nat :| Chain(s, x, f, k);
    OneEnd(s, x, e, j, f, k);
    OneEnd(s, x, f, k, e, j);
  }

  /** Nobody in a rooted state waits, directly or not, for itself. */
  lemma NoCycle(s: State, x: nat, k: nat)
    requires OnePlace(s) && Grounded(s, x) && Chain(s, x, x, k)
    ensures k == 0
  {
    var e: nat :| EndsAt(s, x, e);
    var j: nat :| Chain(s, x, e, j);
    Circling(s, x, e, j, k);
  }

  lemma {:induction false} Circling(s: State, x: nat, e: nat, j: nat, k: nat)
    requires OnePlace(s) && Runnable(s, e) && Chain(s, x, e, j) && Chain(s, x, x, k)
    ensures k == 0
    decreases j
  {
    OneEnd(s, x, e, j, x, k);
    if k > 0 { Circling(s, x, e, j - k, k); }
  }

  lemma NotOwnWaiter(s: State, x: nat)
    requires OnePlace(s) && Rooted(s)
    ensures !WaitsFor(s, x, x)
  {
    if WaitsFor(s, x, x) {
      OneHop(s, x, x);
      FirstHop(s, x, x, x, 0);
      NoCycle(s, x, 1);
    }
  }

  // ----- what the operations do to chains

  /** Chains survive when no wait is lost. */
  lemma {:induction false} HopsGrow(s: State, r: State, x: nat, y: nat, hops: nat)
    requires Chain(s, x, y, hops)
    requires forall a, b :: WaitsFor(s, a, b) ==> WaitsFor(r, a, b)
    ensures Leads(r, x, y)
    decreases hops
  {
    if hops == 0 {
      assert Chain(r, x, y, 0);
    } else {
      var z := LastHops(s, x, y, hops);
      HopsGrow(s, r, z, y, hops - 1);
      HopLeads(r, x, z, y);
    }
  }

  lemma LeadsGrow(s: State, r: State, x: nat, y: nat)
    requires Leads(s, x, y)
    requires forall a, b :: WaitsFor(s, a, b) ==> WaitsFor(r, a, b)
    ensures Leads(r, x, y)
  {
    var k: nat :| Chain(s, x, y, k);
    HopsGrow(s, r, x, y, k);
  }

  /** More runnable tasks and the same waits. */
  lemma RootedFrame(s: State, r: State)
    requires Rooted(s)
    requires forall x, y :: WaitsFor(s, x, y) ==> WaitsFor(r, x, y)
    requires forall x :: Runnable(s, x) ==> Runnable(r, x)
    requires forall x :: Placed(r, x) ==> Placed(s, x) || Runnable(r, x)
    ensures Rooted(r)
  {
    forall x | Placed(r, x) ensures Grounded(r, x) {
      if Runnable(r, x) {
        RunnableGrounded(r, x);
      } else {
        var e: nat :| EndsAt(s, x, e);
        LeadsGrow(s, r, x, e);
        assert EndsAt(r, x, e);
      }
    }
  }

  lemma RunnableGrounded(s: State, x: nat)
    requires Runnable(s, x)
    ensures EndsAt(s, x, x) && Grounded(s, x)
  {
    assert Chain(s, x, x, 0);
    assert EndsAt(s, x, x);
  }

  // ----- a runnable task starts to wait

  /** `t` now waits for `o`; all other waits are as before. */
  ghost predicate Waits(s: State, r: State, t: nat, o: nat) {
    && (forall x, y :: WaitsFor(r, x, y) <==> WaitsFor(s, x, y) || (x == t && y == o))
    && (forall x :: Runnable(r, x) <==> Runnable(s, x) && x != t)
    && (forall x :: Placed(r, x) <==> Placed(s, x))
  }

  lemma MovedWaits(s: State, r: State, t: nat, m: nat, o: nat)
    requires Moved(s, r, t, m) && Runnable(s, t) && Owner(s, m) == Some(o)
    ensures Waits(s, r, t, o)
  {
    MovedPlaces(s, r, t, m);
    forall x, y ensures WaitsFor(r, x, y) <==> WaitsFor(s, x, y) || (x == t && y == o) {
      if WaitsFor(s, x, y) {
        var n: nat :| x in Waiters(s, n) && Owner(s, n) == Some(y);
        assert x in Waiters(r, n) && Owner(r, n) == Some(y);
      }
      if x == t && y == o { assert x in Waiters(r, m) && Owner(r, m) == Some(y); }
      if WaitsFor(r, x, y) {
        var n: nat :| x in Waiters(r, n) && Owner(r, n) == Some(y);
        assert x in Waiters(s, n) || (n == m && x == t);
      }
    }
  }

  /** The waits that ended at `t` now end where those of `o` end. */
  lemma WaitsGrounded(s: State, r: State, t: nat, o: nat, e: nat, x: nat)
    requires Waits(s, r, t, o) && EndsAt(s, o, e) && e != t && Grounded(s, x)
    ensures Grounded(r, x)
  {
    var f: nat :| EndsAt(s, x, f);
    LeadsGrow(s, r, x, f);
    if f == t {
      LeadsGrow(s, r, o, e);
      WaitLeads(r, t, o);
      LeadsOn(r, t, o, e);
      LeadsOn(r, x, t, e);
      assert EndsAt(r, x, e);
    } else {
      assert EndsAt(r, x, f);
    }
  }

  lemma WaitsRooted(s: State, r: State, t: nat, o: nat, e: nat)
    requires Rooted(s) && Waits(s, r, t, o) && EndsAt(s, o, e) && e != t
    ensures Rooted(r)
  {
    forall x | Placed(r, x) ensures Grounded(r, x) { WaitsGrounded(s, r, t, o, e, x); }
  }

  /** If the waits of `o` end at `t` itself, `t` closes a cycle. */
  lemma WaitsCloses(s: State, r: State, t: nat, o: nat)
    requires OnePlace(r) && Waits(s, r, t, o) && EndsAt(s, o, t)
    ensures Placed(r, t) && !Grounded(r, t)
  {
    assert WaitsFor(r, t, o);
    OneHop(r, t, o);
    LeadsGrow(s, r, o, t);
    var k: nat :| Chain(r, o, t, k);
    FirstHop(r, t, o, t, k);
    if Grounded(r, t) { NoCycle(r, t, k + 1); }
  }

  // ----- a mutex is handed over

  /** The waiters of `m` now wait for the first of them, which is runnable. */
  lemma TransferredRooted(s: State, r: State, q: State, t: nat, m: nat)
    requires OnePlace(s) && Rooted(s) && Transferred(s, r, m) && Owner(s, m) == Some(t)
    requires q.mutexes == r.mutexes && forall x :: Runnable(q, x) <==> Runnable(r, x)
    ensures Rooted(q)
  {
    assert forall n :: Owner(q, n) == Owner(r, n) && Waiters(q, n) == Waiters(r, n);
    TransferredPlaces(s, r, m);
    assert forall x :: Blocked(q, x) ==> Blocked(r, x) by {
      forall x | Blocked(q, x) ensures Blocked(r, x) { var n: nat :| x in Waiters(q, n); assert x in Waiters(r, n); }
    }
    forall x | Placed(q, x) ensures Grounded(q, x) {
      assert Placed(r, x) && Placed(s, x);
      assert Grounded(s, x);
      var e: nat :| EndsAt(s, x, e);
      var k: nat :| Chain(s, x, e, k);
      HopsTransferred(s, r, q, m, x, e, k);
    }
  }

  /** Who still waits does so for the same owner or for a runnable one. */
  lemma HopTransferred(s: State, r: State, q: State, m: nat, x: nat, z: nat) returns (y: nat)
    requires Transferred(s, r, m) && WaitsFor(s, x, z) && !Runnable(q, x)
    requires forall n :: Owner(q, n) == Owner(r, n) && Waiters(q, n) == Waiters(r, n)
    requires forall y :: Runnable(q, y) <==> Runnable(r, y)
    ensures WaitsFor(q, x, y) && (y == z || Runnable(q, y))
  {
    var n :| x in Waiters(s, n) && Owner(s, n) == Some(z);
    assert x in Waiters(q, n);
    y := Owner(q, n).value;
  }

  lemma {:induction false} HopsTransferred(s: State, r: State, q: State, m: nat, x: nat, e: nat, k: nat)
    requires Transferred(s, r, m) && Runnable(s, e) && Chain(s, x, e, k)
    requires forall n :: Owner(q, n) == Owner(r, n) && Waiters(q, n) == Waiters(r, n)
    requires forall y :: Runnable(q, y) <==> Runnable(r, y)
    ensures Grounded(q, x)
    decreases k
  {
    if Runnable(q, x) {
      RunnableGrounded(q, x);
    } else {
      assert x != e;
      var z := LastHops(s, x, e, k);
      var y := HopTransferred(s, r, q, m, x, z);
      if Runnable(q, y) {
        RunnableGrounded(q, y);
      } else {
        HopsTransferred(s, r, q, m, z, e, k - 1);
      }
      var f: nat :| EndsAt(q, y, f);
      HopLeads(q, x, y, f);
      assert EndsAt(q, x, f);
    }
  }
}
