/** Sums over finite tables. */
module Totals {

  ghost function Total(m: map<nat, nat>): nat
    decreases |m|
  {
    if m == map[] then 0
    else
      var k :| k in m;
      m[k] + Total(m - {k})
  }

  /** The sum does not depend on the order in which keys are taken. */
  lemma {:induction false} TotalRemove(m: map<nat, nat>, k: nat)
    requires k in m
    ensures Total(m) == m[k] + Total(m - {k})
    decreases |m|
  {
    var j :| j in m && Total(m) == m[j] + Total(m - {j});
    if j != k {
      TotalRemove(m - {j}, k);
      TotalRemove(m - {k}, j);
      assert m - {j} - {k} == m - {k} - {j};
    }
  }

  lemma TotalUpdate(m: map<nat, nat>, k: nat, v: nat)
    ensures Total(m[k := v]) == v + Total(m - {k})
  {
    TotalRemove(m[k := v], k);
    assert m[k := v] - {k} == m - {k};
  }
}
