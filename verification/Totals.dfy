/** Sums over the values of a map: what a running total is a recount of. */
module Totals {

  ghost function Sum(m: map<string, int>): int {
    if m == map[] then 0
    else
      var k :| k in m;
      m[k] + Sum(m - {k})
  }

  /** The sum does not depend on which key is taken first. */
  lemma {:induction false} SumTake(m: map<string, int>, k: string)
    requires k in m
    ensures Sum(m) == m[k] + Sum(m - {k})
    decreases |m|
  {
    var j :| j in m && Sum(m) == m[j] + Sum(m - {j});
    if j != k {
      SumTake(m - {j}, k);
      SumTake(m - {k}, j);
      assert m - {j} - {k} == m - {k} - {j};
    }
  }

  lemma SumSet(m: map<string, int>, k: string, v: int)
    ensures Sum(m[k := v]) == Sum(m) - (if k in m then m[k] else 0) + v
  {
    SumTake(m[k := v], k);
    assert m[k := v] - {k} == m - {k};
    if k in m {
      SumTake(m, k);
    } else {
      assert m - {k} == m;
    }
  }

  lemma SumDrop(m: map<string, int>, k: string)
    ensures Sum(m - {k}) == Sum(m) - (if k in m then m[k] else 0)
  {
    if k in m {
      SumTake(m, k);
    } else {
      assert m - {k} == m;
    }
  }

  /** A sum of values that are not negative is no less than any of them. */
  lemma {:induction false} SumCovers(m: map<string, int>, k: string)
    requires forall j :: j in m ==> m[j] >= 0
    ensures Sum(m) >= 0
    ensures k in m ==> Sum(m) >= m[k]
    decreases |m|
  {
    if m != map[] {
      var j :| j in m && Sum(m) == m[j] + Sum(m - {j});
      SumCovers(m - {j}, k);
    }
  }
}
