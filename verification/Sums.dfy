/** Sums over finite maps, used for balances, deficits and the transaction table. */
module Sums {

  ghost function Pick<V>(m: map<string, V>): (k: string)
    requires m.Keys != {}
    ensures k in m
  {
    var k :| k in m.Keys; k
  }

  /** The sum of all values of a finite map. */
  ghost function Sum(m: map<string, int>): int
    decreases |m|
  {
    if m.Keys == {} then 0
    else
      var k := Pick(m);
      m[k] + Sum(m - {k})
  }

  /** The order in which entries are summed does not matter. */
  lemma {:induction false} SumRemove(m: map<string, int>, k: string)
    requires k in m
    ensures Sum(m) == m[k] + Sum(m - {k})
    decreases |m|
  {
    var j := Pick(m);
    if j != k {
      SumRemove(m - {j}, k);
      SumRemove(m - {k}, j);
      assert m - {j} - {k} == m - {k} - {j};
    }
  }

  lemma SumInsert(m: map<string, int>, k: string, v: int)
    requires k !in m
    ensures Sum(m[k := v]) == Sum(m) + v
  {
    SumRemove(m[k := v], k);
    assert m[k := v] - {k} == m;
  }

  lemma SumUpdate(m: map<string, int>, k: string, v: int)
    requires k in m
    ensures Sum(m[k := v]) == Sum(m) - m[k] + v
  {
    SumRemove(m, k);
    SumRemove(m[k := v], k);
    assert m[k := v] - {k} == m - {k};
  }

  /** With non-negative values, a smaller map has a smaller sum. */
  lemma {:induction false} SumMonotone(a: map<string, int>, b: map<string, int>)
    requires forall k | k in a :: k in b && a[k] == b[k]
    requires forall k | k in b :: b[k] >= 0
    ensures 0 <= Sum(a) <= Sum(b)
    decreases |b|
  {
    if b.Keys == {} {
      assert a.Keys == {};
    } else {
      var k := Pick(b);
      if k in a {
        SumRemove(a, k);
        SumMonotone(a - {k}, b - {k});
      } else {
        SumMonotone(a, b - {k});
      }
    }
  }

  lemma {:induction false} SumZero(m: map<string, int>)
    requires forall k | k in m :: m[k] == 0
    ensures Sum(m) == 0
    decreases |m|
  {
    if m.Keys != {} {
      SumZero(m - {Pick(m)});
    }
  }
}
