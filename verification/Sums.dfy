/** Adding up the values of a map over a set of keys, in whatever order. */
module Sums {
  function At<K>(m: map<K, nat>, k: K): nat {
    if k in m then m[k] else 0
  }

  /** Keys that are not in the map count nothing. */
  ghost function Sum<K>(m: map<K, nat>, ks: set<K>): nat {
    if ks == {} then 0
    else
      var k :| k in ks;
      At(m, k) + Sum(m, ks - {k})
  }

  lemma {:induction false} SumTake<K>(m: map<K, nat>, ks: set<K>, k: K)
    requires k in ks
    ensures Sum(m, ks) == At(m, k) + Sum(m, ks - {k})
    decreases ks
  {
    var j :| j in ks && Sum(m, ks) == At(m, j) + Sum(m, ks - {j});
    if j != k {
      SumTake(m, ks - {j}, k);
      SumTake(m, ks - {k}, j);
      assert ks - {j} - {k} == ks - {k} - {j};
    }
  }

  lemma {:induction false} SumAgree<K>(m: map<K, nat>, m': map<K, nat>, ks: set<K>)
    requires forall k | k in ks :: At(m, k) == At(m', k)
    ensures Sum(m, ks) == Sum(m', ks)
    decreases ks
  {
    if ks != {} {
      var k :| k in ks;
      SumTake(m, ks, k);
      SumTake(m', ks, k);
      SumAgree(m, m', ks - {k});
    }
  }

  ghost function Total<K>(m: map<K, nat>): nat {
    Sum(m, m.Keys)
  }

  lemma TotalWithout<K>(m: map<K, nat>, k: K)
    ensures Total(m - {k}) == Sum(m, m.Keys - {k})
  {
    assert (m - {k}).Keys == m.Keys - {k};
    SumAgree(m, m - {k}, m.Keys - {k});
  }

  lemma TotalWith<K>(m: map<K, nat>, k: K, v: nat)
    ensures Total(m[k := v]) == v + Sum(m, m.Keys - {k})
  {
    var m' := m[k := v];
    assert m'.Keys == m.Keys + {k} && m'.Keys - {k} == m.Keys - {k};
    SumTake(m', m'.Keys, k);
    SumAgree(m, m', m.Keys - {k});
  }

  /** One value changes, and the total with it. */
  lemma TotalChange<K>(m: map<K, nat>, k: K, v: nat)
    ensures Total(m[k := v]) == Total(m) - At(m, k) + v
  {
    TotalWith(m, k, v);
    if k in m {
      SumTake(m, m.Keys, k);
    } else {
      assert m.Keys - {k} == m.Keys;
    }
  }

  lemma {:induction false} SumMonotone<K>(m: map<K, nat>, ks: set<K>, ls: set<K>)
    requires ks <= ls
    ensures Sum(m, ks) <= Sum(m, ls)
    decreases ls
  {
    if ks != ls {
      var k :| k in ls && k !in ks;
      SumTake(m, ls, k);
      SumMonotone(m, ks, ls - {k});
    }
  }

  lemma {:induction false} OnlyKeysCount<K>(m: map<K, nat>, ks: set<K>)
    ensures Sum(m, ks) == Sum(m, ks * m.Keys)
    decreases ks
  {
    if k :| k in ks && k !in m {
      SumTake(m, ks, k);
      OnlyKeysCount(m, ks - {k});
      assert (ks - {k}) * m.Keys == ks * m.Keys;
    } else {
      assert ks * m.Keys == ks;
    }
  }
}
