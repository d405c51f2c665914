/** Sums over the values of a finite map. */
module Sums {

  /** The sum of f over the values of m. */
  ghost function SumOver<K, V>(m: map<K, V>, f: V -> int): int
    decreases |m|
  {
    if m == map[] then 0
    else
      var k :| k in m;
      f(m[k]) + SumOver(m - {k}, f)
  }

  /** Any key can be taken out first. */
  lemma {:induction false} SumOverRemove<K, V>(m: map<K, V>, k: K, f: V -> int)
    requires k in m
    ensures SumOver(m, f) == f(m[k]) + SumOver(m - {k}, f)
    decreases |m|
  {
    var c :| c in m && SumOver(m, f) == f(m[c]) + SumOver(m - {c}, f);
    if c != k {
      SumOverRemove(m - {c}, k, f);
      SumOverRemove(m - {k}, c, f);
      assert m - {c} - {k} == m - {k} - {c};
    }
  }

  /** Changing one value changes the sum by the difference. */
  lemma SumOverUpdate<K, V>(m: map<K, V>, k: K, v: V, f: V -> int)
    ensures SumOver(m[k := v], f) == SumOver(m, f) - (if k in m then f(m[k]) else 0) + f(v)
  {
    SumOverRemove(m[k := v], k, f);
    assert m[k := v] - {k} == m - {k};
    if k in m {
      SumOverRemove(m, k, f);
    } else {
      assert m - {k} == m;
    }
  }

  /** Taking a key out takes its value out. */
  lemma SumOverDelete<K, V>(m: map<K, V>, k: K, f: V -> int)
    ensures SumOver(m - {k}, f) == SumOver(m, f) - (if k in m then f(m[k]) else 0)
  {
    if k in m {
      SumOverRemove(m, k, f);
    } else {
      assert m - {k} == m;
    }
  }

  /** Two maps over the same keys whose summands agree key by key. */
  lemma {:induction false} SumOverCongruence<K, V, W>(m: map<K, V>, f: V -> int, n: map<K, W>, g: W -> int)
    requires m.Keys == n.Keys && forall k :: k in m ==> f(m[k]) == g(n[k])
    ensures SumOver(m, f) == SumOver(n, g)
    decreases |m|
  {
    if m == map[] {
      assert n.Keys == {};
      assert n == map[];
    } else {
      var k :| k in m;
      SumOverRemove(m, k, f);
      SumOverRemove(n, k, g);
      SumOverCongruence(m - {k}, f, n - {k}, g);
    }
  }

  /** Sums of non-negative summands, and of summands bounded by others. */
  lemma {:induction false} SumOverMonotone<K, V>(m: map<K, V>, f: V -> int, g: V -> int)
    requires forall k :: k in m ==> f(m[k]) <= g(m[k])
    ensures SumOver(m, f) <= SumOver(m, g)
    decreases |m|
  {
    if m != map[] {
      var k :| k in m;
      SumOverRemove(m, k, f);
      SumOverRemove(m, k, g);
      SumOverMonotone(m - {k}, f, g);
    }
  }
}
