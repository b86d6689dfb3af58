/** Sums of weights over finite maps and sets, in any order. */
module Sums {

  ghost function Sum<K, V>(m: map<K, V>, w: (K, V) -> nat): nat
    decreases |m|
  {
    if m == map[] then 0
    else
      var k :| k in m;
      assert |m - {k}| < |m| by { Smaller(m, k); }
      w(k, m[k]) + Sum(m - {k}, w)
  }

  lemma Smaller<K, V>(m: map<K, V>, k: K)
    requires k in m
    ensures |m - {k}| == |m| - 1
  {
    assert (m - {k}).Keys == m.Keys - {k};
    assert |(m - {k}).Keys| == |m.Keys| - 1;
  }

  /** Any key may be taken out first. */
  lemma {:induction false} SumRemove<K, V>(m: map<K, V>, k: K, w: (K, V) -> nat)
    requires k in m
    ensures Sum(m, w) == w(k, m[k]) + Sum(m - {k}, w)
    decreases |m|
  {
    var j :| j in m && Sum(m, w) == w(j, m[j]) + Sum(m - {j}, w);
    if j != k {
      Smaller(m, j);
      Smaller(m, k);
      SumRemove(m - {j}, k, w);
      SumRemove(m - {k}, j, w);
      assert m - {j} - {k} == m - {k} - {j};
    }
  }

  lemma SumAdd<K, V>(m: map<K, V>, k: K, v: V, w: (K, V) -> nat)
    requires k !in m
    ensures Sum(m[k := v], w) == Sum(m, w) + w(k, v)
  {
    SumRemove(m[k := v], k, w);
    assert m[k := v] - {k} == m;
  }

  /** Changing or adding one entry changes the sum by the difference. */
  lemma SumUpdate<K, V>(m: map<K, V>, k: K, v: V, w: (K, V) -> nat)
    ensures Sum(m[k := v], w) == Sum(m, w) + w(k, v) - (if k in m then w(k, m[k]) else 0)
  {
    if k in m {
      SumRemove(m, k, w);
      SumAdd(m - {k}, k, v, w);
      assert (m - {k})[k := v] == m[k := v];
    } else {
      SumAdd(m, k, v, w);
    }
  }

  ghost function SetSum<K>(s: set<K>, w: K -> nat): nat {
    if s == {} then 0
    else
      var k :| k in s;
      w(k) + SetSum(s - {k}, w)
  }

  /** Any member may be taken out first. */
  lemma {:induction false} SetSumRemove<K>(s: set<K>, k: K, w: K -> nat)
    requires k in s
    ensures SetSum(s, w) == w(k) + SetSum(s - {k}, w)
    decreases |s|
  {
    var j :| j in s && SetSum(s, w) == w(j) + SetSum(s - {j}, w);
    if j != k {
      SetSumRemove(s - {j}, k, w);
      SetSumRemove(s - {k}, j, w);
      assert s - {j} - {k} == s - {k} - {j};
    }
  }
}
