/** The summed size of the values of a finite map, independent of the order of summation. */
module Totals {

  ghost function PickKey<K, V>(m: map<K, V>): (k: K)
    requires |m| > 0
    ensures k in m
  {
    var k :| k in m; k
  }

  ghost function Total<K, V>(m: map<K, V>, size: V -> nat): nat
    decreases |m|
  {
    if |m| == 0 then 0 else size(m[PickKey(m)]) + Total(m - {PickKey(m)}, size)
  }

  /** Any key may be taken out first. */
  lemma {:induction false} TotalSplit<K, V>(m: map<K, V>, size: V -> nat, k: K)
    requires k in m
    ensures Total(m, size) == size(m[k]) + Total(m - {k}, size)
    decreases |m|
  {
    var j := PickKey(m);
    if j != k {
      TotalSplit(m - {j}, size, k);
      TotalSplit(m - {k}, size, j);
      assert m - {j} - {k} == m - {k} - {j};
    }
  }

  lemma TotalAdd<K, V>(m: map<K, V>, size: V -> nat, k: K, v: V)
    requires k !in m
    ensures Total(m[k := v], size) == Total(m, size) + size(v)
  {
    TotalSplit(m[k := v], size, k);
    assert m[k := v] - {k} == m;
  }

  lemma TotalReplace<K, V>(m: map<K, V>, size: V -> nat, k: K, v: V)
    requires k in m
    ensures Total(m[k := v], size) + size(m[k]) == Total(m, size) + size(v)
  {
    TotalSplit(m, size, k);
    TotalSplit(m[k := v], size, k);
    assert m[k := v] - {k} == m - {k};
  }

  lemma {:induction false} TotalSubmap<K, V>(small: map<K, V>, big: map<K, V>, size: V -> nat)
    requires small.Keys <= big.Keys && forall k <- small :: small[k] == big[k]
    ensures Total(small, size) <= Total(big, size)
    decreases |small|
  {
    if |small| == 0 {
    } else {
      var k := PickKey(small);
      TotalSplit(big, size, k);
      TotalSubmap(small - {k}, big - {k}, size);
    }
  }
}
