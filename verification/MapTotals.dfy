/** Sums over the entries of a finite map, independent of the order in which they are visited. */
module MapTotals {

  ghost function Total<K, V>(m: map<K, V>, f: V -> int): int
    decreases |m|
  {
    if m == map[] then 0
    else
      var k :| k in m;
      f(m[k]) + Total(m - {k}, f)
  }

  lemma {:induction false} TotalWithout<K, V>(m: map<K, V>, f: V -> int, k: K)
    requires k in m
    ensures Total(m, f) == f(m[k]) + Total(m - {k}, f)
    decreases |m|
  {
    var j :| j in m && Total(m, f) == f(m[j]) + Total(m - {j}, f);
    if j != k {
      TotalWithout(m - {j}, f, k);
      TotalWithout(m - {k}, f, j);
      assert m - {j} - {k} == m - {k} - {j};
    }
  }

  lemma {:induction false} TotalUpdate<K, V>(m: map<K, V>, f: V -> int, k: K, v: V)
    ensures Total(m[k := v], f) == Total(m, f) + f(v) - if k in m then f(m[k]) else 0
  {
    TotalWithout(m[k := v], f, k);
    assert m[k := v] - {k} == m - {k};
    if k in m {
      TotalWithout(m, f, k);
    } else {
      assert m - {k} == m;
    }
  }

  /** The sum depends only on what `f` sees. */
  lemma {:induction false} TotalSame<K, V>(m: map<K, V>, m': map<K, V>, f: V -> int)
    requires m.Keys == m'.Keys && forall k | k in m :: f(m[k]) == f(m'[k])
    ensures Total(m, f) == Total(m', f)
    decreases |m|
  {
    if m == map[] {
      assert m' == map[];
    } else {
      var k :| k in m;
      TotalWithout(m, f, k);
      TotalWithout(m', f, k);
      TotalSame(m - {k}, m' - {k}, f);
    }
  }

  ghost function Ones<K, V>(m: map<K, V>, f: V -> int): set<K> { set k | k in m && f(m[k]) == 1 }

  /** A sum of zeros and ones counts the ones. */
  lemma {:induction false} TotalCounts<K, V>(m: map<K, V>, f: V -> int)
    requires forall k | k in m :: f(m[k]) == 0 || f(m[k]) == 1
    ensures Total(m, f) == |Ones(m, f)|
    decreases |m|
  {
    if m == map[] {
      assert Ones(m, f) == {};
    } else {
      var k :| k in m;
      TotalWithout(m, f, k);
      TotalCounts(m - {k}, f);
      OnesWithout(m, f, k);
    }
  }

  lemma {:induction false} OnesWithout<K, V>(m: map<K, V>, f: V -> int, k: K)
    requires k in m
    ensures |Ones(m, f)| == |Ones(m - {k}, f)| + if f(m[k]) == 1 then 1 else 0
  {
    var less := Ones(m - {k}, f);
    assert forall j | j in less :: j in m && j != k && (m - {k})[j] == m[j];
    assert Ones(m, f) == if f(m[k]) == 1 then less + {k} else less;
  }
}
