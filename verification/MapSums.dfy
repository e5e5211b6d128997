/** Sums over the entries of a finite map. */
module MapSums {
  import opened ByteStrings

  ghost function Total(w: map<Bytes, int>): (n: int)
    decreases |w|
  {
    if |w| == 0 then 0
    else
      var k :| k in w;
      w[k] + Total(w - {k})
  }

  lemma TotalUnfold(w: map<Bytes, int>) returns (j: Bytes)
    requires |w| > 0
    ensures j in w && Total(w) == w[j] + Total(w - {j})
  {
    j :| j in w && Total(w) == w[j] + Total(w - {j});
  }

  lemma RemoveSize<V>(w: map<Bytes, V>, k: Bytes)
    requires k in w
    ensures |w - {k}| == |w| - 1
  {
    assert (w - {k}).Keys == w.Keys - {k};
  }

  /** Any entry can be taken out first. */
  lemma {:induction false} TotalRemove(w: map<Bytes, int>, k: Bytes)
    requires k in w
    ensures Total(w) == w[k] + Total(w - {k})
    decreases |w|
  {
    hide *;
    RemoveSize(w, k);
    var j := TotalUnfold(w);
    RemoveSize(w, j);
    if j != k {
      TotalRemove(w - {j}, k);
      TotalRemove(w - {k}, j);
      assert w - {j} - {k} == w - {k} - {j};
    }
  }

  lemma TotalPut(w: map<Bytes, int>, k: Bytes, n: int)
    ensures Total(w[k := n]) == n + Total(w - {k})
    ensures k !in w ==> Total(w[k := n]) == n + Total(w)
    ensures k in w ==> Total(w[k := n]) == Total(w) - w[k] + n
  {
    hide *;
    var u := w[k := n];
    TotalRemove(u, k);
    assert u - {k} == w - {k};
    if k in w {
      TotalRemove(w, k);
    } else {
      assert w - {k} == w;
    }
  }

  lemma {:induction false} TotalNonNegative(w: map<Bytes, int>)
    requires forall k | k in w :: w[k] >= 0
    ensures Total(w) >= 0
    decreases |w|
  {
    if |w| > 0 {
      var k :| k in w;
      TotalRemove(w, k);
      RemoveSize(w, k);
      TotalNonNegative(w - {k});
    }
  }
}
