/** Replication laws of a key-value store whose writes carry timestamps. */
module Convergence {
  import opened ByteStrings
  import opened TimedMap
  import opened PMapSpec
  import opened PMapRuns
  import opened PMapHistory

  // Last writer wins: replicas that receive the same writes converge.

  ghost predicate OnlySets(ws: seq<Op>)
  {
    forall i | 0 <= i < |ws| :: ws[i].Set?
  }

  /** No two different writes of a key carry the same time. */
  ghost predicate DistinctTimes(ws: seq<Op>)
  {
    forall w, u | w in ws && u in ws && w.key == u.key && Time(w.value) == Time(u.value) :: w == u
  }

  /** m holds, for each written key, a write of that key no other write of the key is later than. */
  ghost predicate HoldsLatest(m: Dict, ws: seq<Op>)
  {
    && (forall k | k in m :: Op.Set(k, m[k]) in ws && |m[k]| >= 8)
    && (forall w | w in ws && |w.value| >= 8 :: w.key in m && Time(w.value) <= Time(m[w.key]))
  }

  lemma {:induction false} SetsHoldLatest(hash: Hash, ws: seq<Op>)
    requires OnlySets(ws)
    ensures HoldsLatest(DictRun(hash, map[], ws), ws)
  {
    hide Time;
    if ws != [] {
      var init, w := ws[..|ws| - 1], ws[|ws| - 1];
      SetsHoldLatest(hash, init);
      assert ws == init + [w];
    }
  }

  lemma LatestIsUnique(m: Dict, n: Dict, ws: seq<Op>, us: seq<Op>)
    requires HoldsLatest(m, ws) && HoldsLatest(n, us) && DistinctTimes(ws)
    requires forall w :: w in ws <==> w in us
    ensures m == n
  {
    hide Time;
    forall k | k in m ensures k in n && n[k] == m[k] {
      assert Op.Set(k, m[k]) in us;
      assert Op.Set(k, n[k]) in ws;
    }
    forall k | k in n ensures k in m {
      assert Op.Set(k, n[k]) in ws;
    }
  }

  /**
   Any two runs of Sets with the same set of writes, in any order and with any repetition, none
   refused, end with the same pairs: the latest write of each key.
   */
  lemma Converges(c: Config, d: Config, ws: seq<Op>, us: seq<Op>)
    requires ValidConfig(c) && ValidConfig(d) && OnlySets(ws) && OnlySets(us)
    requires Accepted(c, ws) == ws && Accepted(d, us) == us
    requires DistinctTimes(ws) && forall w :: w in ws <==> w in us
    ensures Contents(Run(c, ws)) == Contents(Run(d, us))
    ensures HoldsLatest(Contents(Run(c, ws)), ws)
  {
    hide ValidConfig, Contents, Run, Accepted, OnlySets, DistinctTimes, HoldsLatest, DictRun;
    RunRefines(c, ws);
    RunRefines(d, us);
    SetsHoldLatest(c.hash, ws);
    SetsHoldLatest(d.hash, us);
    LatestIsUnique(Contents(Run(c, ws)), Contents(Run(d, us)), ws, us);
  }

  lemma TwoAreDictionary(c: Config, a: Op, b: Op)
    requires ValidConfig(c) && Ample(c) && Cost(a) + Cost(b) < c.size
    ensures Accepted(c, [a, b]) == [a, b] && Contents(Run(c, [a, b])) == DictRun(c.hash, map[], [a, b])
  {
    hide ValidConfig, Ample, Run, Accepted, Contents, DictRun, Cost;
    assert [a, b][..1] == [a] && [a][..0] == [];
    assert Volume([a]) == Cost(a);
    NothingRefused(c, [a, b]);
    RunIsDictionary(c, [a, b]);
  }

  lemma TwoSteps(hash: Hash, a: Op, b: Op)
    ensures DictRun(hash, map[], [a, b]) == DictStep(hash, DictStep(hash, map[], a), b)
  {
    hide DictStep;
    assert [a, b][..1] == [a] && [a][..0] == [];
    assert DictRun(hash, map[], [a]) == DictStep(hash, map[], a);
  }

  /** Distinct times are needed: with equal times the first write to arrive wins, though both are accepted. */
  lemma EqualTimesDiverge(c: Config, k: Bytes, v: Bytes, w: Bytes)
    requires ValidConfig(c) && Ample(c) && |v| >= 8 && |w| >= 8 && v != w && Time(v) == Time(w)
    requires 24 + 2 * |k| + |v| + |w| < c.size
    ensures var ws, us := [Op.Set(k, v), Op.Set(k, w)], [Op.Set(k, w), Op.Set(k, v)];
      && Accepted(c, ws) == ws && Accepted(c, us) == us
      && Contents(Run(c, ws)) == map[k := v] && Contents(Run(c, us)) == map[k := w]
  {
    hide ValidConfig, Ample, Run, Accepted, Contents, DictRun, Time;
    var a, b := Op.Set(k, v), Op.Set(k, w);
    TwoAreDictionary(c, a, b);
    TwoAreDictionary(c, b, a);
    TwoSteps(c.hash, a, b);
    TwoSteps(c.hash, b, a);
  }
}
