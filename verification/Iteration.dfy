/** Iteration in both directions, over whatever records the presence test lets through. */
module Iteration {
  import opened ByteStrings
  import opened RecordLog
  import opened TimedMap
  import opened PMapSpec
  import opened Defrag

  /** The records that are shown, in order. */
  function Picked(log: seq<Record>, shown: seq<bool>): (r: seq<Record>)
    requires |shown| == |log|
  {
    if log == [] then []
    else
      var n := |log| - 1;
      Picked(log[..n], shown[..n]) + if shown[n] then [log[n]] else []
  }

  /** The outcome of the presence tests. */
  ghost function Shown(s: PState, a: Dict): (shown: seq<bool>)
    ensures |shown| == |s.log| && forall i | 0 <= i < |s.log| :: shown[i] == Present(s, a, i)
  {
    seq(|s.log|, i requires 0 <= i < |s.log| => Present(s, a, i))
  }

  lemma {:induction false} PickedPrefix(s: PState, a: Dict, n: nat)
    requires n <= |s.log|
    ensures Picked(s.log[..n], Shown(s, a)[..n]) == Visited(s, a, n)
    decreases n
  {
    hide Present;
    if n > 0 {
      PickedPrefix(s, a, n - 1);
      var shown := Shown(s, a);
      assert s.log[..n][..n - 1] == s.log[..n - 1] && shown[..n][..n - 1] == shown[..n - 1];
    }
  }

  lemma PickedVisited(s: PState, a: Dict)
    ensures Picked(s.log, Shown(s, a)) == Visited(s, a, |s.log|)
  {
    hide Present, Picked, Visited, Shown;
    PickedPrefix(s, a, |s.log|);
    assert s.log[..|s.log|] == s.log && Shown(s, a)[..|s.log|] == Shown(s, a);
  }

  lemma {:induction false} PickedConcat(a: seq<Record>, x: seq<bool>, b: seq<Record>, y: seq<bool>)
    requires |x| == |a| && |y| == |b|
    ensures Picked(a + b, x + y) == Picked(a, x) + Picked(b, y)
    decreases |b|
  {
    if b == [] {
      assert a + b == a && x + y == x;
    } else {
      var n := |b| - 1;
      PickedConcat(a, x, b[..n], y[..n]);
      assert (a + b)[..|a| + n] == a + b[..n] && (x + y)[..|a| + n] == x + y[..n];
    }
  }

  function Here(r: Record, shown: bool): (rs: seq<Record>)
    ensures |rs| <= 1
  {
    if shown then [r] else []
  }

  lemma PickedNext(log: seq<Record>, shown: seq<bool>, i: nat)
    requires |shown| == |log| && i < |log|
    ensures Picked(log[..i + 1], shown[..i + 1]) == Picked(log[..i], shown[..i]) + Here(log[i], shown[i])
  {
    assert log[..i + 1][..i] == log[..i] && shown[..i + 1][..i] == shown[..i];
  }

  lemma PickedFrom(log: seq<Record>, shown: seq<bool>, i: nat)
    requires |shown| == |log| && i < |log|
    ensures Picked(log[i..], shown[i..]) == Here(log[i], shown[i]) + Picked(log[i + 1..], shown[i + 1..])
  {
    hide Picked;
    PickedConcat([log[i]], [shown[i]], log[i + 1..], shown[i + 1..]);
    assert [log[i]] + log[i + 1..] == log[i..] && [shown[i]] + shown[i + 1..] == shown[i..];
    PickedOne(log[i], shown[i]);
  }

  lemma PickedSplit(log: seq<Record>, shown: seq<bool>, i: nat)
    requires |shown| == |log| && i <= |log|
    ensures Picked(log, shown) == Picked(log[..i], shown[..i]) + Picked(log[i..], shown[i..])
  {
    hide Picked;
    PickedConcat(log[..i], shown[..i], log[i..], shown[i..]);
    assert log[..i] + log[i..] == log && shown[..i] + shown[i..] == shown;
  }

  lemma PickedOne(r: Record, shown: bool)
    ensures Picked([r], [shown]) == Here(r, shown)
  {
    assert [r][..0] == [] && [shown][..0] == [];
  }

  lemma PickedNone(log: seq<Record>, shown: seq<bool>)
    requires |shown| == |log| == 0
    ensures Picked(log, shown) == []
  {}

  /** What a callback that may stop the iteration gets to see: up to and including the pair it stops at. */
  function Cut(cont: (Bytes, Bytes) -> bool, rs: seq<Record>): (r: seq<Record>)
  {
    if rs == [] then [] else if !cont(rs[0].key, rs[0].val) then [rs[0]] else [rs[0]] + Cut(cont, rs[1..])
  }

  ghost predicate Continues(cont: (Bytes, Bytes) -> bool, rs: seq<Record>)
  {
    forall i | 0 <= i < |rs| :: cont(rs[i].key, rs[i].val)
  }

  lemma ContinuesNone(cont: (Bytes, Bytes) -> bool)
    ensures Continues(cont, [])
  {}

  lemma ContinuesSnoc(cont: (Bytes, Bytes) -> bool, rs: seq<Record>, r: Record)
    requires Continues(cont, rs) && cont(r.key, r.val)
    ensures Continues(cont, rs + [r])
  {}

  lemma {:induction false} CutNothing(cont: (Bytes, Bytes) -> bool, rs: seq<Record>)
    requires Continues(cont, rs)
    ensures Cut(cont, rs) == rs
  {
    if rs != [] { CutNothing(cont, rs[1..]); }
  }

  lemma {:induction false} CutAt(cont: (Bytes, Bytes) -> bool, a: seq<Record>, x: Record, b: seq<Record>)
    requires Continues(cont, a) && !cont(x.key, x.val)
    ensures Cut(cont, a + [x] + b) == a + [x]
    decreases |a|
  {
    var all := a + [x] + b;
    if a != [] {
      assert all[1..] == a[1..] + [x] + b;
      CutAt(cont, a[1..], x, b);
      assert a == [a[0]] + a[1..];
    }
  }

  lemma StopsAt(cont: (Bytes, Bytes) -> bool, log: seq<Record>, shown: seq<bool>, i: nat)
    requires |shown| == |log| && i < |log| && shown[i] && !cont(log[i].key, log[i].val)
    requires Continues(cont, Picked(log[..i], shown[..i]))
    ensures Cut(cont, Picked(log, shown)) == Picked(log[..i], shown[..i]) + [log[i]]
  {
    hide Continues, Picked, Cut;
    PickedSplit(log, shown, i);
    PickedFrom(log, shown, i);
    assert Picked(log, shown) == Picked(log[..i], shown[..i]) + [log[i]] + Picked(log[i + 1..], shown[i + 1..]);
    CutAt(cont, Picked(log[..i], shown[..i]), log[i], Picked(log[i + 1..], shown[i + 1..]));
  }

  function Reverse(rs: seq<Record>): (r: seq<Record>)
    ensures |r| == |rs|
  {
    if rs == [] then [] else Reverse(rs[1..]) + [rs[0]]
  }

  lemma {:induction false} ReverseConcat(a: seq<Record>, b: seq<Record>)
    ensures Reverse(a + b) == Reverse(b) + Reverse(a)
  {
    if a == [] {
      assert a + b == b;
    } else {
      assert (a + b)[1..] == a[1..] + b;
      ReverseConcat(a[1..], b);
    }
  }

  lemma ReverseOne(rs: seq<Record>)
    requires |rs| <= 1
    ensures Reverse(rs) == rs
  {}

  lemma BackwardsStep(log: seq<Record>, shown: seq<bool>, i: nat)
    requires |shown| == |log| && i < |log|
    ensures Reverse(Picked(log[i..], shown[i..])) == Reverse(Picked(log[i + 1..], shown[i + 1..])) + Here(log[i], shown[i])
  {
    hide Picked, Reverse;
    PickedFrom(log, shown, i);
    ReverseConcat(Here(log[i], shown[i]), Picked(log[i + 1..], shown[i + 1..]));
    ReverseOne(Here(log[i], shown[i]));
  }

  lemma BackwardsStopsAt(cont: (Bytes, Bytes) -> bool, log: seq<Record>, shown: seq<bool>, i: nat)
    requires |shown| == |log| && i < |log| && shown[i] && !cont(log[i].key, log[i].val)
    requires Continues(cont, Reverse(Picked(log[i + 1..], shown[i + 1..])))
    ensures Cut(cont, Reverse(Picked(log, shown))) == Reverse(Picked(log[i + 1..], shown[i + 1..])) + [log[i]]
  {
    hide Continues, Picked, Cut, Reverse;
    PickedSplit(log, shown, i);
    ReverseConcat(Picked(log[..i], shown[..i]), Picked(log[i..], shown[i..]));
    BackwardsStep(log, shown, i);
    CutAt(cont, Reverse(Picked(log[i + 1..], shown[i + 1..])), log[i], Reverse(Picked(log[..i], shown[..i])));
  }
}
