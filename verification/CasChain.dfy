/** Compare-and-swap: the successful swaps of a key form a chain of versions. */
module CasChain {
  import opened ByteStrings
  import opened TimedMap
  import opened PMapSpec
  import opened PMapRuns

  /** Operations on other keys may be anything; on k there are only swaps. */
  ghost predicate OnlyCasOn(k: Bytes, ops: seq<Op>)
  {
    forall i | 0 <= i < |ops| && ops[i].key == k :: ops[i].Cas?
  }

  /** The swaps of k that succeeded, in order. */
  function Wins(hash: Hash, m: Dict, k: Bytes, ops: seq<Op>): (w: seq<Op>)
    ensures forall i | 0 <= i < |w| :: w[i].Cas? && w[i].key == k && |w[i].value| >= 24
  {
    if ops == [] then []
    else
      var init, op := ops[..|ops| - 1], ops[|ops| - 1];
      if op.Cas? && op.key == k && CasVerdict(hash, DictRun(hash, m, init), k, op.value).Ok?
      then Wins(hash, m, k, init) + [op] else Wins(hash, m, k, init)
  }

  /** The version of k after the first j wins, starting from v. */
  function Version(v: Bytes, wins: seq<Op>, j: nat): (r: Bytes)
    requires j <= |wins| && forall i | 0 <= i < |wins| :: |wins[i].value| >= 24
  {
    if j == 0 then v else wins[j - 1].value[16..]
  }

  /** The swap names version v: its time and the hash of its value. */
  ghost predicate Names(hash: Hash, op: Op, v: Bytes)
  {
    && |op.value| >= 24 && |v| >= 8
    && Time(op.value) == Time(v) && FromLE(op.value[8..16]) == hash(v[8..])
  }

  lemma OnlyCasPrefix(k: Bytes, ops: seq<Op>)
    requires OnlyCasOn(k, ops) && ops != []
    ensures OnlyCasOn(k, ops[..|ops| - 1])
  {}

  lemma StepOn(hash: Hash, m: Dict, op: Op, k: Bytes)
    requires k in m && (op.key == k ==> op.Cas?)
    ensures k in DictStep(hash, m, op)
    ensures DictStep(hash, m, op)[k] ==
      if op.key == k && CasVerdict(hash, m, k, op.value).Ok? then op.value[16..] else m[k]
  {
    hide Time;
  }

  lemma VerdictNames(hash: Hash, m: Dict, k: Bytes, v: Bytes)
    requires k in m && |m[k]| >= 8 && CasVerdict(hash, m, k, v).Ok?
    ensures Names(hash, Op.Cas(k, v), m[k])
  {
    hide Time, FromLE;
  }

  lemma VerdictLong(hash: Hash, m: Dict, k: Bytes, v: Bytes)
    requires CasVerdict(hash, m, k, v).Ok?
    ensures |v| >= 24
  {}

  lemma VersionLong(v: Bytes, w: seq<Op>)
    requires |v| >= 8 && forall i | 0 <= i < |w| :: |w[i].value| >= 24
    ensures |Version(v, w, |w|)| >= 8
  {}

  lemma VersionNone(v: Bytes)
    ensures Version(v, [], 0) == v
  {}

  lemma NoWins(hash: Hash, m: Dict, k: Bytes)
    ensures Wins(hash, m, k, []) == [] && DictRun(hash, m, []) == m
  {}

  lemma WinsStep(hash: Hash, m: Dict, k: Bytes, ops: seq<Op>)
    requires ops != []
    ensures var init, op := ops[..|ops| - 1], ops[|ops| - 1];
      && DictRun(hash, m, ops) == DictStep(hash, DictRun(hash, m, init), op)
      && Wins(hash, m, k, ops)
           == Wins(hash, m, k, init)
              + if op.Cas? && op.key == k && CasVerdict(hash, DictRun(hash, m, init), k, op.value).Ok? then [op] else []
  {
    hide CasVerdict, DictStep;
  }

  lemma VersionSnoc(v: Bytes, w: seq<Op>, op: Op, j: nat)
    requires j <= |w| && |op.value| >= 24 && forall i | 0 <= i < |w| :: |w[i].value| >= 24
    ensures Version(v, w + [op], j) == Version(v, w, j)
    ensures Version(v, w + [op], |w| + 1) == op.value[16..]
    ensures Version(v, w, 0) == v
  {}

  /** One more link. */
  lemma ChainSnoc(hash: Hash, v: Bytes, w: seq<Op>, op: Op)
    requires forall i | 0 <= i < |w| :: |w[i].value| >= 24
    requires forall j | 0 <= j < |w| :: Names(hash, w[j], Version(v, w, j))
    requires |op.value| >= 24 && Names(hash, op, Version(v, w, |w|))
    ensures forall j | 0 <= j < |w + [op]| :: Names(hash, (w + [op])[j], Version(v, w + [op], j))
  {
    hide Names, Version;
    var u := w + [op];
    forall j | 0 <= j < |u| ensures Names(hash, u[j], Version(v, u, j)) {
      VersionSnoc(v, w, op, j);
    }
  }

  /** The stored value is the last version, and each win replaced exactly the version before it. */
  lemma {:induction false} WinsFormChain(hash: Hash, m: Dict, k: Bytes, ops: seq<Op>)
    requires k in m && |m[k]| >= 8 && OnlyCasOn(k, ops)
    ensures var w := Wins(hash, m, k, ops);
      && k in DictRun(hash, m, ops) && DictRun(hash, m, ops)[k] == Version(m[k], w, |w|)
      && forall j | 0 <= j < |w| :: Names(hash, w[j], Version(m[k], w, j))
  {
    hide CasVerdict, DictStep, Names, OnlyCasOn, Wins, DictRun, Version;
    if ops == [] {
      NoWins(hash, m, k);
      VersionNone(m[k]);
    } else {
      var init, op := ops[..|ops| - 1], ops[|ops| - 1];
      OnlyCasPrefix(k, ops);
      OnlyCasLast(k, ops);
      WinsFormChain(hash, m, k, init);
      var d, w, u := DictRun(hash, m, init), Wins(hash, m, k, init), Wins(hash, m, k, ops);
      WinsStep(hash, m, k, ops);
      StepOn(hash, d, op, k);
      if op.Cas? && op.key == k && CasVerdict(hash, d, k, op.value).Ok? {
        assert |d[k]| >= 8 by { VersionLong(m[k], w); }
        VerdictNames(hash, d, k, op.value);
        assert op == Op.Cas(k, op.value);
        assert |op.value| >= 24 by { VerdictLong(hash, d, k, op.value); }
        ChainSnoc(hash, m[k], w, op);
        VersionSnoc(m[k], w, op, 0);
      } else {
        assert u == w;
      }
    }
  }

  lemma OnlyCasLast(k: Bytes, ops: seq<Op>)
    requires OnlyCasOn(k, ops) && ops != []
    ensures ops[|ops| - 1].key == k ==> ops[|ops| - 1].Cas?
  {}

  /** Every version has a time no earlier version had. */
  ghost predicate FreshVersions(v: Bytes, wins: seq<Op>)
    requires forall i | 0 <= i < |wins| :: |wins[i].value| >= 24
  {
    forall i, j | 0 <= i < j <= |wins| :: Time(Version(v, wins, i)) != Time(Version(v, wins, j))
  }

  /** No lost update: with fresh times, no two successful swaps replaced the same version. */
  lemma NoLostUpdate(hash: Hash, m: Dict, k: Bytes, ops: seq<Op>)
    requires k in m && |m[k]| >= 8 && OnlyCasOn(k, ops)
    requires FreshVersions(m[k], Wins(hash, m, k, ops))
    ensures var w := Wins(hash, m, k, ops);
      forall i, j | 0 <= i < j < |w| :: Time(w[i].value) != Time(w[j].value)
  {
    hide Time, OnlyCasOn, DictRun, Version;
    WinsFormChain(hash, m, k, ops);
    var w := Wins(hash, m, k, ops);
    forall i, j | 0 <= i < j < |w| ensures Time(w[i].value) != Time(w[j].value) {
      assert Names(hash, w[i], Version(m[k], w, i)) && Names(hash, w[j], Version(m[k], w, j));
    }
  }

  lemma {:induction false} DictRunSplit(hash: Hash, m: Dict, a: seq<Op>, b: seq<Op>)
    ensures DictRun(hash, m, a + b) == DictRun(hash, DictRun(hash, m, a), b)
    decreases |b|
  {
    if b == [] {
      assert a + b == a;
    } else {
      hide DictStep;
      var n := |b| - 1;
      assert (a + b)[..|a| + n] == a + b[..n];
      DictRunSplit(hash, m, a, b[..n]);
    }
  }

  /** In a PMap: once k exists, and as long as only swaps touch it, the wins chain up to the stored value. */
  lemma SwapsOfPMap(c: Config, ops: seq<Op>, n: nat, k: Bytes)
    requires ValidConfig(c) && n <= |Accepted(c, ops)|
    requires k in DictRun(c.hash, map[], Accepted(c, ops)[..n])
    requires |DictRun(c.hash, map[], Accepted(c, ops)[..n])[k]| >= 8
    requires OnlyCasOn(k, Accepted(c, ops)[n..])
    ensures var m := DictRun(c.hash, map[], Accepted(c, ops)[..n]);
      var w := Wins(c.hash, m, k, Accepted(c, ops)[n..]);
      && k in Contents(Run(c, ops)) && Contents(Run(c, ops))[k] == Version(m[k], w, |w|)
      && forall j | 0 <= j < |w| :: Names(c.hash, w[j], Version(m[k], w, j))
  {
    hide ValidConfig, Contents, Run, Accepted, DictRun, OnlyCasOn, Names, Wins;
    var acc := Accepted(c, ops);
    assert acc == acc[..n] + acc[n..];
    RunRefines(c, ops);
    DictRunSplit(c.hash, map[], acc[..n], acc[n..]);
    WinsFormChain(c.hash, DictRun(c.hash, map[], acc[..n]), k, acc[n..]);
  }

  /**
   A swap on a key that is not there, in any reachable state, is accepted if and only if it names the time
   0 or the hash of the empty value; then it creates the pair. Naming either is enough.
   */
  lemma AbsentSwapIff(c: Config, ops: seq<Op>, k: Bytes, v: Bytes)
    requires ValidConfig(c) && k !in Contents(Run(c, ops)) && |v| >= 24
    requires !Apply(c, Run(c, ops), Op.Cas(k, v)).out.Refused()
    ensures var r := Apply(c, Run(c, ops), Op.Cas(k, v));
      && (r.out == Ok <==> Time(v) == 0 || FromLE(v[8..16]) == c.hash([]))
      && (r.out != Ok ==> r.out == CasAbsent)
      && Contents(r.s) == if r.out == Ok then Contents(Run(c, ops))[k := v[16..]] else Contents(Run(c, ops))
  {
    hide ValidConfig, Run, Contents, Accepted, DoCas, Time, FromLE, Inv;
    RunRefines(c, ops);
    CasStep(c, Run(c, ops), k, v);
  }
}
