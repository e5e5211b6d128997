/** What a restart keeps, over every run: exact conditions, and exact byte conservation. */
module Restarts {
  import opened ByteStrings
  import opened RecordLog
  import opened TimedMap
  import opened MapSums
  import opened PMapSpec
  import opened PMapRuns
  import opened PMapHistory
  import opened PMapChecksum
  import opened Recovery

  // Where the walk of `Open` stops in the log of a run.

  /** How many operations came before the first that stored a pair under the empty key. */
  function BeforeEmpty(c: Config, ops: seq<Op>): (j: nat)
    ensures j <= |ops|
  {
    if ops == [] then 0
    else
      var init, op := ops[..|ops| - 1], ops[|ops| - 1];
      if BeforeEmpty(c, init) < |init| then BeforeEmpty(c, init)
      else if op.key == [] && EffectOf(c, Run(c, init), op).Writes? then |init| else |ops|
  }

  lemma {:induction false} StopAppend(log: seq<Record>, r: Record)
    ensures Stop(log + [r]) == if Stop(log) < |log| then Stop(log) else if r.key == [] then |log| else |log| + 1
  {
    if log != [] {
      StopAppend(log[1..], r);
      assert (log + [r])[1..] == log[1..] + [r];
    } else {
      assert (log + [r])[1..] == [];
    }
  }

  /** One operation, as far as the walk is concerned. */
  lemma StopStep(c: Config, s: PState, op: Op)
    requires Inv(c, s)
    ensures var l := Apply(c, s, op).s.log;
      && s.log <= l
      && (Stop(s.log) < |s.log| ==> Stop(l) == Stop(s.log))
      && (Stop(s.log) == |s.log| ==>
            if op.key == [] && EffectOf(c, s, op).Writes? then Stop(l) == |s.log| < |l| else Stop(l) == |l|)
  {
    hide Apply, EffectOf, GoodLog, InReplay, Roomy, Counted;
    StepEffect(c, s, op);
    match EffectOf(c, s, op)
    case Keeps =>
    case Writes(v) => StopAppend(s.log, Record(op.key, v));
    case Buries =>
      BuriesLive(c, s, op);
      StopAppend(s.log, Record(op.key, []));
    case Loses =>
  }

  /** The walk restores exactly what was in the log before the first pair under the empty key. */
  lemma {:induction false} WalkOfRun(c: Config, ops: seq<Op>)
    requires ValidConfig(c)
    ensures var j := BeforeEmpty(c, ops);
      && Walked(Run(c, ops).log) == Run(c, ops[..j]).log
      && (j == |ops| <==> Stop(Run(c, ops).log) == |Run(c, ops).log|)
  {
    hide ValidConfig, Apply, EffectOf, Stop, Inv;
    if ops == [] {
      assert ops[..0] == ops;
    } else {
      var init, op := ops[..|ops| - 1], ops[|ops| - 1];
      WalkOfRun(c, init);
      RunRefines(c, init);
      StopStep(c, Run(c, init), op);
      var j := BeforeEmpty(c, init);
      assert ops[..j] == init[..j] && ops[..|ops|] == ops && init[..|init|] == init;
    }
  }

  lemma {:induction false} NoEmptyKey(c: Config, ops: seq<Op>)
    requires forall i | 0 <= i < |ops| :: |ops[i].key| > 0
    ensures BeforeEmpty(c, ops) == |ops|
  {
    hide EffectOf;
    if ops != [] { NoEmptyKey(c, ops[..|ops| - 1]); }
  }

  // A key whose tombstone was refused stays lost: nothing larger than that tombstone fits any more.

  lemma LostStep(c: Config, s: PState, op: Op, lost: set<Bytes>)
    requires forall k | k in lost :: !Fits(c, s, Record(k, []))
    ensures lost <= LostAfter(c, s, op, lost)
    ensures forall k | k in LostAfter(c, s, op, lost) :: !Fits(c, Apply(c, s, op).s, Record(k, []))
  {
    hide Apply, LogLen, Time, Value, Contents, CasVerdict, HasRoom;
    StepEffect(c, s, op);
    match EffectOf(c, s, op)
    case Keeps =>
    case Writes(v) => AppendRecord(s.log, Record(op.key, v));
    case Buries => AppendRecord(s.log, Record(op.key, []));
    case Loses =>
  }

  lemma {:induction false} LostNeverFits(c: Config, ops: seq<Op>)
    ensures forall k | k in Lost(c, ops) :: !Fits(c, Run(c, ops), Record(k, []))
  {
    hide Apply, Fits, LostAfter;
    if ops != [] {
      LostNeverFits(c, ops[..|ops| - 1]);
      LostStep(c, Run(c, ops[..|ops| - 1]), ops[|ops| - 1], Lost(c, ops[..|ops| - 1]));
    }
  }

  lemma {:induction false} LostForever(c: Config, ops: seq<Op>, j: nat)
    requires j <= |ops|
    ensures Lost(c, ops[..j]) <= Lost(c, ops)
    decreases |ops|
  {
    hide Apply, Fits, LostAfter;
    if j == |ops| {
      assert ops[..j] == ops;
    } else {
      var init := ops[..|ops| - 1];
      LostForever(c, init, j);
      assert init[..j] == ops[..j];
      LostNeverFits(c, init);
      LostStep(c, Run(c, init), ops[|ops| - 1], Lost(c, init));
    }
  }

  /** Reopening succeeds, with every pair and nothing else. */
  ghost predicate RestartKeeps(c: Config, s: PState)
  {
    Restart(c, s.log).Some? && Contents(Restart(c, s.log).value) == Contents(s)
  }

  /** What a restart after a run finds, in terms of the run before the first pair under the empty key. */
  lemma RestartOfRun(c: Config, ops: seq<Op>)
    requires ValidConfig(c) && Ample(c)
    ensures var p, r := Run(c, ops[..BeforeEmpty(c, ops)]), Reopened(c, Run(c, ops).log);
      && Inv(c, r) && r.log == p.log && r.live == Replay(p.log) && LogLen(p.log) == r.deleted + LiveBytes(r)
      && r.sums.newSum == PairSum(c.hash, Contents(r)) % TWO64
  {
    hide ValidConfig, Ample, Inv, Run, Reopened, BeforeEmpty, Replay, LogLen, LiveBytes, GoodLog, PairSum, Contents, Stop;
    RunRefines(c, ops);
    InvLog(c, Run(c, ops));
    ReopenExact(c, Run(c, ops).log);
    WalkOfRun(c, ops);
  }

  /**
   Restart equivalence, for every run: reopening succeeds with exactly the pairs of before if and only if,
   j being the number of operations before the first pair under the empty key, no tombstone was refused
   among them, the pairs are now what they were then, and, if there is no such pair, 4 bytes are left.
   */
  lemma RestartEquivalence(c: Config, ops: seq<Op>)
    requires ValidConfig(c) && Ample(c)
    ensures var j := BeforeEmpty(c, ops);
      RestartKeeps(c, Run(c, ops))
      <==> (&& Lost(c, ops[..j]) == {}
            && Contents(Run(c, ops)) == Contents(Run(c, ops[..j]))
            && (j == |ops| ==> LogLen(Run(c, ops).log) + 4 <= c.size))
  {
    hide ValidConfig, Ample, Inv, Run, Reopened, BeforeEmpty, Replay, LogLen, LiveBytes, GoodLog, PairSum, Contents, Stop, Lost;
    var j := BeforeEmpty(c, ops);
    var p, r, s := Run(c, ops[..j]), Reopened(c, Run(c, ops).log), Run(c, ops);
    RestartOfRun(c, ops);
    WalkOfRun(c, ops);
    ReplayExact(c, ops[..j]);
    if Lost(c, ops[..j]) == {} {
      ReplayIffNothingLost(c, ops[..j]);
      SameContents(p, r);
    } else {
      var k :| k in Lost(c, ops[..j]);
      LostForever(c, ops, j);
      ReplayExact(c, ops);
      ValueOf(s, k);
      ValueOf(r, k);
      assert k in Contents(r) && k !in Contents(s);
    }
  }

  /** Without empty keys: if and only if no tombstone was refused and 4 bytes are left. */
  lemma RestartOfNonempty(c: Config, ops: seq<Op>)
    requires ValidConfig(c) && Ample(c) && forall i | 0 <= i < |ops| :: |ops[i].key| > 0
    ensures RestartKeeps(c, Run(c, ops)) <==> Lost(c, ops) == {} && LogLen(Run(c, ops).log) + 4 <= c.size
  {
    hide *;
    NoEmptyKey(c, ops);
    RestartEquivalence(c, ops);
    assert ops[..|ops|] == ops;
  }

  // Byte conservation.

  /** The bytes an operation makes dead without counting them as deleted: a replaced record, or a tombstone. */
  function Uncounted(c: Config, s: PState, op: Op): (n: nat)
  {
    match EffectOf(c, s, op)
    case Writes(_) => if op.key in s.live then RecLen(Record(op.key, Value(s, op.key))) else 0
    case Buries => RecLen(Record(op.key, []))
    case _ => 0
  }

  function Overwritten(c: Config, ops: seq<Op>): (n: nat)
  {
    if ops == [] then 0
    else Overwritten(c, ops[..|ops| - 1]) + Uncounted(c, Run(c, ops[..|ops| - 1]), ops[|ops| - 1])
  }

  lemma StepDeleted(c: Config, s: PState, op: Op)
    ensures Apply(c, s, op).s.deleted
         == s.deleted + if EffectOf(c, s, op).Buries? || EffectOf(c, s, op).Loses? then RecLen(Record(op.key, Value(s, op.key))) else 0
  {
    hide Mix, Time, HasRoom, Contents, CasVerdict, LogLen;
  }

  lemma EffectContents(c: Config, s: PState, op: Op)
    requires Points(s)
    ensures var m := Contents(Apply(c, s, op).s);
      match EffectOf(c, s, op)
      case Keeps => m == Contents(s)
      case Writes(v) => m == Contents(s)[op.key := v]
      case Buries => m == Contents(s) - {op.key} && op.key in Contents(s)
      case Loses => m == Contents(s) - {op.key} && op.key in Contents(s)
  {
    hide Apply, EffectOf;
    StepEffect(c, s, op);
    BuriesLive(c, s, op);
  }

  lemma StepConserves(c: Config, s: PState, op: Op)
    requires Inv(c, s)
    ensures var r := Apply(c, s, op).s;
      LogLen(r.log) - r.deleted - LiveBytes(r) == LogLen(s.log) - s.deleted - LiveBytes(s) + Uncounted(c, s, op)
  {
    hide Apply, LogLen, Total, EffectOf, Sizes, GoodLog, InReplay, Roomy, Counted, Points, Contents, Value;
    var k := op.key;
    StepEffect(c, s, op);
    StepDeleted(c, s, op);
    EffectContents(c, s, op);
    ValueOf(s, k);
    match EffectOf(c, s, op)
    case Keeps =>
    case Writes(v) =>
      AppendRecord(s.log, Record(k, v));
      SizesPut(Contents(s), k, v);
      if k in s.live { SizesRemove(Contents(s), k); } else { assert Contents(s) - {k} == Contents(s); }
    case Buries =>
      AppendRecord(s.log, Record(k, []));
      SizesRemove(Contents(s), k);
    case Loses =>
      SizesRemove(Contents(s), k);
  }

  /** After every run: log = deleted + live records + replaced records and tombstones, byte for byte. */
  lemma {:induction false} BytesConserved(c: Config, ops: seq<Op>)
    requires ValidConfig(c)
    ensures LogLen(Run(c, ops).log) == Run(c, ops).deleted + LiveBytes(Run(c, ops)) + Overwritten(c, ops)
  {
    hide ValidConfig, Apply, LogLen, LiveBytes, Inv, Uncounted;
    if ops == [] {
      NothingYet(c);
    } else {
      var init := ops[..|ops| - 1];
      BytesConserved(c, init);
      RunRefines(c, init);
      StepConserves(c, Run(c, init), ops[|ops| - 1]);
    }
  }

  lemma NothingYet(c: Config)
    ensures LogLen(Empty(c).log) == 0 && LiveBytes(Empty(c)) == 0
  {
    assert Contents(Empty(c)) == map[];
    assert Sizes(map[]) == map[];
  }

  /** The pairs that replaying the log brings back: those of lost keys. */
  ghost function LostPairs(s: PState): (m: Dict)
  {
    map k | k in Replay(s.log) && k !in s.live :: s.log[Replay(s.log)[k]].val
  }

  lemma {:induction false} TotalDisjoint(t: map<Bytes, int>, u: map<Bytes, int>, w: map<Bytes, int>)
    requires u.Keys !! w.Keys && t.Keys == u.Keys + w.Keys
    requires (forall k | k in u :: t[k] == u[k]) && (forall k | k in w :: t[k] == w[k])
    ensures Total(t) == Total(u) + Total(w)
    decreases |w|
  {
    hide Total;
    if k :| k in w {
      TotalRemove(t, k);
      TotalRemove(w, k);
      RemoveSize(w, k);
      TotalDisjoint(t - {k}, u, w - {k});
    } else {
      assert w == map[] && t == u;
      NoTotal();
    }
  }

  lemma NoTotal()
    ensures Total(map[]) == 0
  {}

  /** A whole log reopened holds the pairs of before and the lost ones, and no key is both. */
  lemma ReopenedPairs(s: PState, r: PState)
    requires InReplay(s) && r.log == s.log && r.live == Replay(s.log)
    ensures var m, n, l := Contents(s), Contents(r), LostPairs(s);
      && m.Keys !! l.Keys && n.Keys == m.Keys + l.Keys
      && (forall k | k in m :: n[k] == m[k]) && (forall k | k in l :: n[k] == l[k])
  {
    hide Replay;
  }

  lemma ReopenedBytes(s: PState, r: PState)
    requires InReplay(s) && r.log == s.log && r.live == Replay(s.log)
    ensures LiveBytes(r) == LiveBytes(s) + Total(Sizes(LostPairs(s)))
  {
    hide Total, Contents, LostPairs, InReplay, Replay;
    ReopenedPairs(s, r);
    TotalDisjoint(Sizes(Contents(r)), Sizes(Contents(s)), Sizes(LostPairs(s)));
  }

  /**
   Reopening, for every run: the count of deleted bytes changes by exactly the replaced records and
   tombstones, less the bytes of the pairs that come back and of the records behind an empty key.
   */
  lemma ReopenDeleted(c: Config, ops: seq<Op>)
    requires ValidConfig(c) && Ample(c)
    ensures var s, r := Run(c, ops), Reopened(c, Run(c, ops).log);
      r.deleted == s.deleted + Overwritten(c, ops)
        - (LiveBytes(r) - LiveBytes(s)) - (LogLen(s.log) - LogLen(Walked(s.log)))
  {
    hide ValidConfig, Ample, Inv, Run, Reopened, BeforeEmpty, Replay, LogLen, LiveBytes, Overwritten, PairSum, Contents, Stop;
    BytesConserved(c, ops);
    RestartOfRun(c, ops);
    WalkOfRun(c, ops);
  }

  /**
   Without a pair under the empty key it is not lowered if and only if the lost pairs weigh no more than the
   replaced records and tombstones.
   */
  lemma ReopenLowersIff(c: Config, ops: seq<Op>)
    requires ValidConfig(c) && Ample(c) && BeforeEmpty(c, ops) == |ops|
    ensures Run(c, ops).deleted <= Reopened(c, Run(c, ops).log).deleted
       <==> Total(Sizes(LostPairs(Run(c, ops)))) <= Overwritten(c, ops)
  {
    hide ValidConfig, Ample, Points, GoodLog, Roomy, Counted, InReplay, Run, Reopened, BeforeEmpty, Replay, LogLen, LiveBytes, Overwritten, PairSum,
         Contents, Stop, LostPairs, Total, Sizes;
    ReopenDeleted(c, ops);
    RestartOfRun(c, ops);
    WalkOfRun(c, ops);
    assert ops[..|ops|] == ops;
    RunRefines(c, ops);
    ReopenedBytes(Run(c, ops), Reopened(c, Run(c, ops).log));
  }

  /** So it is never lowered where the restart keeps the pairs and no empty key cut the log. */
  lemma ReopenNeverLowers(c: Config, ops: seq<Op>)
    requires ValidConfig(c) && Ample(c) && RestartKeeps(c, Run(c, ops)) && BeforeEmpty(c, ops) == |ops|
    ensures Run(c, ops).deleted <= Reopened(c, Run(c, ops).log).deleted
  {
    hide ValidConfig, Ample, Inv, Run, Reopened, BeforeEmpty, Replay, LogLen, Overwritten, Total, Sizes, PairSum, Contents, Stop;
    ReopenDeleted(c, ops);
    WalkOfRun(c, ops);
    assert ops[..|ops|] == ops;
  }
}
