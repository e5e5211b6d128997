/** A restart of a PMap that was only written to leaves even the checksum windows as they were. */
module RestartWindows {
  import opened ByteStrings
  import opened RecordLog
  import opened Checksum
  import opened TimedMap
  import opened PMapSpec
  import opened PMapRuns
  import opened PMapHistory
  import opened Recovery
  import opened Restarts
  import opened ReportedSums
  import opened Defrag
  import opened FailingRuns

  /** Nothing was deleted and no swap was refused by a full store. */
  ghost predicate OnlyWrites(c: Config, ops: seq<Op>)
  {
    forall i | 0 <= i < |ops| ::
      !ops[i].Del? && (ops[i].Cas? ==> !Apply(c, Run(c, ops[..i]), ops[i]).out.StoreFull?)
  }

  ghost predicate NoTombstone(log: seq<Record>)
  {
    forall i | 0 <= i < |log| :: |log[i].val| >= 8
  }

  /** The checksum windows after a write: the old pair is taken out, the new one added, both at the time of the write. */
  ghost function Rewritten(c: Config, s: PState, k: Bytes, v: Bytes): (r: Sums)
  {
    AddEvent(if k in s.live then AddEvent(s.sums, Neg(Mix(c.hash, k, Value(s, k))), Time(v)) else s.sums, Mix(c.hash, k, v), Time(v))
  }

  lemma StepSums(c: Config, s: PState, op: Op)
    requires !op.Del? && (op.Cas? ==> !Apply(c, s, op).out.StoreFull?)
    ensures Apply(c, s, op).s.sums
         == match EffectOf(c, s, op) case Writes(v) => Rewritten(c, s, op.key, v) case _ => s.sums
  {
    hide Mix, AddEvent, Time, Value, HasRoom, Contents, CasVerdict, LogLen, Neg;
    GrownShape(s);
    GrownContents(s, op.key);
  }

  /** Restoring a record that is no tombstone makes the same step. */
  lemma RestoreSums(c: Config, s: PState, log: seq<Record>, i: nat)
    requires i < |log| && |log[i].val| >= 8 && HasRoom(c, s)
    ensures Restore(c, s, log, i).sums == Rewritten(c, s, log[i].key, log[i].val)
    ensures Restore(c, s, log, i).live == s.live[log[i].key := i] && Restore(c, s, log, i).log == log[..i + 1]
  {
    hide AddEvent, Xor64, HasRoom, Neg, Signed;
    GrownShape(s);
    GrownContents(s, log[i].key);
  }

  /** What is restored from a log without tombstones does not depend on what follows. */
  lemma {:induction false} RestoredPrefix(c: Config, log: seq<Record>, r: Record, i: nat)
    requires NoTombstone(log) && i <= |log|
    ensures Restored(c, log + [r], i) == Restored(c, log, i)
    decreases i
  {
    hide Grown, HasRoom, Subtracted, AddEvent;
    if i > 0 {
      RestoredPrefix(c, log, r, i - 1);
      assert (log + [r])[i - 1] == log[i - 1] && (log + [r])[..i] == log[..i];
    }
  }

  lemma RestoredRoom(c: Config, ops: seq<Op>)
    requires ValidConfig(c) && Ample(c)
    ensures var log := Run(c, ops).log;
      HasRoom(c, Restored(c, log, |log|))
  {
    hide Run, ValidConfig, Ample, Inv, Restored, GoodLog, HasRoom, LogLen;
    var log := Run(c, ops).log;
    RunRefines(c, ops);
    InvLog(c, Run(c, ops));
    RestoredExact(c, log, |log|);
    RebuiltParts(c, Restored(c, log, |log|), log, |log|);
    AmpleHasRoom(c, Restored(c, log, |log|));
  }

  lemma {:induction false} WindowsRestored(c: Config, ops: seq<Op>)
    requires ValidConfig(c) && Ample(c) && OnlyWrites(c, ops)
    ensures var s := Run(c, ops);
      var r := Restored(c, s.log, |s.log|);
      NoTombstone(s.log) && r.log == s.log && r.live == s.live && r.sums == s.sums
  {
    hide ValidConfig, Ample, Apply, EffectOf, AddEvent, HasRoom, Restore, Rewritten;
    if ops != [] {
      var n := |ops| - 1;
      var init, op := ops[..n], ops[n];
      var s := Run(c, init);
      forall i | 0 <= i < n ensures init[..i] == ops[..i] && init[i] == ops[i] {}
      WindowsRestored(c, init);
      StepEffect(c, s, op);
      StepSums(c, s, op);
      match EffectOf(c, s, op)
      case Writes(v) =>
        var r := Record(op.key, v);
        WritesValue(c, s, op);
        RestoredPrefix(c, s.log, r, |s.log|);
        RestoredRoom(c, init);
        assert (s.log + [r])[..|s.log| + 1] == s.log + [r];
        RestoreSums(c, Restored(c, s.log, |s.log|), s.log + [r], |s.log|);
        SameRewritten(c, s, Restored(c, s.log, |s.log|), op.key, v);
      case Keeps =>
      case Buries => BuriesLive(c, s, op);
      case Loses => BuriesLive(c, s, op);
    }
  }

  lemma SameRewritten(c: Config, s: PState, r: PState, k: Bytes, v: Bytes)
    requires s.log == r.log && s.live == r.live && s.sums == r.sums
    ensures Rewritten(c, s, k, v) == Rewritten(c, r, k, v)
  {
    hide Mix, AddEvent, Neg;
  }

  /** After writes alone, none under an empty key, a reopened PMap reports at every moment what the old one would have. */
  lemma ReportsSurvive(c: Config, ops: seq<Op>, now: int)
    requires ValidConfig(c) && Ample(c) && OnlyWrites(c, ops) && forall i | 0 <= i < |ops| :: |ops[i].key| > 0
    ensures Reopened(c, Run(c, ops).log).sums == Run(c, ops).sums
    ensures AddEvent(Reopened(c, Run(c, ops).log).sums, 0, now).oldSum == Asked(c, ops, now).oldSum
  {
    hide ValidConfig, Ample, Run, OnlyWrites, Restored, AddEvent, BeforeEmpty, Stop, EffectOf;
    NoEmptyKey(c, ops);
    WalkOfRun(c, ops);
    assert ops[..|ops|] == ops;
    WindowsRestored(c, ops);
  }

  // A deletion is what moves them.

  /** The windows after a pair was set and deleted more than a second later. */
  lemma SetThenDelete(c: Config, k: Bytes, v: Bytes, w: Bytes)
    requires ValidConfig(c) && Ample(c) && |v| >= 8 && |w| >= 8 && ZERO_TIME < Time(v) && Time(v) + SECOND < Time(w)
    requires 24 + 2 * |k| + |v| < c.size
    ensures var s := Run(c, [Op.Set(k, v), Op.Del(k, w)]);
      s.log == [Record(k, v), Record(k, [])] && s.live == map[] && s.sums.newTime == NextSecond(Time(w))
  {
    hide ValidConfig, Ample, Mix, Time, LogLen, HasRoom, Neg, Lost, NextSecond;
    var a, b := Op.Set(k, v), Op.Del(k, w);
    assert [a, b][..1] == [a] && [a][..0] == [];
    AfterSet(c, k, v);
    var s := Run(c, [a]);
    assert Value(s, k) == v;
    StepEffect(c, s, b);
    assert s.sums.newTime <= NextSecond(Time(v)) by { hide Apply; FirstBoundary(c, k, v); }
    assert [Record(k, v)] + [Record(k, [])] == [Record(k, v), Record(k, [])];
    assert map[k := 0] - {k} == map[];
    assert Run(c, [a, b]) == DoDel(c, s, k, w).s;
  }

  lemma FirstBoundary(c: Config, k: Bytes, v: Bytes)
    requires ZERO_TIME < Time(v)
    ensures Run(c, [Op.Set(k, v)]).sums.newTime <= NextSecond(Time(v))
  {
    hide Mix, Time, LogLen, HasRoom, Neg;
    var a := Op.Set(k, v);
    assert [a][..0] == [];
    assert Run(c, []) == Empty(c);
    GrownShape(Empty(c));
  }

  lemma RestoredPair(c: Config, k: Bytes, v: Bytes)
    requires |v| >= 8 && ZERO_TIME < Time(v) && 24 + 2 * |k| + |v| < c.size < TWO32 && Time(v) >= TWO60
    ensures var log := [Record(k, v), Record(k, [])];
      Restored(c, log, 2).sums.newTime <= NextSecond(Time(v))
  {
    hide Mix, HasRoom, Neg, Xor64, LogLen, FromLE, ToLE, NextSecond;
    var log := [Record(k, v), Record(k, [])];
    assert Peek(log, 1) == |k| by { PairLength(k, v); hide Peek; TombstoneWord(log, 1); }
    var p := Restored(c, log, 1);
    assert Restored(c, log, 0) == Empty(c);
    GrownShape(Empty(c));
    assert p.sums.newTime <= NextSecond(Time(v));
    assert Restored(c, log, 2) == Restore(c, p, log, 1);
    assert Restore(c, p, log, 1).sums.newTime <= NextSecond(Time(v)) by { hide Restored; GrownShape(p); }
  }

  lemma PairLength(k: Bytes, v: Bytes)
    ensures LogLen([Record(k, v), Record(k, [])]) == 24 + 2 * |k| + |v|
  {
    var log := [Record(k, v), Record(k, [])];
    assert log[..1] == [Record(k, v)] && [Record(k, v)][..0] == [];
    assert LogLen([Record(k, v)]) == 12 + |k| + |v|;
  }

  lemma PairReplay(k: Bytes, v: Bytes)
    ensures Replay([Record(k, v), Record(k, [])]) == map[]
  {
    ReplayEmpty();
    ReplayAppend([], Record(k, v));
    ReplayAppend([Record(k, v)], Record(k, []));
    assert [] + [Record(k, v)] == [Record(k, v)] && [Record(k, v)] + [Record(k, [])] == [Record(k, v), Record(k, [])];
  }

  /** A tombstone carries no time: reopening counts the deletion at a moment long past, and the newest boundary goes back. */
  lemma DeletionMovesWindows(c: Config, k: Bytes, v: Bytes, w: Bytes)
    requires ValidConfig(c) && Ample(c) && |k| > 0 && |v| >= 8 && |w| >= 8 && TWO60 <= Time(v) && Time(v) + SECOND < Time(w)
    requires 24 + 2 * |k| + |v| < c.size
    ensures var s := Run(c, [Op.Set(k, v), Op.Del(k, w)]);
      && Replay(s.log) == s.live == map[]
      && Reopened(c, s.log).sums.newTime < s.sums.newTime
  {
    hide Ample, Run, Restored, Time, Stop, NextSecond, Replay;
    var log := [Record(k, v), Record(k, [])];
    SetThenDelete(c, k, v, w);
    RestoredPair(c, k, v);
    assert Stop(log) == 2 && Walked(log) == log;
    PairReplay(k, v);
  }
}
