/** Exactly when defragmentation keeps the pairs: what repeated timestamps and mistaken tombstones do. */
module DefragLimits {
  import opened ByteStrings
  import opened RecordLog
  import opened TimedMap
  import opened PMapSpec
  import opened PMapRuns
  import opened PMapHistory
  import opened Recovery
  import opened GetAnswers
  import opened Defrag

  /** No tombstone among the first n records shows the timestamp Get answers. */
  ghost predicate NoTombShown(s: PState, a: Dict, n: nat)
    requires n <= |s.log|
  {
    forall i | 0 <= i < n && Present(s, a, i) :: |s.log[i].val| >= 8
  }

  /** The first visited record of each key, among the first n. */
  function FirstShown(s: PState, a: Dict, n: nat): (m: Dict)
    requires n <= |s.log|
  {
    if n == 0 then map[]
    else
      var m, r := FirstShown(s, a, n - 1), s.log[n - 1];
      if Present(s, a, n - 1) && r.key !in m then m[r.key := r.val] else m
  }

  /** What is first shown carries the timestamp Get answers. */
  lemma {:induction false} FirstShownStamps(s: PState, a: Dict, n: nat, k: Bytes)
    requires n <= |s.log| && NoTombShown(s, a, n)
    ensures k in FirstShown(s, a, n) ==>
      k in a && |FirstShown(s, a, n)[k]| >= 8 && Stamp(FirstShown(s, a, n)[k]) == Stamp(a[k])
    decreases n
  {
    hide Stamp;
    if n > 0 {
      FirstShownStamps(s, a, n - 1, k);
    }
  }

  ghost predicate Copied(c: Config, s: PState, a: Dict, d: PState, n: nat)
    requires n <= |s.log|
  {
    Inv(c, d) && Contents(d) == FirstShown(s, a, n) && LogLen(d.log) <= Offset(s.log, n)
  }

  /** A record of a key that has been shown is dropped: its time is not later. */
  lemma SetAgain(c: Config, d: PState, k: Bytes, v: Bytes)
    requires |v| >= 8 && HasRoom(c, d) && k in d.live && Time(v) <= Time(Value(d, k))
    ensures DoSet(c, d, k, v) == Result(Grown(d), Ok)
  {
    hide HasRoom, Time;
    GrownShape(d);
    GrownContents(d, k);
  }

  lemma CopyStep(c: Config, o: Config, s: PState, a: Dict, d: PState, n: nat)
    requires ValidConfig(c) && Ample(c) && o.size <= c.size && Inv(o, s)
    requires n < |s.log| && Present(s, a, n) && NoTombShown(s, a, n + 1) && Copied(c, s, a, d, n)
    ensures var r := DoSet(c, d, s.log[n].key, s.log[n].val);
      r.out.Ok? && Copied(c, s, a, r.s, n + 1)
  {
    hide ValidConfig, Ample, Inv, Contents, LogLen, Offset, Stamp, HasRoom, Grown, DoSet, Written, Present;
    var k, v := s.log[n].key, s.log[n].val;
    assert |v| >= 8;
    OffsetStep(s.log, n);
    assert Roomy(c, d) by { InvRoomy(c, d); }
    AmpleHasRoom(c, d);
    ValueOf(d, k);
    if k in FirstShown(s, a, n) {
      FirstShownStamps(s, a, n, k);
      PresentStamp(s, a, n);
      SameTime(v, Value(d, k));
      SetAgain(c, d, k, v);
      GrownInv(c, d);
      GrownShape(d);
    } else {
      NextFitsIn(c, o, s, d, n);
      SetNew(c, d, k, v);
      GrownInv(c, d);
      GrownShape(d);
      WrittenInv(c, Grown(d), k, v);
      WrittenShape(c, Grown(d), k, v);
      AppendRecord(d.log, Record(k, v));
    }
  }

  lemma SameTime(v: Bytes, w: Bytes)
    requires Stamp(v) == Stamp(w)
    ensures Time(v) == Time(w)
  {}

  lemma PresentStamp(s: PState, a: Dict, n: nat)
    requires n < |s.log| && Present(s, a, n) && |s.log[n].val| >= 8
    ensures s.log[n].key in a && Stamp(s.log[n].val) == Stamp(a[s.log[n].key])
  {
    hide Stamp;
  }

  lemma InvRoomy(c: Config, s: PState)
    requires Inv(c, s)
    ensures Roomy(c, s)
  {}

  lemma NextFitsIn(c: Config, o: Config, s: PState, d: PState, n: nat)
    requires o.size <= c.size && Inv(o, s) && n < |s.log| && LogLen(d.log) <= Offset(s.log, n)
    ensures Fits(c, d, Record(s.log[n].key, s.log[n].val))
  {
    hide Inv, LogLen, Offset, LiveBytes;
    InvLog(o, s);
    OffsetStep(s.log, n);
    OffsetMonotone(s.log, n + 1, |s.log|);
    OffsetEnd(s.log);
    assert s.log != [];
  }

  /** Without a shown tombstone nothing panics, and the new map holds the first record shown for each key. */
  lemma {:induction false} DefragCopies(c: Config, o: Config, s: PState, a: Dict, n: nat)
    requires ValidConfig(c) && Ample(c) && o.size <= c.size && Inv(o, s)
    requires n <= |s.log| && NoTombShown(s, a, n)
    ensures Defragged(c, s, a, n).out.Ok? && Copied(c, s, a, Defragged(c, s, a, n).s, n)
    decreases n
  {
    hide ValidConfig, Ample, Inv, Present, DoSet, Empty, LogLen, Contents, Offset;
    if n == 0 {
      EmptyInv(c);
      EmptyCopied(c, s);
    } else {
      DefragCopies(c, o, s, a, n - 1);
      var d := Defragged(c, s, a, n - 1).s;
      if Present(s, a, n - 1) {
        CopyStep(c, o, s, a, d, n - 1);
      } else {
        OffsetStep(s.log, n - 1);
      }
    }
  }

  lemma EmptyCopied(c: Config, s: PState)
    ensures LogLen(Empty(c).log) <= Offset(s.log, 0)
  {}

  /** A shown tombstone is refused as too short a value, and that is a panic. */
  lemma {:induction false} TombShownPanics(c: Config, s: PState, a: Dict, n: nat, i: nat)
    requires n <= |s.log| && i < n && Present(s, a, i) && |s.log[i].val| < 8
    ensures !Defragged(c, s, a, n).out.Ok?
    decreases n
  {
    hide Present, HasRoom, SetIn, Grown;
    if i < n - 1 {
      TombShownPanics(c, s, a, n - 1, i);
    }
  }

  /**
   Defragmentation succeeds and keeps every pair exactly when no tombstone shows the timestamp Get answers
   and the first record of each key that shows it holds the live value.
   */
  lemma DefragKeepsIff(c: Config, o: Config, s: PState, a: Dict)
    requires ValidConfig(c) && Ample(c) && o.size <= c.size && Inv(o, s)
    ensures var r := Defragged(c, s, a, |s.log|);
      (r.out.Ok? && Contents(r.s) == Contents(s))
      <==> NoTombShown(s, a, |s.log|) && FirstShown(s, a, |s.log|) == Contents(s)
  {
    hide ValidConfig, Ample, Inv, Present, Defragged, FirstShown, Contents, LogLen, Offset;
    if NoTombShown(s, a, |s.log|) {
      DefragCopies(c, o, s, a, |s.log|);
    } else {
      var i :| 0 <= i < |s.log| && Present(s, a, i) && |s.log[i].val| < 8;
      TombShownPanics(c, s, a, |s.log|, i);
    }
  }

  lemma {:induction false} ShownOfAnswered(s: PState, a: Dict, n: nat)
    requires n <= |s.log|
    ensures FirstShown(s, a, n).Keys <= a.Keys
    decreases n
  {
    hide Stamp;
    if n > 0 { ShownOfAnswered(s, a, n - 1); }
  }

  lemma {:induction false} SameShown(s: PState, a: Dict, b: Dict, n: nat)
    requires n <= |s.log| && forall i | 0 <= i < |s.log| :: Present(s, a, i) <==> Present(s, b, i)
    ensures FirstShown(s, a, n) == FirstShown(s, b, n) && (NoTombShown(s, a, n) <==> NoTombShown(s, b, n))
    decreases n
  {
    hide Present;
    if n > 0 { SameShown(s, a, b, n - 1); }
  }

  /**
   In terms of the hashes, where none is 1: if and only if no live key has hash 0, no tombstone shows a live
   timestamp and the first record of each key that shows it holds the live value.
   */
  lemma DefragKeepsIffGood(c: Config, o: Config, s: PState, a: Dict)
    requires ValidConfig(c) && Ample(c) && o.size <= c.size && Inv(o, s) && Answers(c, s, a) && NoHashOne(c, s.log)
    ensures var r := Defragged(c, s, a, |s.log|);
      var m := Contents(s);
      (r.out.Ok? && Contents(r.s) == m)
      <==> LiveAreGood(c, s) && NoTombShown(s, m, |s.log|) && FirstShown(s, m, |s.log|) == m
  {
    hide ValidConfig, Ample, GoodLog, InReplay, Roomy, Counted, Defragged, FirstShown, NoTombShown, Contents, Stamp, Peek;
    var n, m := |s.log|, Contents(s);
    DefragKeepsIff(c, o, s, a);
    RightIff(c, s, a);
    if LiveAreGood(c, s) {
      SameShown(s, a, m, n);
    } else {
      var k :| k in s.live && !GoodHash(c, k);
      ValueOf(s, k);
      assert s.log[s.live[k]].key == k;
      assert k !in a;
      ShownOfAnswered(s, a, n);
    }
  }

  /** Three records of one key, the first and the last with the same timestamp: whatever Get answers, w is not kept. */
  lemma RepeatedTimeShown(c: Config, s: PState, a: Dict, k: Bytes, v: Bytes, w: Bytes)
    requires |v| >= 8 && |w| >= 8 && v != w && Stamp(v) == Stamp(w) && Answers(c, s, a)
    requires s.log == [Record(k, v), Record(k, []), Record(k, w)] && s.live == map[k := 2]
    ensures FirstShown(s, a, 3) != Contents(s)
  {
    hide Stamp, GoodHash, FirstShown;
    assert Contents(s)[k] == w;
    if k in a {
      assert GetAllows(c, s, s.log[0].key, Lookup(a, s.log[0].key));
      assert Record(k, a[k]) in s.log;
      assert Stamp(a[k]) == Stamp(v);
      assert Present(s, a, 0);
      FirstOne(s, a);
      ShownFirst(s, a, 1, 2, k);
      ShownFirst(s, a, 2, 3, k);
    } else {
      ShownOfAnswered(s, a, 3);
    }
  }

  lemma FirstOne(s: PState, a: Dict)
    requires |s.log| > 0 && Present(s, a, 0)
    ensures FirstShown(s, a, 1) == map[s.log[0].key := s.log[0].val]
  {
    hide Stamp;
  }

  /** One step of a run that has enough space. */
  lemma SpaciousStep(c: Config, ops: seq<Op>, op: Op)
    requires ValidConfig(c) && Ample(c) && Volume(ops) + Cost(op) < c.size
    ensures HasRoom(c, Run(c, ops)) && Fits(c, Run(c, ops), Record(op.key, if op.Set? then op.value else []))
    ensures Run(c, ops + [op]) == Apply(c, Run(c, ops), op).s
  {
    hide ValidConfig, Ample, Run, Inv, LogLen, Volume, Apply;
    RunRefines(c, ops);
    InvRoomy(c, Run(c, ops));
    AmpleHasRoom(c, Run(c, ops));
    RunLogLen(c, ops);
    RunSnoc(c, ops, op);
  }

  lemma RunSnoc(c: Config, ops: seq<Op>, op: Op)
    ensures Run(c, ops + [op]) == Apply(c, Run(c, ops), op).s
  {
    hide Apply;
    assert (ops + [op])[..|ops|] == ops;
  }

  lemma VolumeSnoc(ops: seq<Op>, op: Op)
    ensures Volume(ops + [op]) == Volume(ops) + Cost(op)
  {
    assert (ops + [op])[..|ops|] == ops;
  }

  /** Set v, delete it, set w: three records, the last one live. */
  lemma SetDelSet(c: Config, k: Bytes, v: Bytes, w: Bytes)
    requires ValidConfig(c) && Ample(c) && |v| >= 8 && |w| >= 8
    requires 36 + 3 * |k| + |v| + |w| < c.size
    ensures Run(c, [Op.Set(k, v), Op.Del(k, v), Op.Set(k, w)]).log == [Record(k, v), Record(k, []), Record(k, w)]
    ensures Run(c, [Op.Set(k, v), Op.Del(k, v), Op.Set(k, w)]).live == map[k := 2]
  {
    hide ValidConfig, Ample, Run, Volume, Apply, HasRoom, Fits, Time, LogLen;
    var a, b, d := Op.Set(k, v), Op.Del(k, v), Op.Set(k, w);
    assert [] + [a] == [a] && [a] + [b] == [a, b] && [a, b] + [d] == [a, b, d];
    VolumeSnoc([], a);
    VolumeSnoc([a], b);
    VolumeNone();
    RunNone(c);
    SpaciousStep(c, [], a);
    StepEffect(c, Run(c, []), a);
    assert Run(c, [a]).log == [Record(k, v)] && Run(c, [a]).live == map[k := 0];
    SpaciousStep(c, [a], b);
    StepEffect(c, Run(c, [a]), b);
    assert Run(c, [a, b]).log == [Record(k, v), Record(k, [])] && Run(c, [a, b]).live == map[];
    SpaciousStep(c, [a, b], d);
    StepEffect(c, Run(c, [a, b]), d);
  }

  lemma VolumeNone()
    ensures Volume([]) == 0
  {}

  lemma RunNone(c: Config)
    ensures Run(c, []) == Empty(c)
  {}

  /**
   A repeated timestamp loses an update: set v, delete it, set w with the time of v, defragment. The pair
   is not w afterwards.
   */
  lemma RepeatedTimeLosesUpdate(c: Config, k: Bytes, v: Bytes, w: Bytes, a: Dict)
    requires ValidConfig(c) && Ample(c) && |v| >= 8 && |w| >= 8 && v != w && Stamp(v) == Stamp(w)
    requires 36 + 3 * |k| + |v| + |w| < c.size
    requires Answers(c, Run(c, [Op.Set(k, v), Op.Del(k, v), Op.Set(k, w)]), a)
    ensures var s := Run(c, [Op.Set(k, v), Op.Del(k, v), Op.Set(k, w)]);
      Contents(s) == map[k := w] && !(Defragged(c, s, a, |s.log|).out.Ok? && Contents(Defragged(c, s, a, |s.log|).s) == Contents(s))
  {
    hide ValidConfig, Ample, Run, Stamp, Defragged, Present, FirstShown, Answers;
    var ops := [Op.Set(k, v), Op.Del(k, v), Op.Set(k, w)];
    var s := Run(c, ops);
    SetDelSet(c, k, v, w);
    RunRefines(c, ops);
    RepeatedTimeShown(c, s, a, k, v, w);
    DefragKeepsIff(c, c, s, a);
  }

  lemma ShownFirst(s: PState, a: Dict, n: nat, n': nat, k: Bytes)
    requires n' == n + 1 <= |s.log| && k in FirstShown(s, a, n)
    ensures k in FirstShown(s, a, n') && FirstShown(s, a, n')[k] == FirstShown(s, a, n)[k]
  {
    hide Present;
  }
}
