/** Runs of a chunk in which client operations, defragmentations and restarts alternate freely. */
module ChunkRuns {
  import opened ByteStrings
  import opened RecordLog
  import opened TimedMap
  import opened PMapSpec
  import opened PMapRuns
  import opened PMapHistory
  import opened PMapChecksum
  import opened Recovery
  import opened Defrag
  import opened DefragLimits
  import opened GetAnswers

  /**
   A chunk and its file. `file` is the revision in the name of the file the PMap is mapped on; there is none
   for a chunk in memory, nor once the file was deleted under the PMap. `counter` is the revision counter.
   */
  datatype Slot = Slot(pm: Option<PState>, file: Option<nat>, counter: nat)

  /** Defragmentation carries what Get answers while it iterates. */
  datatype ChunkOp = Client(op: Op) | Defragment(answers: Dict) | Reopen

  function FileOf(disk: bool, revision: nat): (f: Option<nat>)
  {
    if disk then Some(revision) else None
  }

  /** The file that defragmentation creates, and truncates, is the one it copies from. */
  predicate Collides(ch: Slot)
  {
    ch.file == Some(ch.counter + 1)
  }

  /** What is left then: the old PMap reads zeros, nothing is copied, and the file is deleted at the end. */
  function Truncated(c: Config, ch: Slot): (r: Slot)
  {
    Slot(Some(Empty(c)), None, ch.counter + 1)
  }

  function ChunkStep(c: Config, disk: bool, ch: Slot, e: ChunkOp): (r: Slot)
    requires ch.pm.Some?
  {
    var s := ch.pm.value;
    match e
    case Client(op) => ch.(pm := Some(Apply(c, s, op).s))
    case Defragment(a) =>
      if Collides(ch) then Truncated(c, ch)
      else Slot(Some(Defragged(c, s, a, |s.log|).s), FileOf(disk, ch.counter + 1), ch.counter + 1)
    case Reopen =>
      if ch.file.None? then Slot(None, None, 0) else Slot(Some(Reopened(c, s.log)), ch.file, 0)
  }

  /** What the client operations below keep, and defragmentation relies on. */
  ghost predicate Healthy(c: Config, s: PState)
  {
    Inv(c, s) && FreshTimes(s.log) && HighTimes(s.log) && GoodKeysIn(c, s.log)
  }

  /** No earlier record of the key carries the same timestamp, and the timestamp is after 2006. */
  ghost predicate FreshFor(log: seq<Record>, k: Bytes, v: Bytes)
  {
    && Stamp(v) >= TWO60
    && forall i | 0 <= i < |log| && log[i].key == k && |log[i].val| >= 8 :: Stamp(log[i].val) != Stamp(v)
  }

  /**
   Client operations use ordinary hashes and write fresh timestamps, and deletions of a live key carry one;
   whatever is refused, they may come at any time. A defragmentation must not collide with its own file. A
   restart needs a file, no lost key, no empty key and 4 bytes left.
   */
  ghost predicate Admissible(c: Config, ch: Slot, e: ChunkOp)
    requires ch.pm.Some?
  {
    var s := ch.pm.value;
    match e
    case Client(op) =>
      && GoodHash(c, op.key) && (op.Del? && op.key in s.live ==> |op.value| >= 8)
      && (EffectOf(c, s, op).Writes? ==> FreshFor(s.log, op.key, EffectOf(c, s, op).v))
    case Defragment(a) => Answers(c, s, a) && !Collides(ch)
    case Reopen =>
      && ch.file.Some? && Tracks(s, {})
      && (forall i | 0 <= i < |s.log| :: |s.log[i].key| > 0) && LogLen(s.log) + 4 <= c.size
  }

  lemma FreshAppend(c: Config, log: seq<Record>, r: Record)
    requires FreshTimes(log) && HighTimes(log) && GoodKeysIn(c, log)
    requires GoodHash(c, r.key) && (|r.val| >= 8 ==> FreshFor(log, r.key, r.val))
    ensures FreshTimes(log + [r]) && HighTimes(log + [r]) && GoodKeysIn(c, log + [r])
  {
    hide Stamp, GoodHash;
  }

  lemma ClientHealthy(c: Config, s: PState, op: Op)
    requires Healthy(c, s) && GoodHash(c, op.key)
    requires EffectOf(c, s, op).Writes? ==> FreshFor(s.log, op.key, EffectOf(c, s, op).v)
    ensures Healthy(c, Apply(c, s, op).s)
  {
    hide Inv, FreshTimes, HighTimes, GoodKeysIn, Apply, FreshFor, EffectOf, GoodHash;
    StepRefines(c, s, op);
    StepEffect(c, s, op);
    match EffectOf(c, s, op)
    case Keeps =>
    case Writes(v) => FreshAppend(c, s.log, Record(op.key, v));
    case Buries => FreshAppend(c, s.log, Record(op.key, []));
    case Loses =>
  }

  lemma HealthyIsUnambiguous(c: Config, s: PState)
    requires Healthy(c, s) && c.size <= TWO28
    ensures Points(s) && Unambiguous(s)
  {
    hide LogLen, GoodLog, FreshTimes, HighTimes, GoodKeysIn, Unambiguous, Points, Replay, InReplay, Counted;
    EmptyLogLen(s.log);
    FreshIsUnambiguous(s);
  }

  lemma TracksNothing(s: PState)
    ensures Tracks(s, {}) <==> Replay(s.log) == s.live
  {
    hide Replay;
  }

  /** The compacted log has one record per key. */
  lemma LiveRecordsFresh(c: Config, s: PState)
    requires Points(s) && HighTimes(s.log) && GoodKeysIn(c, s.log)
    ensures var l := LiveRecords(s, |s.log|);
      FreshTimes(l) && HighTimes(l) && GoodKeysIn(c, l)
  {
    hide Stamp, GoodHash, LiveRecords;
    LiveRecordsExact(s, |s.log|);
    var l := LiveRecords(s, |s.log|);
    forall i | 0 <= i < |l| ensures l[i] in s.log {
      assert l[i] in l;
      assert l[i] == s.log[s.live[l[i].key]];
    }
  }

  lemma DefragHealthy(c: Config, s: PState, a: Dict)
    requires ValidConfig(c) && Ample(c) && c.size <= TWO28 && Healthy(c, s) && Answers(c, s, a)
    ensures Defragged(c, s, a, |s.log|).out.Ok? && Healthy(c, Defragged(c, s, a, |s.log|).s)
    ensures Contents(Defragged(c, s, a, |s.log|).s) == Contents(s)
  {
    hide ValidConfig, Ample, Inv, FreshTimes, HighTimes, GoodKeysIn, Defragged, Contents, LogLen, LiveRecords, Unambiguous, Points, LiveBytes, PairSum, Replay, Answers, Right;
    HealthyIsUnambiguous(c, s);
    GoodIsRight(c, s, a);
    DefragExact(c, c, s, a);
    LiveRecordsFresh(c, s);
  }

  /** Opening does not panic, and finds the same pairs. */
  lemma ReopenHealthy(c: Config, s: PState)
    requires ValidConfig(c) && Ample(c) && Healthy(c, s)
    requires Tracks(s, {}) && (forall i | 0 <= i < |s.log| :: |s.log[i].key| > 0) && LogLen(s.log) + 4 <= c.size
    ensures Restart(c, s.log) == Some(Reopened(c, s.log))
    ensures Healthy(c, Reopened(c, s.log)) && Contents(Reopened(c, s.log)) == Contents(s)
  {
    hide ValidConfig, Ample, Inv, Tracks, FreshTimes, HighTimes, GoodKeysIn, Reopened, Contents, LogLen, LiveBytes, PairSum, Replay, GoodLog, Stop;
    InvLog(c, s);
    ReopenExact(c, s.log);
    WholeWalk(s.log);
    TracksNothing(s);
    SameContents(s, Reopened(c, s.log));
  }

  /** A new chunk, present and empty. */
  function NewSlot(c: Config, disk: bool): (ch: Slot)
  {
    Slot(Some(Empty(c)), FileOf(disk, 0), 0)
  }

  /** A run of a chunk; once it is gone it stays so. */
  function ChunkRun(c: Config, disk: bool, es: seq<ChunkOp>): (ch: Slot)
  {
    if es == [] then NewSlot(c, disk)
    else
      var ch := ChunkRun(c, disk, es[..|es| - 1]);
      if ch.pm.None? then ch else ChunkStep(c, disk, ch, es[|es| - 1])
  }

  /** Every step of the run was admissible when it was taken. */
  ghost predicate AdmissibleRun(c: Config, disk: bool, es: seq<ChunkOp>)
  {
    es == [] ||
    (var ch := ChunkRun(c, disk, es[..|es| - 1]);
     AdmissibleRun(c, disk, es[..|es| - 1]) && ch.pm.Some? && Admissible(c, ch, es[|es| - 1]))
  }

  predicate Executed(c: Config, ch: Slot, e: ChunkOp)
  {
    e.Client? && ch.pm.Some? && !(Apply(c, ch.pm.value, e.op).out.Refused() && !e.op.Del?)
  }

  /** The client operations of a run that took effect. */
  function Effective(c: Config, disk: bool, es: seq<ChunkOp>): (ops: seq<Op>)
  {
    if es == [] then []
    else
      var init, e := es[..|es| - 1], es[|es| - 1];
      if Executed(c, ChunkRun(c, disk, init), e) then Effective(c, disk, init) + [e.op] else Effective(c, disk, init)
  }

  lemma EmptyHealthy(c: Config)
    requires ValidConfig(c)
    ensures Healthy(c, Empty(c)) && Contents(Empty(c)) == map[]
  {
    EmptyInv(c);
  }

  /** One admissible step. */
  lemma StepHealthy(c: Config, disk: bool, ch: Slot, e: ChunkOp)
    requires ValidConfig(c) && Ample(c) && c.size <= TWO28
    requires ch.pm.Some? && Healthy(c, ch.pm.value) && Admissible(c, ch, e)
    ensures var r := ChunkStep(c, disk, ch, e);
      && r.pm.Some? && Healthy(c, r.pm.value)
      && Contents(r.pm.value)
           == if Executed(c, ch, e) then DictStep(c.hash, Contents(ch.pm.value), e.op) else Contents(ch.pm.value)
  {
    hide ValidConfig, Ample, Healthy, Contents, Apply, Defragged, Reopened, DictStep, Empty, Answers, EffectOf, FreshFor, GoodHash, Tracks, LogLen;
    var s := ch.pm.value;
    match e
    case Client(op) =>
      ClientHealthy(c, s, op);
      assert Inv(c, s) by { HealthyInv(c, s); }
      StepRefines(c, s, op);
    case Defragment(a) => DefragHealthy(c, s, a);
    case Reopen => ReopenHealthy(c, s);
  }

  /**
   Defragmentations and restarts, wherever they are admissible, are invisible: the pairs are those of
   the plain dictionary fed with the client operations alone.
   */
  lemma {:induction false} ChunkRunRefines(c: Config, disk: bool, es: seq<ChunkOp>)
    requires ValidConfig(c) && Ample(c) && c.size <= TWO28 && AdmissibleRun(c, disk, es)
    ensures ChunkRun(c, disk, es).pm.Some? && Healthy(c, ChunkRun(c, disk, es).pm.value)
    ensures Contents(ChunkRun(c, disk, es).pm.value) == DictRun(c.hash, map[], Effective(c, disk, es))
  {
    hide ValidConfig, Ample, Healthy, Admissible, Contents, ChunkStep, DictStep, Empty, Executed;
    if es == [] {
      EmptyHealthy(c);
    } else {
      var init, e := es[..|es| - 1], es[|es| - 1];
      ChunkRunRefines(c, disk, init);
      StepHealthy(c, disk, ChunkRun(c, disk, init), e);
      if e.Client? && Executed(c, ChunkRun(c, disk, init), e) { DictRunSnoc(c.hash, Effective(c, disk, init), e.op); }
    }
  }

  // The file names.

  /** Over every run a defragmentation collides if and only if it is the first since a restart and the file has revision 1. */
  lemma {:induction false} CollidesIff(c: Config, disk: bool, es: seq<ChunkOp>)
    ensures var ch := ChunkRun(c, disk, es);
      && (ch.file.Some? ==> ch.file.value <= ch.counter || ch.counter == 0)
      && (Collides(ch) <==> ch.counter == 0 && ch.file == Some(1))
  {
    hide ChunkStep, NewSlot;
    if es == [] {
      FirstSlot(c, disk);
    } else {
      CollidesIff(c, disk, es[..|es| - 1]);
      StepNumbers(c, disk, ChunkRun(c, disk, es[..|es| - 1]), es[|es| - 1]);
    }
  }

  lemma FirstSlot(c: Config, disk: bool)
    ensures NewSlot(c, disk).counter == 0 && (NewSlot(c, disk).file.Some? ==> NewSlot(c, disk).file.value == 0)
  {}

  /** What a step does to the file and to the counter. */
  lemma StepNumbers(c: Config, disk: bool, ch: Slot, e: ChunkOp)
    ensures ch.pm.Some? ==>
      var r := ChunkStep(c, disk, ch, e);
      match e
      case Client(_) => r.file == ch.file && r.counter == ch.counter
      case Defragment(_) => r.counter == ch.counter + 1 && (r.file.Some? ==> r.file.value == r.counter)
      case Reopen => r.counter == 0
  {
    hide Apply, Defragged, Reopened;
  }

  /** Without a restart it never does. */
  lemma {:induction false} NoCollisionWithoutRestart(c: Config, disk: bool, es: seq<ChunkOp>)
    requires forall i | 0 <= i < |es| :: !es[i].Reopen?
    ensures !Collides(ChunkRun(c, disk, es))
    ensures ChunkRun(c, disk, es).file.Some? ==> ChunkRun(c, disk, es).file.value <= ChunkRun(c, disk, es).counter
  {
    hide ChunkStep, NewSlot;
    if es == [] {
      FirstSlot(c, disk);
    } else {
      NoCollisionWithoutRestart(c, disk, es[..|es| - 1]);
      StepNumbers(c, disk, ChunkRun(c, disk, es[..|es| - 1]), es[|es| - 1]);
    }
  }

  /** What a defragmentation may end in; `None` is a panic, which is also possible over a truncated file. */
  ghost predicate DefragAllows(c: Config, disk: bool, ch: Slot, a: Dict, r: Option<Slot>)
    requires ch.pm.Some?
  {
    var s := ch.pm.value;
    if Collides(ch) then r == None || r == Some(Truncated(c, ch))
    else if !Defragged(c, s, a, |s.log|).out.Ok? then r == None
    else r == Some(ChunkStep(c, disk, ch, Defragment(a)))
  }

  /**
   A defragmentation of a chunk that holds pairs keeps them if and only if it does not collide, no tombstone
   shows the timestamp Get answers and the first record shown for each key holds the live value.
   */
  lemma DefragStepIff(c: Config, disk: bool, ch: Slot, a: Dict, r: Option<Slot>)
    requires ValidConfig(c) && Ample(c) && ch.pm.Some? && Inv(c, ch.pm.value) && ch.pm.value.live != map[]
    requires DefragAllows(c, disk, ch, a, r)
    ensures var s := ch.pm.value;
      (r.Some? && r.value.pm.Some? && Contents(r.value.pm.value) == Contents(s))
      <==> !Collides(ch) && NoTombShown(s, a, |s.log|) && FirstShown(s, a, |s.log|) == Contents(s)
  {
    hide ValidConfig, Ample, Inv, Defragged, NoTombShown, FirstShown, Contents;
    var s := ch.pm.value;
    DefragKeepsIff(c, c, s, a);
    if Collides(ch) {
      assert Contents(Empty(c)) == map[] by { ContentsOfEmpty(c); }
      var k :| k in s.live;
      ValueOf(s, k);
    }
  }

  lemma ContentsOfEmpty(c: Config)
    ensures Contents(Empty(c)) == map[]
  {}

  lemma HealthyInv(c: Config, s: PState)
    requires Healthy(c, s)
    ensures Inv(c, s)
  {}
}
