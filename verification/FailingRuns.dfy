/** Short runs from a new PMap at which the promises of restart, checksum and defragmentation fail. */
module FailingRuns {
  import opened ByteStrings
  import opened RecordLog
  import opened Checksum
  import opened TimedMap
  import opened PMapSpec
  import opened PMapRuns
  import opened PMapHistory
  import opened PMapChecksum
  import opened Recovery
  import opened Restarts
  import opened ReportedSums
  import opened Defrag
  import opened DefragLimits
  import opened GetAnswers
  import opened ChunkRuns

  lemma HasRoomAfter(c: Config, ops: seq<Op>)
    requires ValidConfig(c) && Ample(c)
    ensures HasRoom(c, Run(c, ops))
  {
    hide ValidConfig, Ample, Run, Inv;
    RunRefines(c, ops);
    InvRoomy(c, Run(c, ops));
    AmpleHasRoom(c, Run(c, ops));
  }

  /** One Set that fits. */
  lemma AfterSet(c: Config, k: Bytes, v: Bytes)
    requires ValidConfig(c) && Ample(c) && |v| >= 8 && RecLen(Record(k, v)) < c.size
    ensures var s := Run(c, [Op.Set(k, v)]);
      && s.log == [Record(k, v)] && s.live == map[k := 0] && s.deleted == 0 && LogLen(s.log) == RecLen(Record(k, v))
      && Contents(s) == map[k := v]
    ensures Lost(c, [Op.Set(k, v)]) == {} && Drift(c, [Op.Set(k, v)]) == 0
  {
    hide ValidConfig, Ample, Apply, HasRoom, Time;
    var op := Op.Set(k, v);
    assert [op][..0] == [];
    HasRoomAfter(c, []);
    StepEffect(c, Run(c, []), op);
    StepDeleted(c, Run(c, []), op);
    AppendRecord([], Record(k, v));
    assert [] + [Record(k, v)] == [Record(k, v)];
    EmptyLogLen([]);
  }

  /**
   A deletion in a full store: the key is gone, its tombstone is refused, and reopening brings the pair
   back and forgets the deleted bytes.
   */
  lemma RefusedTombstone(c: Config, k: Bytes, v: Bytes)
    requires ValidConfig(c) && Ample(c) && |v| >= 8 && |k| > 0
    requires RecLen(Record(k, v)) + 4 <= c.size <= RecLen(Record(k, v)) + 12 + |k|
    ensures var ops := [Op.Set(k, v), Op.Del(k, v)];
      && Lost(c, ops) == {k} && Contents(Run(c, ops)) == map[] && !RestartKeeps(c, Run(c, ops))
      && Restart(c, Run(c, ops).log).Some? && Contents(Restart(c, Run(c, ops).log).value) == map[k := v]
      && Reopened(c, Run(c, ops).log).deleted == 0 < Run(c, ops).deleted == RecLen(Record(k, v))
  {
    hide ValidConfig, Ample, Apply, Run, Lost, HasRoom, Time, Reopened, Inv, LiveBytes, PairSum, Drift;
    var a, d := Op.Set(k, v), Op.Del(k, v);
    var ops := [a, d];
    AfterSet(c, k, v);
    var p, s := Run(c, [a]), Run(c, ops);
    assert ops == [a] + [d];
    RunSnoc(c, [a], d);
    LostSnoc(c, [a], d);
    StepEffect(c, p, d);
    StepDeleted(c, p, d);
    assert EffectOf(c, p, d) == Loses;
    assert s.log == [Record(k, v)] && s.live == map[];
    OnePairReopened(c, s.log, k, v);
    assert k in Contents(Reopened(c, s.log));
  }

  lemma LostSnoc(c: Config, ops: seq<Op>, op: Op)
    ensures Lost(c, ops + [op]) == LostAfter(c, Run(c, ops), op, Lost(c, ops))
    ensures Drift(c, ops + [op]) == Drift(c, ops) + StepDrift(c, Run(c, ops), op)
  {
    hide LostAfter, StepDrift;
    assert (ops + [op])[..|ops|] == ops;
  }

  lemma OnePairReopened(c: Config, log: seq<Record>, k: Bytes, v: Bytes)
    requires ValidConfig(c) && Ample(c) && |v| >= 8 && |k| > 0
    requires log == [Record(k, v)] && RecLen(Record(k, v)) < c.size
    ensures Contents(Reopened(c, log)) == map[k := v] && Reopened(c, log).deleted == 0
    ensures Stop(log) == 1 && LogLen(log) == RecLen(Record(k, v))
  {
    hide ValidConfig, Ample, Inv, Reopened, PairSum;
    assert log[..0] == [];
    AppendRecord([], log[0]);
    EmptyLogLen([]);
    assert [] + [log[0]] == log;
    WholeWalk(log);
    assert GoodLog(log) by { assert GoodRecord(log, 0); }
    ReopenExact(c, log);
    ReplayAppend([], log[0]);
    ReplayEmpty();
    var s := Reopened(c, log);
    assert s.live == map[k := 0];
    assert Contents(s) == map[k := v];
    SizesPut(map[], k, v);
    assert map[][k := v] == map[k := v];
    assert Sizes(map[] - {k}) == map[];
    TotalEmpty();
  }

  /** A pair under the empty key hides every later record from a restart, though nothing was refused. */
  lemma EmptyKeyForgotten(c: Config, v: Bytes, k: Bytes, w: Bytes)
    requires ValidConfig(c) && Ample(c) && |v| >= 8 && |w| >= 8 && |k| > 0
    requires 24 + |v| + |k| + |w| < c.size
    ensures var ops := [Op.Set([], v), Op.Set(k, w)];
      && Lost(c, ops) == {} && Contents(Run(c, ops)) == map[[] := v, k := w]
      && Restart(c, Run(c, ops).log).Some? && Contents(Restart(c, Run(c, ops).log).value) == map[]
      && !RestartKeeps(c, Run(c, ops))
  {
    hide ValidConfig, Ample, Apply, Run, Lost, HasRoom, Time, Inv, LiveBytes, PairSum, Drift, LogLen, GoodLog, Reopened;
    var a, b := Op.Set([], v), Op.Set(k, w);
    var ops := [a, b];
    AfterSet(c, [], v);
    var p, s := Run(c, [a]), Run(c, ops);
    assert ops == [a] + [b];
    HasRoomAfter(c, [a]);
    RunSnoc(c, [a], b);
    LostSnoc(c, [a], b);
    StepEffect(c, p, b);
    assert s.log == [Record([], v), Record(k, w)] && s.live == map[[] := 0, k := 1];
    assert Contents(s) == map[[] := v, k := w];
    assert Stop(s.log) == 0 && Walked(s.log) == [];
    RunRefines(c, ops);
    InvLog(c, s);
    ReopenExact(c, s.log);
    ReplayEmpty();
    assert [] in Contents(s);
  }

  /** With 1 to 3 bytes behind the log a restart panics, though nothing was refused. */
  lemma NoSpareBytes(c: Config, k: Bytes, v: Bytes)
    requires ValidConfig(c) && Ample(c) && |v| >= 8 && |k| > 0
    requires RecLen(Record(k, v)) < c.size < RecLen(Record(k, v)) + 4
    ensures Lost(c, [Op.Set(k, v)]) == {} && Restart(c, Run(c, [Op.Set(k, v)]).log) == None
  {
    hide ValidConfig, Ample, Run, Lost, LogLen, Reopened, Drift;
    AfterSet(c, k, v);
    WholeWalk(Run(c, [Op.Set(k, v)]).log);
  }

  /** The argument of a swap that names the version v and writes y. */
  function Swap(hash: Hash, v: Bytes, y: Bytes): (x: Bytes)
    requires |v| >= 8
    ensures |x| == 16 + |y|
  {
    v[..8] + ToLE(hash(v[8..]), 8) + y
  }

  lemma SwapNames(hash: Hash, m: Dict, k: Bytes, v: Bytes, y: Bytes)
    requires |v| >= 8 && |y| >= 8 && k in m && m[k] == v
    ensures CasVerdict(hash, m, k, Swap(hash, v, y)).Ok? && Swap(hash, v, y)[16..] == y
  {
    hide FromLE, ToLE;
    var x := Swap(hash, v, y);
    assert x[..8] == v[..8] && x[8..16] == ToLE(hash(v[8..]), 8) && x[16..] == y;
    U64RoundTrip(hash(v[8..]));
  }

  /** A swap that names the stored version but does not fit: the pair stays, and leaves the checksum. */
  lemma RefusedSwap(c: Config, k: Bytes, v: Bytes, y: Bytes)
    requires ValidConfig(c) && Ample(c) && |v| >= 8 && |y| >= 8
    requires RecLen(Record(k, v)) < c.size <= RecLen(Record(k, v)) + RecLen(Record(k, y))
    requires c.hash(k) != Stamp(v)
    ensures var ops := [Op.Set(k, v), Op.Cas(k, Swap(c.hash, v, y))];
      && Contents(Run(c, ops)) == map[k := v] && Drift(c, ops) == Mix(c.hash, k, v)
      && Run(c, ops).sums.newSum != PairSum(c.hash, Contents(Run(c, ops))) % TWO64
  {
    hide ValidConfig, Ample, Apply, Run, Lost, HasRoom, Time, CasVerdict, Swap, Drift, Mix, PairSum, Stamp;
    var a, d := Op.Set(k, v), Op.Cas(k, Swap(c.hash, v, y));
    var ops := [a, d];
    AfterSet(c, k, v);
    var p, s := Run(c, [a]), Run(c, ops);
    assert ops == [a] + [d];
    HasRoomAfter(c, [a]);
    RunSnoc(c, [a], d);
    LostSnoc(c, [a], d);
    SwapNames(c.hash, Contents(p), k, v, y);
    StepEffect(c, p, d);
    SameContents(p, s);
    assert StepDrift(c, p, d) == Mix(c.hash, k, v);
    ChecksumExact(c, ops);
    assert Mix(c.hash, k, v) != 0 by { MixIsZero(c.hash, k, v); }
  }

  lemma MixIsZero(hash: Hash, k: Bytes, v: Bytes)
    requires |v| >= 8
    ensures Mix(hash, k, v) == 0 ==> hash(k) == Stamp(v)
  {
    U64Bound(v[..8]);
    Pow2Of64(64);
    if Mix(hash, k, v) == 0 { XorZero(hash(k), Stamp(v), 64); }
  }

  lemma {:induction false} XorZero(a: nat, b: nat, n: nat)
    requires a < Pow2(n) && b < Pow2(n) && XorBits(a, b, n) == 0
    ensures a == b
    decreases n
  {
    if n > 0 { XorZero(a / 2, b / 2, n - 1); }
  }

  /** A timestamp that equals the bytes behind a tombstone: defragmentation sets the tombstone, and panics. */
  lemma SmallTimePanics(c: Config, k: Bytes, v: Bytes, w: Bytes, a: Dict)
    requires ValidConfig(c) && Ample(c) && |v| >= 8 && |w| >= 8 && Stamp(w) == |k| + TWO32 * |k| && GoodHash(c, k)
    requires 36 + 3 * |k| + |v| + |w| < c.size
    requires Answers(c, Run(c, [Op.Set(k, v), Op.Del(k, v), Op.Set(k, w)]), a)
    ensures var s := Run(c, [Op.Set(k, v), Op.Del(k, v), Op.Set(k, w)]);
      |s.log| == 3 && Contents(s) == map[k := w] && Present(s, a, 1) && s.log[1].val == [] && !Defragged(c, s, a, |s.log|).out.Ok?
  {
    hide ValidConfig, Ample, Run, Stamp, Defragged, LogLen, Peek, Inv, GoodHash;
    var ops := [Op.Set(k, v), Op.Del(k, v), Op.Set(k, w)];
    var s := Run(c, ops);
    SetDelSet(c, k, v, w);
    RunRefines(c, ops);
    InvLog(c, s);
    assert c.size < TWO32 by { SizeBound(c); }
    TombstoneWord(s.log, 1);
    assert GetAllows(c, s, s.log[1].key, Lookup(a, s.log[1].key));
    assert Present(s, a, 1);
    TombShownPanics(c, s, a, |s.log|, 1);
  }

  /** A pair whose key has hash 0 is not shown, and a defragmentation drops it without a word. */
  lemma HashZeroIsDropped(c: Config, k: Bytes, v: Bytes, a: Dict)
    requires ValidConfig(c) && Ample(c) && |v| >= 8 && RecLen(Record(k, v)) < c.size && c.hash(k) % TWO32 == 0
    requires Answers(c, Run(c, [Op.Set(k, v)]), a)
    ensures var s := Run(c, [Op.Set(k, v)]);
      && Contents(s) == map[k := v] && Unambiguous(s) && Visited(s, a, |s.log|) == []
      && Defragged(c, s, a, |s.log|) == Result(Empty(c), Ok)
  {
    hide ValidConfig, Ample, Run, LogLen, Lost, Drift, Stamp, Peek;
    AfterSet(c, k, v);
    var s := Run(c, [Op.Set(k, v)]);
    assert GetAllows(c, s, s.log[0].key, Lookup(a, s.log[0].key));
    assert k !in a;
    assert !Present(s, a, 0);
    assert Visited(s, a, 0) == [] && Defragged(c, s, a, 0) == Result(Empty(c), Ok);
  }

  /**
   A defragmentation, a restart and another defragmentation: the second one truncates the very file it
   copies, and every pair is lost, though every step but the last was admissible.
   */
  lemma SecondDefragLosesAll(c: Config, k: Bytes, v: Bytes, a: Dict, b: Dict)
    requires ValidConfig(c) && Ample(c) && c.size <= TWO28 && |k| > 0 && |v| >= 8 && GoodHash(c, k) && Stamp(v) >= TWO60
    requires RecLen(Record(k, v)) + 4 <= c.size && Answers(c, Run(c, [Op.Set(k, v)]), a)
    ensures var es := [Client(Op.Set(k, v)), ChunkOp.Defragment(a), Reopen];
      var ch := ChunkRun(c, true, es);
      && AdmissibleRun(c, true, es) && ch.pm.Some? && Contents(ch.pm.value) == map[k := v]
      && Collides(ch) && Contents(ChunkRun(c, true, es + [ChunkOp.Defragment(b)]).pm.value) == map[]
  {
    hide ValidConfig, Ample, Run, LogLen, Lost, Drift, Stamp, GoodHash, Answers, Healthy, Contents, Apply, Defragged, Reopened, Effective,
         FreshFor, EffectOf, Tracks, Unambiguous;
    AfterSet(c, k, v);
    var s := Run(c, [Op.Set(k, v)]);
    var e, d := Client(Op.Set(k, v)), ChunkOp.Defragment(a);
    var p, q, t := NewSlot(c, true), Slot(Some(s), Some(0), 0), Slot(Some(Defragged(c, s, a, |s.log|).s), Some(1), 1);
    assert [e][..0] == [] && [e, d][..1] == [e] && [e, d, Reopen][..2] == [e, d];
    assert Run(c, []) == Empty(c) && Run(c, [Op.Set(k, v)]) == Apply(c, Empty(c), Op.Set(k, v)).s by { FirstRun(c, k, v); }
    assert ChunkRun(c, true, [e]) == q;
    assert Admissible(c, p, e) by { FirstIsAdmissible(c, k, v); }
    EmptyHealthy(c);
    StepHealthy(c, true, p, e);
    assert AdmissibleRun(c, true, []) && AdmissibleRun(c, true, [e]);
    assert ChunkRun(c, true, [e, d]) == t;
    assert Admissible(c, q, d);
    assert AdmissibleRun(c, true, [e, d]);
    StepHealthy(c, true, q, d);
    assert Admissible(c, t, Reopen) by { CompactReopens(c, s, a, k, v); }
    StepHealthy(c, true, t, Reopen);
    var es := [e, d, Reopen];
    assert AdmissibleRun(c, true, es);
    assert (es + [ChunkOp.Defragment(b)])[..3] == es;
    ContentsOfEmpty(c);
  }

  lemma FirstRun(c: Config, k: Bytes, v: Bytes)
    ensures Run(c, []) == Empty(c) && Run(c, [Op.Set(k, v)]) == Apply(c, Empty(c), Op.Set(k, v)).s
  {
    assert [Op.Set(k, v)][..0] == [];
  }

  lemma FirstIsAdmissible(c: Config, k: Bytes, v: Bytes)
    requires GoodHash(c, k) && Stamp(v) >= TWO60
    ensures Admissible(c, NewSlot(c, true), Client(Op.Set(k, v)))
  {
    hide Stamp, GoodHash, HasRoom, Time, LogLen;
  }

  /** The compacted chunk holds one record, so it can be reopened. */
  lemma CompactReopens(c: Config, s: PState, a: Dict, k: Bytes, v: Bytes)
    requires ValidConfig(c) && Ample(c) && c.size <= TWO28 && |k| > 0 && |v| >= 8 && RecLen(Record(k, v)) + 4 <= c.size
    requires Healthy(c, s) && Answers(c, s, a) && s.log == [Record(k, v)] && s.live == map[k := 0]
    ensures Admissible(c, Slot(Some(Defragged(c, s, a, |s.log|).s), Some(1), 1), Reopen)
  {
    hide ValidConfig, Ample, Inv, Defragged, GoodHash, Answers, Unambiguous, Points, LiveBytes, PairSum, Replay, Right, Contents, FreshTimes, HighTimes;
    HealthyIsUnambiguous(c, s);
    GoodIsRight(c, s, a);
    DefragExact(c, c, s, a);
    var d := Defragged(c, s, a, |s.log|).s;
    assert LiveRecords(s, 1) == [Record(k, v)] by { assert LiveRecords(s, 0) == []; }
    AppendRecord([], Record(k, v));
    assert [] + [Record(k, v)] == [Record(k, v)];
    EmptyLogLen([]);
    TracksNothing(d);
  }

  lemma SizeBound(c: Config)
    requires ValidConfig(c)
    ensures c.size < TWO32
  {}

  // A write that arrives late.

  lemma SettledSnoc(c: Config, ops: seq<Op>, op: Op, b: int)
    ensures Settled(c, ops + [op], b)
         == if op.Set? && EffectOf(c, Run(c, ops), op).Writes? && Time(op.value) < b
            then Settled(c, ops, b)[op.key := op.value] else Settled(c, ops, b)
    ensures Events(c, ops + [op]) == Events(c, ops) + EventsOf(c, Run(c, ops), op)
  {
    hide EffectOf, EventsOf, Time;
    assert (ops + [op])[..|ops|] == ops;
  }

  lemma NothingSet(c: Config, b: int)
    ensures Settled(c, [], b) == map[] && Events(c, []) == [] && Run(c, []).live == map[] && Run(c, []).log == []
  {}

  /** Two Sets of different keys. */
  lemma TwoSets(c: Config, j: Bytes, z: Bytes, k: Bytes, x: Bytes, b: int)
    requires ValidConfig(c) && Ample(c) && |z| >= 8 && |x| >= 8 && j != k && 24 + |j| + |z| + |k| + |x| < c.size
    requires Time(z) < b
    ensures var ops := [Op.Set(j, z), Op.Set(k, x)];
      && Run(c, ops).live == map[j := 0, k := 1] && Run(c, ops).log == [Record(j, z), Record(k, x)]
      && Settled(c, ops, b) == (if Time(x) < b then map[j := z, k := x] else map[j := z])
      && Events(c, ops) == [Event(Mix(c.hash, j, z), Time(z)), Event(Mix(c.hash, k, x), Time(x))]
      && Volume(ops) == 24 + |j| + |z| + |k| + |x|
  {
    hide ValidConfig, Ample, Run, Volume, Apply, HasRoom, Fits, Time, Settled, Events, Mix;
    var p, q := Op.Set(j, z), Op.Set(k, x);
    assert [] + [p] == [p] && [p] + [q] == [p, q];
    VolumeNone();
    VolumeSnoc([], p);
    VolumeSnoc([p], q);
    NothingSet(c, b);
    SpaciousStep(c, [], p);
    StepEffect(c, Run(c, []), p);
    SettledSnoc(c, [], p, b);
    assert Run(c, [p]).log == [Record(j, z)] && Run(c, [p]).live == map[j := 0];
    assert Events(c, [p]) == [Event(Mix(c.hash, j, z), Time(z))] && Settled(c, [p], b) == map[j := z];
    SpaciousStep(c, [p], q);
    StepEffect(c, Run(c, [p]), q);
    SettledSnoc(c, [p], q, b);
  }

  /**
   One replica receives a write after a later one of its key, the other before: they hold the same pairs
   and stand at the same boundary, but report different checksums.
   */
  lemma LateWriteDisagrees(c: Config, j: Bytes, z: Bytes, k: Bytes, x: Bytes, y: Bytes, now: int)
    requires ValidConfig(c) && Ample(c) && |z| >= 8 && |x| >= 8 && |y| >= 8 && j != k && c.hash(k) != Stamp(x)
    requires 36 + |j| + |z| + 2 * |k| + |x| + |y| < c.size
    requires NextSecond(Time(z)) == NextSecond(Time(x)) < Time(y) && NextSecond(Time(y)) < now
    requires OffSeconds([Op.Set(j, z), Op.Set(k, x), Op.Set(k, y)])
    ensures var ws := [Op.Set(j, z), Op.Set(k, x), Op.Set(k, y)];
      var us := [Op.Set(j, z), Op.Set(k, y), Op.Set(k, x)];
      && Contents(Run(c, ws)) == Contents(Run(c, us))
      && Asked(c, ws, now).oldTime == Asked(c, us, now).oldTime
      && Asked(c, ws, now).oldSum != Asked(c, us, now).oldSum
  {
    hide ValidConfig, Ample, Run, Apply, HasRoom, Time, Settled, Events, Mix, PairSum, Cong, Asked, Fits, Volume, EventsOf, EffectOf;
    var p, q, r := Op.Set(j, z), Op.Set(k, x), Op.Set(k, y);
    var ws, us := [p, q, r], [p, r, q];
    var n := NextSecond(Time(x));
    assert OffSeconds(us) by { assert us[0] == ws[0] && us[1] == ws[2] && us[2] == ws[1]; }
    InOrder(c, j, z, k, x, y, n);
    OutOfOrder(c, j, z, k, x, y, n);
    Windows(c, ws, us, j, z, k, x, y, now);
    RealTime(z);
    assert now > ZERO_TIME by { RealTime(y); }
    ReportsAgreeIff(c, c, ws, us, now, now);
    assert !Cong(PairSum(c.hash, map[j := z, k := x]), PairSum(c.hash, map[j := z])) by {
      PairSumPut(c.hash, map[j := z], k, x);
      AbsentKey(map[j := z], k);
      assert map[j := z][k := x] == map[j := z, k := x];
      MixIsZero(c.hash, k, x);
      NotCong(PairSum(c.hash, map[j := z]), Mix(c.hash, k, x));
    }
  }

  lemma NotCong(p: int, x: u64)
    requires x != 0
    ensures !Cong(p + x, p)
  {}

  lemma InOrder(c: Config, j: Bytes, z: Bytes, k: Bytes, x: Bytes, y: Bytes, n: int)
    requires ValidConfig(c) && Ample(c) && |z| >= 8 && |x| >= 8 && |y| >= 8 && j != k
    requires 36 + |j| + |z| + 2 * |k| + |x| + |y| < c.size && Time(z) < n && Time(x) < n <= Time(y)
    ensures var ws := [Op.Set(j, z), Op.Set(k, x), Op.Set(k, y)];
      && Contents(Run(c, ws)) == map[j := z, k := y] && Settled(c, ws, n) == map[j := z, k := x]
      && Events(c, ws) == [Event(Mix(c.hash, j, z), Time(z)), Event(Mix(c.hash, k, x), Time(x)),
                           Event(Neg(Mix(c.hash, k, x)), Time(y)), Event(Mix(c.hash, k, y), Time(y))]
  {
    hide ValidConfig, Ample, Run, Volume, Apply, HasRoom, Fits, Time, Settled, Events, Mix, Neg;
    var ops, r := [Op.Set(j, z), Op.Set(k, x)], Op.Set(k, y);
    assert ops + [r] == [Op.Set(j, z), Op.Set(k, x), r];
    TwoSets(c, j, z, k, x, n);
    SpaciousStep(c, ops, r);
    StepEffect(c, Run(c, ops), r);
    SettledSnoc(c, ops, r, n);
    var s := Run(c, ops + [r]);
    assert s.live == map[j := 0, k := 2] && s.log == [Record(j, z), Record(k, x), Record(k, y)];
    assert Contents(s) == map[j := z, k := y];
  }

  lemma OutOfOrder(c: Config, j: Bytes, z: Bytes, k: Bytes, x: Bytes, y: Bytes, n: int)
    requires ValidConfig(c) && Ample(c) && |z| >= 8 && |x| >= 8 && |y| >= 8 && j != k
    requires 36 + |j| + |z| + 2 * |k| + |x| + |y| < c.size && Time(z) < n && Time(x) < n <= Time(y)
    ensures var us := [Op.Set(j, z), Op.Set(k, y), Op.Set(k, x)];
      && Contents(Run(c, us)) == map[j := z, k := y] && Settled(c, us, n) == map[j := z]
      && Events(c, us) == [Event(Mix(c.hash, j, z), Time(z)), Event(Mix(c.hash, k, y), Time(y))]
  {
    hide ValidConfig, Ample, Run, Volume, Apply, HasRoom, Fits, Time, Settled, Events, Mix, Neg;
    var ops, q := [Op.Set(j, z), Op.Set(k, y)], Op.Set(k, x);
    assert ops + [q] == [Op.Set(j, z), Op.Set(k, y), q];
    TwoSets(c, j, z, k, y, n);
    SpaciousStep(c, ops, q);
    StepEffect(c, Run(c, ops), q);
    SettledSnoc(c, ops, q, n);
    var s := Run(c, ops + [q]);
    assert s.live == map[j := 0, k := 1] && s.log == [Record(j, z), Record(k, y)];
    assert Contents(s) == map[j := z, k := y];
  }

  /** Both replicas stand at the first whole second after the early writes. */
  lemma Windows(c: Config, ws: seq<Op>, us: seq<Op>, j: Bytes, z: Bytes, k: Bytes, x: Bytes, y: Bytes, now: int)
    requires |z| >= 8 && NextSecond(Time(z)) == NextSecond(Time(x)) < Time(y) && NextSecond(Time(y)) < now
    requires Events(c, ws) == [Event(Mix(c.hash, j, z), Time(z)), Event(Mix(c.hash, k, x), Time(x)),
                               Event(Neg(Mix(c.hash, k, x)), Time(y)), Event(Mix(c.hash, k, y), Time(y))]
    requires Events(c, us) == [Event(Mix(c.hash, j, z), Time(z)), Event(Mix(c.hash, k, y), Time(y))]
    ensures Asked(c, ws, now).oldTime == Asked(c, us, now).oldTime == NextSecond(Time(x))
  {
    hide Events, Time, Mix, Run, Plus, Neg, NextSecond;
    SumsAreEvents(c, ws);
    SumsAreEvents(c, us);
    var e0, e1 := Event(Mix(c.hash, j, z), Time(z)), Event(Mix(c.hash, k, x), Time(x));
    var e2, e3 := Event(Neg(Mix(c.hash, k, x)), Time(y)), Event(Mix(c.hash, k, y), Time(y));
    RealTime(z);
    assert [] + [e0] == [e0] && [e0] + [e1] == [e0, e1] && [e0, e1] + [e2] == [e0, e1, e2]
      && [e0, e1, e2] + [e3] == [e0, e1, e2, e3] && [e0] + [e3] == [e0, e3];
    AfterSnoc([], e0);
    AfterSnoc([e0], e1);
    AfterSnoc([e0, e1], e2);
    AfterSnoc([e0, e1, e2], e3);
    AfterSnoc([e0], e3);
  }
}
