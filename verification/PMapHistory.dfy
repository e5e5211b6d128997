/** Capacity of the index, and the exact relation of a running PMap to its log and to its checksum. */
module PMapHistory {
  import opened ByteStrings
  import opened RecordLog
  import opened Checksum
  import opened TimedMap
  import opened PMapSpec
  import opened PMapRuns

  // The index never reaches its limit in a store that is small enough.

  /** The store is full before the largest table allowed by the limit reaches its load limit. */
  ghost predicate Ample(c: Config)
  {
    c.limit >= 2 && forall n: nat :: Pow2(n) <= c.limit < 2 * Pow2(n) ==> c.size <= 20 * MaxStored(n)
  }

  lemma AmpleHasRoom(c: Config, s: PState)
    requires Ample(c) && Roomy(c, s)
    ensures HasRoom(c, s)
  {
    hide LogLen;
    if !HasRoom(c, s) {
      assert c.size <= 20 * MaxStored(s.log2);
      assert 20 * s.stored <= LogLen(s.log);
      EmptyLogLen(s.log);
    }
  }

  lemma EmptyLogLen(log: seq<Record>)
    ensures log == [] ==> LogLen(log) == 0
  {}

  /** The default limits: 2^26 buckets suffice for any store of at most 939524080 bytes. */
  lemma DefaultAmple(c: Config)
    requires c.limit == 64 * 1024 * 1024 && c.size <= 939_524_080
    ensures Ample(c)
  {
    forall n: nat | Pow2(n) <= c.limit < 2 * Pow2(n) ensures c.size <= 20 * MaxStored(n) {
      Pow2Of26();
      if n < 26 { Pow2Monotone(n + 1, 26); } else { Pow2Monotone(26, n); }
    }
  }

  lemma Pow2Of26()
    ensures Pow2(26) == 64 * 1024 * 1024
  {
    Pow2Of16();
    Pow2Add(16, 10);
    assert Pow2(5) == 32;
    Pow2Add(5, 5);
  }

  /** An operation is never refused by the index of an ample PMap. */
  lemma NeverIndexFull(c: Config, s: PState, op: Op)
    requires Ample(c) && Inv(c, s)
    ensures !Apply(c, s, op).out.IndexFull?
  {
    hide Ample, Roomy, Grown, Written, Subtracted, Dropped, Contents, Points, GoodLog, InReplay, Counted, Time, Value;
    AmpleHasRoom(c, s);
  }

  /** The bytes an operation may append. */
  function Cost(op: Op): (n: nat)
  {
    match op
    case Set(k, v) => 12 + |k| + |v|
    case Cas(k, v) => 12 + |k| + |v|
    case Del(k, v) => 12 + |k|
  }

  function Volume(ops: seq<Op>): (n: nat)
  {
    if ops == [] then 0 else Volume(ops[..|ops| - 1]) + Cost(ops[|ops| - 1])
  }

  lemma GrownShape(s: PState)
    ensures Grown(s).log == s.log && Grown(s).live == s.live && Grown(s).deleted == s.deleted
    ensures Grown(s).sums == s.sums
  {}

  lemma WrittenShape(c: Config, s: PState, k: Bytes, v: Bytes)
    ensures Written(c, s, k, v).log == s.log + [Record(k, v)]
    ensures Written(c, s, k, v).live == s.live[k := |s.log|]
  {
    hide Mix, AddEvent, Time;
  }

  /** What an operation does to the log and to the set of live keys. */
  datatype Effect =
    | Keeps              // nothing appended, no key gained or lost
    | Writes(v: Bytes)   // a new live record
    | Buries             // the key is deleted and its tombstone is in the log
    | Loses              // the key is deleted but its tombstone was refused

  function EffectOf(c: Config, s: PState, op: Op): (e: Effect)
  {
    match op
    case Set(k, v) =>
      if |v| >= 8 && HasRoom(c, s) && (k in s.live ==> Time(Value(s, k)) < Time(v)) && Fits(c, s, Record(k, v))
      then Writes(v) else Keeps
    case Cas(k, v) =>
      if |v| >= 24 && HasRoom(c, s) && CasVerdict(c.hash, Contents(s), k, v).Ok? && Fits(c, s, Record(k, v[16..]))
      then Writes(v[16..]) else Keeps
    case Del(k, v) =>
      if k !in s.live || Time(v) < Time(Value(s, k)) then Keeps
      else if Fits(c, s, Record(k, [])) then Buries else Loses
  }

  lemma GrownContents(s: PState, k: Bytes)
    ensures Contents(Grown(s)) == Contents(s) && Value(Grown(s), k) == Value(s, k)
  {
    GrownShape(s);
    assert forall j :: Value(Grown(s), j) == Value(s, j);
  }

  lemma StepEffect(c: Config, s: PState, op: Op)
    ensures var r := Apply(c, s, op).s;
      match EffectOf(c, s, op)
      case Keeps => r.log == s.log && r.live == s.live
      case Writes(v) => r.log == s.log + [Record(op.key, v)] && r.live == s.live[op.key := |s.log|]
      case Buries => r.log == s.log + [Record(op.key, [])] && r.live == s.live - {op.key}
      case Loses => r.log == s.log && r.live == s.live - {op.key}
  {
    hide Mix, AddEvent, Time, Value, HasRoom, Contents, CasVerdict, Written, Subtracted, Grown, Dropped, LogLen;
    GrownShape(s);
    GrownContents(s, op.key);
    var g := Grown(s);
    match op
    case Set(k, v) =>
      SubtractedShape(c, g, k, Time(v));
      WrittenShape(c, g, k, v);
      WrittenShape(c, Subtracted(c, g, k, Time(v)), k, v);
    case Cas(k, v) =>
      if |v| >= 24 {
        SubtractedShape(c, g, k, Time(v[16..]));
        WrittenShape(c, g, k, v[16..]);
        WrittenShape(c, Subtracted(c, g, k, Time(v[16..])), k, v[16..]);
      }
    case Del(k, v) =>
      DroppedShape(c, s, k, Time(v));
  }

  lemma StepLogLen(c: Config, s: PState, op: Op)
    ensures LogLen(Apply(c, s, op).s.log) <= LogLen(s.log) + Cost(op)
  {
    hide Apply, LogLen, Fits, HasRoom, Time, Value, Contents, CasVerdict;
    StepEffect(c, s, op);
    match EffectOf(c, s, op)
    case Keeps =>
    case Writes(v) => AppendRecord(s.log, Record(op.key, v));
    case Buries => AppendRecord(s.log, Record(op.key, []));
    case Loses =>
  }

  lemma EnoughSpace(c: Config, s: PState, op: Op)
    requires Ample(c) && Inv(c, s)
    requires LogLen(s.log) + Cost(op) < c.size
    ensures !Apply(c, s, op).out.Refused()
  {
    hide Ample, Roomy, Grown, Written, Subtracted, Dropped, Contents, Points, GoodLog, InReplay, Counted, Time, Value, LogLen;
    AmpleHasRoom(c, s);
    GrownShape(s);
    match op
    case Set(k, v) => SubtractedShape(c, Grown(s), k, Time(v));
    case Cas(k, v) =>
      if |v| >= 24 { SubtractedShape(c, Grown(s), k, Time(v[16..])); }
    case Del(k, v) => DroppedShape(c, s, k, Time(v));
  }

  lemma {:induction false} RunLogLen(c: Config, ops: seq<Op>)
    ensures LogLen(Run(c, ops).log) <= Volume(ops)
  {
    if ops == [] {
      EmptyLogLen(Run(c, ops).log);
    } else {
      hide Apply, LogLen, Cost;
      RunLogLen(c, ops[..|ops| - 1]);
      StepLogLen(c, Run(c, ops[..|ops| - 1]), ops[|ops| - 1]);
    }
  }

  lemma {:induction false} NothingRefused(c: Config, ops: seq<Op>)
    requires ValidConfig(c) && Ample(c) && Volume(ops) < c.size
    ensures Accepted(c, ops) == ops
  {
    hide ValidConfig, Ample, Apply, LogLen, Cost, Inv, Empty;
    if ops != [] {
      var init, op := ops[..|ops| - 1], ops[|ops| - 1];
      NothingRefused(c, init);
      RunRefines(c, init);
      RunLogLen(c, init);
      EnoughSpace(c, Run(c, init), op);
      assert ops == init + [op];
    }
  }

  /** A run that writes less than the size of the store is exactly a run of the plain dictionary. */
  lemma RunIsDictionary(c: Config, ops: seq<Op>)
    requires ValidConfig(c) && Ample(c) && Volume(ops) < c.size
    ensures Contents(Run(c, ops)) == DictRun(c.hash, map[], ops)
  {
    hide *;
    NothingRefused(c, ops);
    RunRefines(c, ops);
  }

  // The log against the live map.

  function LostAfter(c: Config, s: PState, op: Op, lost: set<Bytes>): (l: set<Bytes>)
  {
    match EffectOf(c, s, op)
    case Keeps => lost
    case Writes(_) => lost - {op.key}
    case Buries => lost
    case Loses => lost + {op.key}
  }

  /** Replaying the log gives the live map plus exactly the lost keys. */
  ghost predicate Tracks(s: PState, lost: set<Bytes>)
  {
    && Replay(s.log).Keys == s.live.Keys + lost
    && s.live.Keys !! lost
    && forall k | k in s.live :: Replay(s.log)[k] == s.live[k]
  }

  lemma StepTracks(c: Config, s: PState, op: Op, lost: set<Bytes>)
    requires Tracks(s, lost)
    ensures Tracks(Apply(c, s, op).s, LostAfter(c, s, op, lost))
  {
    hide Apply, Replay, EffectOf;
    StepEffect(c, s, op);
    match EffectOf(c, s, op)
    case Keeps =>
    case Writes(v) =>
      assert |v| > 0 by { WritesValue(c, s, op); }
      ReplayAppend(s.log, Record(op.key, v));
    case Buries =>
      BuriesLive(c, s, op);
      ReplayAppend(s.log, Record(op.key, []));
    case Loses =>
      BuriesLive(c, s, op);
  }

  /** The keys deleted from memory whose log still ends with a live record. */
  function Lost(c: Config, ops: seq<Op>): (l: set<Bytes>)
  {
    if ops == [] then {}
    else LostAfter(c, Run(c, ops[..|ops| - 1]), ops[|ops| - 1], Lost(c, ops[..|ops| - 1]))
  }

  lemma {:induction false} ReplayExact(c: Config, ops: seq<Op>)
    ensures Tracks(Run(c, ops), Lost(c, ops))
  {
    if ops == [] {
      ReplayEmpty();
    } else {
      hide Apply, Tracks, LostAfter;
      ReplayExact(c, ops[..|ops| - 1]);
      StepTracks(c, Run(c, ops[..|ops| - 1]), ops[|ops| - 1], Lost(c, ops[..|ops| - 1]));
    }
  }

  lemma ReplayEmpty()
    ensures Replay([]) == map[]
  {}

  lemma WritesValue(c: Config, s: PState, op: Op)
    ensures EffectOf(c, s, op).Writes? ==> !op.Del? && |EffectOf(c, s, op).v| >= 8
  {
    hide Time, Value, Contents, CasVerdict, HasRoom, Fits;
  }

  lemma BuriesLive(c: Config, s: PState, op: Op)
    ensures EffectOf(c, s, op).Buries? || EffectOf(c, s, op).Loses? ==> op.Del? && op.key in s.live
  {
    hide Time, Value, Contents, CasVerdict, HasRoom, Fits;
  }

  /** The live map is the replay of the log exactly when no key is lost. */
  lemma ReplayIffNothingLost(c: Config, ops: seq<Op>)
    ensures Replay(Run(c, ops).log) == Run(c, ops).live <==> Lost(c, ops) == {}
  {
    hide Run, Lost, Replay;
    ReplayExact(c, ops);
  }
}
