/**
 A PMap as a deterministic state machine over values. The hash table is reduced to what its
 callers can observe of it: which record each live key points to, how many buckets are in use
 and how large the table is.
 */
module PMapSpec {
  import opened ByteStrings
  import opened RecordLog
  import opened Checksum
  import opened TimedMap
  import opened MapSums

  /** Store size in bytes, index size limit and initial log2 size in buckets, hash function. */
  datatype Config = Config(size: nat, limit: nat, initLog2: nat, hash: Hash)

  datatype PState = PState(
    log: seq<Record>,        // every record of the store, oldest first
    live: map<Bytes, nat>,   // live key -> record number
    deleted: nat,            // bytes counted as deleted
    log2: nat,               // log2 of the number of buckets
    stored: nat,             // buckets in use, deleted ones included
    sums: Sums)

  datatype Result = Result(s: PState, out: Outcome)

  ghost predicate ValidConfig(c: Config)
  {
    c.size < TWO32 && Pow2(c.initLog2) <= c.limit <= 0x1000_0000
  }

  function Empty(c: Config): (s: PState)
  {
    PState([], map[], 0, c.initLog2, 0, FRESH)
  }

  function Mix(hash: Hash, k: Bytes, v: Bytes): (el: u64)
  {
    Xor64(hash(k), Stamp(v))
  }

  /** `numKeysToExpand`: 0.7 times the number of buckets, rounded down. */
  function MaxStored(log2: nat): (n: nat)
    ensures n < Pow2(log2)
  {
    Pow2(log2) * 7 / 10
  }

  predicate HasRoom(c: Config, s: PState)
  {
    s.stored < MaxStored(s.log2) || 2 * Pow2(s.log2) <= c.limit
  }

  /** The table doubles when its load limit is reached, and drops its deleted buckets. */
  function Grown(s: PState): (r: PState)
  {
    if s.stored < MaxStored(s.log2) then s
    else s.(log2 := s.log2 + 1, stored := |s.live|)
  }

  predicate Fits(c: Config, s: PState, r: Record)
  {
    LogLen(s.log) + RecLen(r) < c.size
  }

  function Value(s: PState, k: Bytes): (v: Bytes)
  {
    if k in s.live && s.live[k] < |s.log| then s.log[s.live[k]].val else []
  }

  function Subtracted(c: Config, s: PState, k: Bytes, t: int): (r: PState)
  {
    s.(sums := AddEvent(s.sums, Neg(Mix(c.hash, k, Value(s, k))), t))
  }

  /** The state after a successful append of a live pair. */
  function Written(c: Config, s: PState, k: Bytes, v: Bytes): (r: PState)
  {
    PState(s.log + [Record(k, v)], s.live[k := |s.log|], s.deleted, s.log2,
           s.stored + (if k in s.live then 0 else 1),
           AddEvent(s.sums, Mix(c.hash, k, v), Time(v)))
  }

  /** Set, once the index has room for one more key. */
  function SetIn(c: Config, g: PState, k: Bytes, v: Bytes): (r: Result)
  {
    if k in g.live && Time(v) <= Time(Value(g, k)) then Result(g, Ok)
    else if !Fits(c, g, Record(k, v)) then Result(g, StoreFull)
    else if k in g.live then Result(Written(c, Subtracted(c, g, k, Time(v)), k, v), Ok)
    else Result(Written(c, g, k, v), Ok)
  }

  function DoSet(c: Config, s: PState, k: Bytes, v: Bytes): (r: Result)
  {
    if |v| < 8 then Result(s, ShortValue)
    else if !HasRoom(c, s) then Result(s, IndexFull)
    else SetIn(c, Grown(s), k, v)
  }

  /** A compare-and-swap subtracts the old pair from the checksum before it tries to append the new one. */
  function CasIn(c: Config, g: PState, k: Bytes, v: Bytes): (r: Result)
    requires |v| >= 24
  {
    var o := CasVerdict(c.hash, Contents(g), k, v);
    if !o.Ok? then Result(g, o)
    else
      var b := if k in g.live then Subtracted(c, g, k, Time(v[16..])) else g;
      if !Fits(c, b, Record(k, v[16..])) then Result(b, StoreFull)
      else Result(Written(c, b, k, v[16..]), Ok)
  }

  function DoCas(c: Config, s: PState, k: Bytes, v: Bytes): (r: Result)
  {
    if |v| < 24 then Result(s, ShortValue)
    else if !HasRoom(c, s) then Result(s, IndexFull)
    else CasIn(c, Grown(s), k, v)
  }

  /** The key is gone and counted as deleted, whether or not its tombstone is accepted. */
  function Dropped(c: Config, s: PState, k: Bytes, t: int): (r: PState)
  {
    Subtracted(c, s, k, t).(deleted := s.deleted + RecLen(Record(k, Value(s, k))), live := s.live - {k})
  }

  function DoDel(c: Config, s: PState, k: Bytes, v: Bytes): (r: Result)
  {
    if k !in s.live || Time(v) < Time(Value(s, k)) then Result(s, Ok)
    else
      var d := Dropped(c, s, k, Time(v));
      if !Fits(c, d, Record(k, [])) then Result(d, StoreFull)
      else Result(Buried(d, k), Ok)
  }

  function Apply(c: Config, s: PState, op: Op): (r: Result)
  {
    match op
    case Set(k, v) => DoSet(c, s, k, v)
    case Cas(k, v) => DoCas(c, s, k, v)
    case Del(k, v) => DoDel(c, s, k, v)
  }

  /** What Get answers: the dictionary of live pairs. */
  function Contents(s: PState): (m: Dict)
  {
    map k | k in s.live :: Value(s, k)
  }

  // The invariant of every reachable state, part by part.

  /** Every live key points to a record of that key that holds a timestamped value. */
  ghost predicate Points(s: PState)
  {
    forall k | k in s.live ::
      s.live[k] < |s.log| && s.log[s.live[k]].key == k && |s.log[s.live[k]].val| >= 8
  }

  /** Records are tombstones or timestamped values, and a tombstone follows a live record of its key. */
  ghost predicate GoodLog(log: seq<Record>)
  {
    forall j | 0 <= j < |log| :: GoodRecord(log, j)
  }

  ghost predicate GoodRecord(log: seq<Record>, j: nat)
    requires j < |log|
  {
    |log[j].val| >= 8 || (log[j].val == [] && log[j].key in Replay(log[..j]))
  }

  /** A live key points to its last record. */
  ghost predicate InReplay(s: PState)
  {
    forall k | k in s.live :: k in Replay(s.log) && Replay(s.log)[k] == s.live[k]
  }

  ghost predicate Roomy(c: Config, s: PState)
  {
    && |s.live| <= s.stored <= MaxStored(s.log2)
    && Pow2(s.log2) <= c.limit
    && 20 * s.stored <= LogLen(s.log)
    && (s.log == [] || LogLen(s.log) < c.size)
  }

  ghost function Sizes(m: Dict): (w: map<Bytes, int>)
  {
    map k | k in m :: 12 + |k| + |m[k]|
  }

  ghost function LiveBytes(s: PState): (n: int)
  {
    Total(Sizes(Contents(s)))
  }

  ghost predicate Counted(s: PState)
  {
    s.deleted + LiveBytes(s) <= LogLen(s.log)
  }

  ghost predicate Inv(c: Config, s: PState)
  {
    Points(s) && GoodLog(s.log) && InReplay(s) && Roomy(c, s) && Counted(s)
  }

  // Each primitive transition keeps it.

  lemma ContentsWritten(c: Config, s: PState, k: Bytes, v: Bytes)
    requires Points(s)
    ensures Contents(Written(c, s, k, v)) == Contents(s)[k := v]
  {
    hide Mix, AddEvent;
  }

  lemma ContentsDropped(c: Config, s: PState, k: Bytes, t: int)
    requires Points(s)
    ensures Contents(Dropped(c, s, k, t)) == Contents(s) - {k}
  {
    hide Mix, AddEvent, RecLen;
  }

  lemma MaxStoredGrows(n: nat)
    ensures MaxStored(n) < MaxStored(n + 1)
  {}

  lemma GrownInv(c: Config, s: PState)
    requires Inv(c, s) && HasRoom(c, s)
    ensures Inv(c, Grown(s)) && Contents(Grown(s)) == Contents(s)
    ensures Grown(s).stored < MaxStored(Grown(s).log2)
  {
    hide GoodLog, LogLen, Replay, Total;
    MaxStoredGrows(s.log2);
    assert Contents(Grown(s)) == Contents(s);
  }

  lemma SubtractedInv(c: Config, s: PState, k: Bytes, t: int)
    requires Inv(c, s)
    ensures Inv(c, Subtracted(c, s, k, t)) && Contents(Subtracted(c, s, k, t)) == Contents(s)
  {
    hide Mix, AddEvent, GoodLog, LogLen, Replay, Total, Pow2, MaxStored;
    assert Contents(Subtracted(c, s, k, t)) == Contents(s);
  }

  lemma GoodAppend(log: seq<Record>, r: Record)
    requires GoodLog(log)
    requires |r.val| >= 8 || (r.val == [] && r.key in Replay(log))
    ensures GoodLog(log + [r])
  {
    hide Replay;
    var new_ := log + [r];
    forall j | 0 <= j < |new_| ensures GoodRecord(new_, j) {
      if j < |log| {
        assert GoodRecord(log, j);
        assert new_[..j] == log[..j];
      } else {
        assert new_[..j] == log;
      }
    }
  }

  lemma SizesPut(m: Dict, k: Bytes, v: Bytes)
    ensures Total(Sizes(m[k := v])) == Total(Sizes(m - {k})) + 12 + |k| + |v|
  {
    hide Total;
    var w := Sizes(m);
    TotalPut(w, k, 12 + |k| + |v|);
    assert Sizes(m[k := v]) == w[k := 12 + |k| + |v|];
    assert Sizes(m - {k}) == w - {k};
  }

  lemma SizesRemove(m: Dict, k: Bytes)
    requires k in m
    ensures Total(Sizes(m - {k})) == Total(Sizes(m)) - (12 + |k| + |m[k]|)
  {
    hide Total;
    TotalRemove(Sizes(m), k);
    assert Sizes(m - {k}) == Sizes(m) - {k};
  }

  lemma SizesLess(m: Dict, k: Bytes)
    ensures Total(Sizes(m - {k})) <= Total(Sizes(m))
  {
    hide Total;
    if k in m {
      SizesRemove(m, k);
    } else {
      assert m - {k} == m;
    }
  }

  lemma PutSize<V>(m: map<Bytes, V>, k: Bytes, v: V)
    ensures |m[k := v]| == if k in m then |m| else |m| + 1
  {
    assert m[k := v].Keys == m.Keys + {k};
  }

  lemma WrittenPoints(c: Config, s: PState, k: Bytes, v: Bytes)
    requires Points(s) && InReplay(s) && |v| >= 8
    ensures Points(Written(c, s, k, v)) && InReplay(Written(c, s, k, v))
  {
    hide Mix, AddEvent, Replay, Time;
    ReplayAppend(s.log, Record(k, v));
  }

  lemma WrittenRoomy(c: Config, s: PState, k: Bytes, v: Bytes)
    requires Roomy(c, s) && |v| >= 8
    requires s.stored < MaxStored(s.log2) || k in s.live
    requires Fits(c, s, Record(k, v))
    ensures Roomy(c, Written(c, s, k, v))
  {
    hide Mix, AddEvent, Time, LogLen, MaxStored, Pow2;
    AppendRecord(s.log, Record(k, v));
    PutSize(s.live, k, |s.log|);
  }

  lemma WrittenInv(c: Config, s: PState, k: Bytes, v: Bytes)
    requires Inv(c, s) && |v| >= 8
    requires s.stored < MaxStored(s.log2) || k in s.live
    requires Fits(c, s, Record(k, v))
    ensures Inv(c, Written(c, s, k, v)) && Contents(Written(c, s, k, v)) == Contents(s)[k := v]
  {
    hide Mix, AddEvent, LogLen, Points, GoodLog, InReplay, Roomy, Contents, Total, Time, Sizes;
    WrittenPoints(c, s, k, v);
    WrittenRoomy(c, s, k, v);
    GoodAppend(s.log, Record(k, v));
    ContentsWritten(c, s, k, v);
    SizesPut(Contents(s), k, v);
    SizesLess(Contents(s), k);
    AppendRecord(s.log, Record(k, v));
  }

  lemma DroppedInv(c: Config, s: PState, k: Bytes, t: int)
    requires Inv(c, s) && k in s.live
    ensures Inv(c, Dropped(c, s, k, t)) && Contents(Dropped(c, s, k, t)) == Contents(s) - {k}
  {
    hide Mix, AddEvent, LogLen, GoodLog, Contents, Total, Replay, Sizes, MaxStored, Pow2;
    ContentsDropped(c, s, k, t);
    RemoveSize(s.live, k);
    SizesRemove(Contents(s), k) by { hide Sizes; ValueOf(s, k); }
    ValueOf(s, k);
  }

  lemma ValueOf(s: PState, k: Bytes)
    ensures Contents(s).Keys == s.live.Keys
    ensures k in s.live ==> Contents(s)[k] == Value(s, k)
  {}

  /** The state after a tombstone has been appended. */
  function Buried(s: PState, k: Bytes): (r: PState)
  {
    s.(log := s.log + [Record(k, [])])
  }

  lemma BuriedPoints(s: PState, k: Bytes)
    requires Points(s) && InReplay(s) && k !in s.live
    ensures Points(Buried(s, k)) && InReplay(Buried(s, k))
    ensures Contents(Buried(s, k)) == Contents(s)
  {
    hide Replay;
    ReplayAppend(s.log, Record(k, []));
  }

  lemma BuriedInv(c: Config, s: PState, k: Bytes)
    requires Inv(c, s) && k !in s.live && k in Replay(s.log)
    requires Fits(c, s, Record(k, []))
    ensures Inv(c, Buried(s, k)) && Contents(Buried(s, k)) == Contents(s)
  {
    hide LogLen, GoodLog, Total, Replay, Sizes, MaxStored, Pow2, Points, InReplay, Contents;
    BuriedPoints(s, k);
    GoodAppend(s.log, Record(k, []));
    AppendRecord(s.log, Record(k, []));
  }
}
