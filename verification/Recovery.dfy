/** Reopening a store: the index, the counters and the checksum are rebuilt from the log. */
module Recovery {
  import opened ByteStrings
  import opened RecordLog
  import opened Checksum
  import opened TimedMap
  import opened MapSums
  import opened PMapSpec
  import opened PMapRuns
  import opened PMapHistory
  import opened PMapChecksum

  /**
   The 8 bytes read at the start of the value of record i. For a tombstone they are its footer and
   the key length of the next record, or the zeros after the log.
   */
  function Peek(log: seq<Record>, i: nat): (n: nat)
    requires i < |log|
  {
    if |log[i].val| >= 8 then Stamp(log[i].val)
    else FromLE(PutU32(|log[i].key|) + PutU32(if i + 1 < |log| then |log[i + 1].key| else 0))
  }

  /** `restorePair` for record i, when the index has room for it. */
  function Indexed(c: Config, s: PState, log: seq<Record>, i: nat): (r: PState)
    requires i < |log|
  {
    var k, v, t := log[i].key, log[i].val, Signed(Peek(log, i));
    if k !in s.live then
      s.(live := s.live[k := i], stored := s.stored + 1,
         sums := AddEvent(s.sums, Xor64(c.hash(k), Peek(log, i)), t))
    else
      var d := Subtracted(c, s, k, t).(deleted := s.deleted + RecLen(Record(k, Value(s, k))));
      if |v| > 0 then
        d.(live := d.live[k := i], sums := AddEvent(d.sums, Xor64(c.hash(k), Peek(log, i)), t))
      else
        d.(live := d.live - {k})
  }

  /** One turn of the loop of `Open`: a full index loses the pair, silently. */
  function Restore(c: Config, s: PState, log: seq<Record>, i: nat): (r: PState)
    requires i < |log|
  {
    var p := if HasRoom(c, s) then Indexed(c, Grown(s), log, i) else s;
    p.(log := log[..i + 1],
       deleted := p.deleted + if |log[i].val| == 0 then 12 + |log[i].key| else 0)
  }

  function Restored(c: Config, log: seq<Record>, i: nat): (s: PState)
    requires i <= |log|
  {
    if i == 0 then Empty(c) else Restore(c, Restored(c, log, i - 1), log, i - 1)
  }

  /** How many records the walk of `Open` restores: it takes an empty key for the end of the log. */
  function Stop(log: seq<Record>): (n: nat)
    ensures n <= |log| && forall i | 0 <= i < n :: |log[i].key| > 0
    ensures n < |log| ==> log[n].key == []
  {
    if log == [] || log[0].key == [] then 0 else 1 + Stop(log[1..])
  }

  function Walked(log: seq<Record>): (w: seq<Record>)
  {
    log[..Stop(log)]
  }

  /** Unless an empty key stops it first, the walk reads a key length behind the log: 4 bytes must be left. */
  predicate OpenPanics(c: Config, log: seq<Record>)
  {
    Stop(log) == |log| && LogLen(log) + 4 > c.size
  }

  /** The state the walk of `Open` builds from a log. */
  function Reopened(c: Config, log: seq<Record>): (s: PState)
  {
    Restored(c, Walked(log), |Walked(log)|)
  }

  /** `Open`, on the file of a log; `None` is a panic. */
  function Restart(c: Config, log: seq<Record>): (r: Option<PState>)
  {
    if OpenPanics(c, log) then None else Some(Reopened(c, log))
  }

  /** What holds after the first i records: everything is exact. */
  ghost predicate Rebuilt(c: Config, s: PState, log: seq<Record>, i: nat)
    requires i <= |log|
  {
    && s.log == log[..i]
    && s.live == Replay(s.log)
    && Inv(c, s)
    && s.deleted + LiveBytes(s) == LogLen(s.log)
    && Agrees(c, s, 0)
  }

  /** A live record is restored as a write. */
  lemma RestoreWrite(c: Config, s: PState, log: seq<Record>, i: nat)
    requires i < |log| && s.log == log[..i] && Points(s) && HasRoom(c, s)
    requires |log[i].val| >= 8
    ensures var k, v, g := log[i].key, log[i].val, Grown(s);
      var b := if k in g.live then Subtracted(c, g, k, Time(v)) else g;
      Restore(c, s, log, i)
      == Written(c, b, k, v).(deleted := s.deleted + if k in g.live then RecLen(Record(k, Value(g, k))) else 0)
  {
    hide AddEvent, XorBits, HasRoom, Pow2, MaxStored;
    assert log[..i + 1] == s.log + [Record(log[i].key, log[i].val)];
    GrownShape(s);
  }

  /** A tombstone of a live key is restored as a deletion. */
  lemma RestoreTomb(c: Config, s: PState, log: seq<Record>, i: nat)
    requires i < |log| && s.log == log[..i] && HasRoom(c, s)
    requires log[i].val == [] && log[i].key in s.live
    ensures var k, g := log[i].key, Grown(s);
      Restore(c, s, log, i)
      == Buried(Dropped(c, g, k, Signed(Peek(log, i))), k).(
           deleted := s.deleted + RecLen(Record(k, Value(g, k))) + RecLen(Record(k, [])))
  {
    hide AddEvent, XorBits, HasRoom, Pow2, MaxStored, Peek;
    assert log[..i + 1] == s.log + [Record(log[i].key, [])];
    GrownShape(s);
  }

  lemma RecountedInv(c: Config, s: PState, n: nat)
    requires Inv(c, s) && n + LiveBytes(s) <= LogLen(s.log)
    ensures Inv(c, s.(deleted := n)) && Contents(s.(deleted := n)) == Contents(s)
    ensures LiveBytes(s.(deleted := n)) == LiveBytes(s)
  {
    hide LogLen, GoodLog, Total, Replay, Pow2, MaxStored, Sizes;
    assert Contents(s.(deleted := n)) == Contents(s);
  }

  lemma RecountedAgrees(c: Config, s: PState, n: nat)
    ensures Agrees(c, s.(deleted := n), 0) <==> Agrees(c, s, 0)
  {
    hide PairSum;
    assert Contents(s.(deleted := n)) == Contents(s);
  }

  lemma PresentSize(s: PState, k: Bytes, v: Bytes)
    requires Points(s)
    ensures Total(Sizes(Contents(s)[k := v]))
         == LiveBytes(s) + RecLen(Record(k, v)) - if k in s.live then RecLen(Record(k, Value(s, k))) else 0
  {
    hide Total, Sizes, Contents, Value;
    ValueOf(s, k);
    SizesPut(Contents(s), k, v);
    if k in s.live {
      SizesRemove(Contents(s), k);
    } else {
      AbsentKey(Contents(s), k);
    }
  }

  lemma RebuiltGrown(c: Config, s: PState, log: seq<Record>, i: nat)
    requires i <= |log| && Rebuilt(c, s, log, i) && HasRoom(c, s)
    ensures Rebuilt(c, Grown(s), log, i)
    ensures Grown(s).stored < MaxStored(Grown(s).log2)
  {
    hide Inv, Agrees, Contents, Grown, LogLen, Replay, HasRoom, MaxStored, Sizes, Total;
    GrownInv(c, s);
    GrownShape(s);
    InvPoints(c, s);
    GrownAgrees(c, s, 0);
  }

  lemma RebuiltIntro(c: Config, s: PState, log: seq<Record>, i: nat)
    requires i <= |log| && s.log == log[..i] && s.live == Replay(s.log) && Inv(c, s)
    requires s.deleted + LiveBytes(s) == LogLen(s.log) && Agrees(c, s, 0)
    ensures Rebuilt(c, s, log, i)
  {}

  lemma RebuiltElim(c: Config, s: PState, log: seq<Record>, i: nat)
    requires i <= |log| && Rebuilt(c, s, log, i)
    ensures s.log == log[..i] && s.live == Replay(s.log) && Inv(c, s)
    ensures s.deleted + LiveBytes(s) == LogLen(s.log) && Agrees(c, s, 0)
  {}

  lemma FitsIff(c: Config, s: PState, r: Record)
    ensures Fits(c, s, r) <==> LogLen(s.log + [r]) < c.size
  {
    hide LogLen;
    AppendRecord(s.log, r);
  }

  /** Writing a pair: the live bytes change by the new record and the one it replaces. */
  lemma StoreInv(c: Config, g: PState, k: Bytes, v: Bytes)
    requires Inv(c, g) && g.stored < MaxStored(g.log2) && |v| >= 8 && Fits(c, g, Record(k, v))
    ensures var b := if k in g.live then Subtracted(c, g, k, Time(v)) else g;
      var w := Written(c, b, k, v);
      && Inv(c, w)
      && LiveBytes(w) == LiveBytes(g) + RecLen(Record(k, v))
           - (if k in g.live then RecLen(Record(k, Value(g, k))) else 0)
      && w.log == g.log + [Record(k, v)] && w.live == g.live[k := |g.log|]
  {
    hide Inv, Contents, Written, Subtracted, LogLen, MaxStored, Time, Sizes, Total, RecLen, Value;
    var b := if k in g.live then Subtracted(c, g, k, Time(v)) else g;
    SubtractedInv(c, g, k, Time(v));
    SubtractedShape(c, g, k, Time(v));
    WrittenInv(c, b, k, v);
    WrittenShape(c, b, k, v);
    InvPoints(c, g);
    PresentSize(g, k, v);
  }

  lemma StoreRebuilt(c: Config, g: PState, log: seq<Record>, i: nat, n: nat)
    requires i < |log| && Rebuilt(c, g, log, i) && g.stored < MaxStored(g.log2)
    requires |log[i].val| >= 8 && LogLen(log[..i + 1]) < c.size
    requires n == g.deleted + if log[i].key in g.live then RecLen(Record(log[i].key, Value(g, log[i].key))) else 0
    ensures var k, v := log[i].key, log[i].val;
      var b := if k in g.live then Subtracted(c, g, k, Time(v)) else g;
      Rebuilt(c, Written(c, b, k, v).(deleted := n), log, i + 1)
  {
    hide *;
    var k, v := log[i].key, log[i].val;
    var b := if k in g.live then Subtracted(c, g, k, Time(v)) else g;
    var w := Written(c, b, k, v);
    RebuiltElim(c, g, log, i);
    assert log[..i + 1] == g.log + [Record(k, v)];
    FitsIff(c, g, Record(k, v));
    AppendRecord(g.log, Record(k, v));
    ReplayAppend(g.log, Record(k, v));
    StoreInv(c, g, k, v);
    InvPoints(c, g);
    StoreAgrees(c, g, k, v, 0);
    RecountedInv(c, w, n);
    RecountedAgrees(c, w, n);
    RebuiltIntro(c, w.(deleted := n), log, i + 1);
  }

  lemma RebuiltWrite(c: Config, s: PState, log: seq<Record>, i: nat)
    requires i < |log| && Rebuilt(c, s, log, i) && HasRoom(c, s)
    requires |log[i].val| >= 8 && LogLen(log[..i + 1]) < c.size
    ensures Rebuilt(c, Restore(c, s, log, i), log, i + 1)
  {
    hide *;
    RebuiltParts(c, s, log, i);
    InvPoints(c, s);
    RebuiltGrown(c, s, log, i);
    RestoreWrite(c, s, log, i);
    GrownShape(s);
    var k, g := log[i].key, Grown(s);
    StoreRebuilt(c, g, log, i, s.deleted + if k in g.live then RecLen(Record(k, Value(g, k))) else 0);
  }

  /** Burying a key: its record leaves the live bytes. */
  lemma BuryInv(c: Config, g: PState, k: Bytes, t: int)
    requires Inv(c, g) && k in g.live && Fits(c, g, Record(k, []))
    ensures var w := Buried(Dropped(c, g, k, t), k);
      && Inv(c, w)
      && LiveBytes(w) == LiveBytes(g) - RecLen(Record(k, Value(g, k)))
      && w.log == g.log + [Record(k, [])] && w.live == g.live - {k}
  {
    hide Inv, Contents, Dropped, Buried, LogLen, Sizes, Total, Value, Replay;
    var d := Dropped(c, g, k, t);
    DroppedInv(c, g, k, t);
    DroppedShape(c, g, k, t);
    InvReplay(c, g, k);
    BuriedInv(c, d, k);
    BuriedShape(d, k);
    ValueOf(g, k);
    SizesRemove(Contents(g), k);
  }

  lemma BuryRebuilt(c: Config, g: PState, log: seq<Record>, i: nat, t: int, n: nat)
    requires i < |log| && Rebuilt(c, g, log, i)
    requires log[i].val == [] && log[i].key in g.live && LogLen(log[..i + 1]) < c.size
    requires n == g.deleted + RecLen(Record(log[i].key, Value(g, log[i].key))) + RecLen(Record(log[i].key, []))
    ensures Rebuilt(c, Buried(Dropped(c, g, log[i].key, t), log[i].key).(deleted := n), log, i + 1)
  {
    hide *;
    var k := log[i].key;
    var w := Buried(Dropped(c, g, k, t), k);
    RebuiltElim(c, g, log, i);
    assert log[..i + 1] == g.log + [Record(k, [])];
    FitsIff(c, g, Record(k, []));
    AppendRecord(g.log, Record(k, []));
    ReplayAppend(g.log, Record(k, []));
    BuryInv(c, g, k, t);
    InvPoints(c, g);
    DropAgrees(c, g, k, t, 0);
    RecountedInv(c, w, n);
    RecountedAgrees(c, w, n);
    RebuiltIntro(c, w.(deleted := n), log, i + 1);
  }

  lemma RebuiltTomb(c: Config, s: PState, log: seq<Record>, i: nat)
    requires i < |log| && Rebuilt(c, s, log, i) && HasRoom(c, s)
    requires log[i].val == [] && log[i].key in s.live && LogLen(log[..i + 1]) < c.size
    ensures Rebuilt(c, Restore(c, s, log, i), log, i + 1)
  {
    hide *;
    RebuiltParts(c, s, log, i);
    RebuiltGrown(c, s, log, i);
    RestoreTomb(c, s, log, i);
    GrownShape(s);
    var k, g := log[i].key, Grown(s);
    BuryRebuilt(c, g, log, i, Signed(Peek(log, i)), s.deleted + RecLen(Record(k, Value(g, k))) + RecLen(Record(k, [])));
  }

  lemma BuriedShape(s: PState, k: Bytes)
    ensures Buried(s, k).log == s.log + [Record(k, [])] && Buried(s, k).live == s.live
  {}

  lemma EmptyRebuilt(c: Config, log: seq<Record>)
    requires ValidConfig(c)
    ensures Rebuilt(c, Empty(c), log, 0)
  {
    EmptyInv(c);
    EmptyAgrees(c);
    assert Sizes(map[]) == map[];
  }

  lemma {:induction false} RestoredExact(c: Config, log: seq<Record>, i: nat)
    requires ValidConfig(c) && Ample(c) && GoodLog(log)
    requires i <= |log| && (log == [] || LogLen(log) < c.size)
    ensures Rebuilt(c, Restored(c, log, i), log, i)
    decreases i
  {
    hide ValidConfig, Ample, GoodLog, LogLen, Replay, Restore, Inv, Agrees, HasRoom, Rebuilt, Empty;
    if i == 0 {
      EmptyRebuilt(c, log);
    } else {
      var s := Restored(c, log, i - 1);
      RestoredExact(c, log, i - 1);
      RebuiltParts(c, s, log, i - 1);
      AmpleHasRoom(c, s);
      OffsetMonotone(log, i, |log|);
      OffsetEnd(log);
      GoodAt(log, i - 1);
      if |log[i - 1].val| >= 8 {
        RebuiltWrite(c, s, log, i - 1);
      } else {
        RebuiltTomb(c, s, log, i - 1);
      }
    }
  }

  lemma RebuiltParts(c: Config, s: PState, log: seq<Record>, i: nat)
    requires i <= |log| && Rebuilt(c, s, log, i)
    ensures Inv(c, s) && Roomy(c, s) && s.log == log[..i] && s.live == Replay(log[..i])
  {
    hide LogLen, Replay, GoodLog;
  }

  lemma GoodAt(log: seq<Record>, i: nat)
    requires GoodLog(log) && i < |log|
    ensures |log[i].val| >= 8 || (log[i].val == [] && log[i].key in Replay(log[..i]))
  {
    hide Replay;
    assert GoodRecord(log, i);
  }

  lemma GoodPrefix(log: seq<Record>, n: nat)
    requires GoodLog(log) && n <= |log|
    ensures GoodLog(log[..n])
  {
    hide Replay;
    forall j | 0 <= j < n ensures GoodRecord(log[..n], j) {
      assert GoodRecord(log, j);
      assert log[..n][..j] == log[..j];
    }
  }

  lemma WalkedLen(log: seq<Record>)
    ensures LogLen(Walked(log)) <= LogLen(log)
  {
    hide LogLen, Stop;
    OffsetMonotone(log, Stop(log), |log|);
    OffsetEnd(log);
  }

  /**
   Reopening any good log: the live map is the replay of what was walked, the bytes are exactly
   accounted for and the newest checksum is the sum over the pairs.
   */
  lemma ReopenExact(c: Config, log: seq<Record>)
    requires ValidConfig(c) && Ample(c) && GoodLog(log) && (log == [] || LogLen(log) < c.size)
    ensures var s := Reopened(c, log);
      && s.log == Walked(log) && s.live == Replay(Walked(log)) && Inv(c, s)
      && LogLen(Walked(log)) == s.deleted + LiveBytes(s)
      && s.sums.newSum == PairSum(c.hash, Contents(s)) % TWO64
  {
    hide ValidConfig, Ample, GoodLog, LogLen, Replay, Inv, Restored, LiveBytes, PairSum, Contents, Stop;
    var w := Walked(log);
    GoodPrefix(log, Stop(log));
    WalkedLen(log);
    RestoredExact(c, w, |w|);
    assert w[..|w|] == w;
    CongEqual(Reopened(c, log).sums.newSum, PairSum(c.hash, Contents(Reopened(c, log))));
  }

  lemma WholeWalk(log: seq<Record>)
    requires forall i | 0 <= i < |log| :: |log[i].key| > 0
    ensures Stop(log) == |log| && Walked(log) == log
  {}

  lemma InvLog(c: Config, s: PState)
    requires Inv(c, s)
    ensures GoodLog(s.log) && (s.log == [] || LogLen(s.log) < c.size)
    ensures s.deleted + LiveBytes(s) <= LogLen(s.log)
  {}

  lemma SameContents(s: PState, r: PState)
    requires s.log == r.log && s.live == r.live
    ensures Contents(s) == Contents(r)
  {
    assert forall k :: Value(s, k) == Value(r, k);
  }
}
