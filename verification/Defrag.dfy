/** Iteration over the live pairs, and the defragmentation built on it. */
module Defrag {
  import opened ByteStrings
  import opened RecordLog
  import opened Checksum
  import opened TimedMap
  import opened MapSums
  import opened PMapSpec
  import opened PMapRuns
  import opened PMapHistory
  import opened PMapChecksum
  import opened Recovery
  import opened GetAnswers

  /** Record i is the one its key points to. */
  predicate IsLive(s: PState, i: nat)
    requires i < |s.log|
  {
    s.log[i].key in s.live && s.live[s.log[i].key] == i
  }

  /** The test of `isPresent`: the timestamp of what Get answers against the 8 bytes at the value of record i. */
  predicate Present(s: PState, a: Dict, i: nat)
    requires i < |s.log|
  {
    s.log[i].key in a && Stamp(a[s.log[i].key]) == Peek(s.log, i)
  }

  /** No dead record of a live key shows the timestamp of the live one. */
  ghost predicate Unambiguous(s: PState)
  {
    forall i | 0 <= i < |s.log| && s.log[i].key in s.live && !IsLive(s, i) ::
      Peek(s.log, i) != Stamp(Value(s, s.log[i].key))
  }

  lemma LivePeek(s: PState, i: nat)
    requires Points(s) && i < |s.log| && IsLive(s, i)
    ensures Value(s, s.log[i].key) == s.log[i].val && |s.log[i].val| >= 8
    ensures Peek(s.log, i) == Stamp(Value(s, s.log[i].key))
  {}

  /** Where Get is right and the log unambiguous, the live records pass the test and no others. */
  lemma RightPresence(s: PState, a: Dict)
    requires Points(s) && Right(s, a) && Unambiguous(s)
    ensures forall i | 0 <= i < |s.log| :: Present(s, a, i) <==> IsLive(s, i)
  {
    hide Peek, Stamp, Value;
    forall i | 0 <= i < |s.log| ensures Present(s, a, i) <==> IsLive(s, i) {
      ValueOf(s, s.log[i].key);
      if IsLive(s, i) { LivePeek(s, i); }
    }
  }

  /** If the test is right about every record, so is Get about every key of the log. */
  lemma PresenceIsRight(c: Config, s: PState, a: Dict)
    requires Points(s) && Answers(c, s, a)
    requires forall i | 0 <= i < |s.log| :: Present(s, a, i) <==> IsLive(s, i)
    ensures Right(s, a)
  {
    hide Stamp, GoodHash, Contents;
    forall k | k in s.live ensures k in a { assert IsLive(s, s.live[k]); }
    forall i | 0 <= i < |s.log| ensures Lookup(a, s.log[i].key) == Lookup(Contents(s), s.log[i].key) {
      var k := s.log[i].key;
      ValueOf(s, k);
      if k in a {
        assert GetAllows(c, s, k, Some(a[k]));
        var j :| 0 <= j < |s.log| && s.log[j] == Record(k, a[k]);
        PeekValue(s.log, j);
        assert IsLive(s, j);
        LivePeek(s, j);
      }
    }
  }

  lemma PresenceIsUnambiguous(s: PState, a: Dict)
    requires Points(s) && Right(s, a) && forall i | 0 <= i < |s.log| :: Present(s, a, i) <==> IsLive(s, i)
    ensures Unambiguous(s)
  {
    hide Peek, Stamp, Value;
    forall i | 0 <= i < |s.log| && s.log[i].key in s.live && !IsLive(s, i)
      ensures Peek(s.log, i) != Stamp(Value(s, s.log[i].key))
    {
      ValueOf(s, s.log[i].key);
      assert !Present(s, a, i);
    }
  }

  /** The presence test is right about every record if and only if Get is about every key and the log is unambiguous. */
  lemma PresentIsLive(c: Config, s: PState, a: Dict)
    requires Points(s) && Answers(c, s, a)
    ensures (forall i | 0 <= i < |s.log| :: Present(s, a, i) <==> IsLive(s, i)) <==> Right(s, a) && Unambiguous(s)
  {
    hide Peek, Stamp, Value, GetAllows;
    if Right(s, a) && Unambiguous(s) {
      RightPresence(s, a);
    }
    if forall i | 0 <= i < |s.log| :: Present(s, a, i) <==> IsLive(s, i) {
      PresenceIsRight(c, s, a);
      PresenceIsUnambiguous(s, a);
    }
  }

  // When is a log unambiguous?

  ghost predicate FreshTimes(log: seq<Record>)
  {
    forall i, j | 0 <= i < j < |log| && log[i].key == log[j].key && |log[i].val| >= 8 && |log[j].val| >= 8 ::
      Stamp(log[i].val) != Stamp(log[j].val)
  }

  const TWO60: nat := 0x1000_0000_0000_0000

  ghost predicate HighTimes(log: seq<Record>)
  {
    forall i | 0 <= i < |log| && |log[i].val| >= 8 :: Stamp(log[i].val) >= TWO60
  }

  /** The word read past a tombstone: its key length, and the next key length in the high half. */
  lemma TombstoneWord(log: seq<Record>, i: nat)
    requires i < |log| && log[i].val == [] && LogLen(log) < TWO32
    ensures Peek(log, i) == |log[i].key| + TWO32 * if i + 1 < |log| then |log[i + 1].key| else 0
  {
    hide FromLE, PutU32, LogLen;
    var next := if i + 1 < |log| then |log[i + 1].key| else 0;
    KeyBound(log, i);
    if i + 1 < |log| { KeyBound(log, i + 1); }
    FromLEConcat(PutU32(|log[i].key|), PutU32(next));
    U32RoundTrip(|log[i].key|);
    U32RoundTrip(next);
    assert Pow256(4) == TWO32;
  }

  lemma KeyBound(log: seq<Record>, i: nat)
    requires i < |log|
    ensures |log[i].key| + 12 <= LogLen(log)
  {
    hide LogLen;
    OffsetStep(log, i);
    OffsetMonotone(log, i + 1, |log|);
    OffsetEnd(log);
  }

  /** In a store of at most 2^28 bytes that word is below 2^60. */
  lemma TombstoneBound(log: seq<Record>, i: nat)
    requires i < |log| && log[i].val == [] && LogLen(log) < TWO28
    ensures Peek(log, i) < TWO60
  {
    var next := if i + 1 < |log| then |log[i + 1].key| else 0;
    assert |log[i].key| < TWO28 && next < TWO28 by {
      hide LogLen;
      KeyBound(log, i);
      if i + 1 < |log| { KeyBound(log, i + 1); }
    }
    hide *;
    TombstoneWordIs(log, i, next);
    WordBound(|log[i].key|, next);
  }

  lemma TombstoneWordIs(log: seq<Record>, i: nat, next: nat)
    requires i < |log| && log[i].val == [] && LogLen(log) < TWO28
    requires next == if i + 1 < |log| then |log[i + 1].key| else 0
    ensures Peek(log, i) == |log[i].key| + TWO32 * next
  {
    hide Peek, LogLen;
    TombstoneWord(log, i);
  }

  lemma WordBound(a: nat, b: nat)
    requires a < TWO28 && b < TWO28
    ensures a + TWO32 * b < TWO60
  {}

  /** Fresh timestamps of at least 2^60 in a store below 2^28 bytes: no record is mistaken for a live one. */
  lemma FreshIsUnambiguous(s: PState)
    requires Points(s) && GoodLog(s.log) && FreshTimes(s.log) && HighTimes(s.log)
    requires LogLen(s.log) < TWO28
    ensures Unambiguous(s)
  {
    hide Stamp, Peek, LogLen, GoodLog;
    forall i | 0 <= i < |s.log| && s.log[i].key in s.live && !IsLive(s, i)
      ensures Peek(s.log, i) != Stamp(Value(s, s.log[i].key))
    {
      var j := s.live[s.log[i].key];
      GoodAt(s.log, i);
      if s.log[i].val == [] {
        TombstoneBound(s.log, i);
      } else {
        PeekValue(s.log, i);
        assert i < j || j < i;
      }
    }
  }

  lemma PeekValue(log: seq<Record>, i: nat)
    requires i < |log| && |log[i].val| >= 8
    ensures Peek(log, i) == Stamp(log[i].val)
  {}

  // Iteration.

  /** The records `Iterate` hands to its callback, among the first n. */
  function Visited(s: PState, a: Dict, n: nat): (r: seq<Record>)
    requires n <= |s.log|
  {
    if n == 0 then [] else Visited(s, a, n - 1) + if Present(s, a, n - 1) then [s.log[n - 1]] else []
  }

  lemma VisitedStep(s: PState, a: Dict, n: nat)
    requires n < |s.log|
    ensures Visited(s, a, n + 1) == Visited(s, a, n) + if Present(s, a, n) then [s.log[n]] else []
  {}

  function LiveRecords(s: PState, n: nat): (r: seq<Record>)
    requires n <= |s.log|
  {
    if n == 0 then [] else LiveRecords(s, n - 1) + if IsLive(s, n - 1) then [s.log[n - 1]] else []
  }

  lemma {:induction false} VisitsLive(s: PState, a: Dict, n: nat)
    requires n <= |s.log| && forall i | 0 <= i < |s.log| :: Present(s, a, i) <==> IsLive(s, i)
    ensures Visited(s, a, n) == LiveRecords(s, n)
    decreases n
  {
    hide Present, IsLive;
    if n > 0 { VisitsLive(s, a, n - 1); }
  }

  /** The live records: one per live key, holding its value, in the order of the log. */
  lemma {:induction false} LiveRecordsExact(s: PState, n: nat)
    requires Points(s) && n <= |s.log|
    ensures forall r :: r in LiveRecords(s, n) <==>
      r.key in s.live && s.live[r.key] < n && r.val == Value(s, r.key)
    ensures forall a, b | 0 <= a < b < |LiveRecords(s, n)| ::
      s.live[LiveRecords(s, n)[a].key] < s.live[LiveRecords(s, n)[b].key]
    decreases n
  {
    if n > 0 {
      LiveRecordsExact(s, n - 1);
      var p, q := LiveRecords(s, n - 1), LiveRecords(s, n);
      forall r ensures r in q <==> r.key in s.live && s.live[r.key] < n && r.val == Value(s, r.key) {
        if r.key in s.live && s.live[r.key] == n - 1 && r.val == Value(s, r.key) {
          assert r == s.log[n - 1];
        }
      }
      forall a, b | 0 <= a < b < |q| ensures s.live[q[a].key] < s.live[q[b].key] {
        assert q[a] in q && q[b] in q;
        if b < |p| { assert q[a] == p[a] && q[b] == p[b]; } else { assert q[a] == p[a] && p[a] in p; }
      }
    }
  }

  lemma {:induction false} VisitedIs(s: PState, a: Dict, n: nat, r: Record)
    requires n <= |s.log|
    ensures r in Visited(s, a, n) <==> exists i :: 0 <= i < n && Present(s, a, i) && s.log[i] == r
    decreases n
  {
    hide Present;
    if n > 0 { VisitedIs(s, a, n - 1, r); }
  }

  /** Two shown records are visited at two places, in order. */
  lemma {:induction false} VisitedTwice(s: PState, a: Dict, n: nat, i: nat, j: nat) returns (p: nat, q: nat)
    requires i < j < n <= |s.log| && Present(s, a, i) && Present(s, a, j)
    ensures p < q < |Visited(s, a, n)| && Visited(s, a, n)[p] == s.log[i] && Visited(s, a, n)[q] == s.log[j]
    decreases n
  {
    hide Present;
    if j < n - 1 {
      p, q := VisitedTwice(s, a, n - 1, i, j);
    } else {
      VisitedIs(s, a, n - 1, s.log[i]);
      p :| 0 <= p < |Visited(s, a, n - 1)| && Visited(s, a, n - 1)[p] == s.log[i];
      q := |Visited(s, a, n - 1)|;
    }
  }

  /** If the visit is that of the live records, only live records are shown. */
  lemma OnlyLiveShown(s: PState, a: Dict, j: nat)
    requires Points(s) && Visited(s, a, |s.log|) == LiveRecords(s, |s.log|) && j < |s.log| && Present(s, a, j)
    ensures IsLive(s, j)
  {
    hide Visited, LiveRecords, Stamp;
    var n, k := |s.log|, s.log[j].key;
    VisitedIs(s, a, n, s.log[j]);
    LiveRecordsExact(s, n);
    var i := s.live[k];
    assert s.log[i] == s.log[j];
    if i != j {
      PeekValue(s.log, i);
      PeekValue(s.log, j);
      assert Present(s, a, i);
      var p, q;
      if i < j { p, q := VisitedTwice(s, a, n, i, j); } else { p, q := VisitedTwice(s, a, n, j, i); }
    }
  }

  /** If the visit is that of the live records, the test is right about every record. */
  lemma VisitDecides(s: PState, a: Dict)
    requires Points(s) && Visited(s, a, |s.log|) == LiveRecords(s, |s.log|)
    ensures forall i | 0 <= i < |s.log| :: Present(s, a, i) <==> IsLive(s, i)
  {
    hide Visited, LiveRecords, Present;
    forall i | 0 <= i < |s.log| ensures Present(s, a, i) <==> IsLive(s, i) {
      if Present(s, a, i) {
        OnlyLiveShown(s, a, i);
      } else if IsLive(s, i) {
        LiveRecordsExact(s, |s.log|);
        LivePeek(s, i);
        assert s.log[i] in LiveRecords(s, |s.log|);
        VisitedIs(s, a, |s.log|, s.log[i]);
        var j :| 0 <= j < |s.log| && Present(s, a, j) && s.log[j] == s.log[i];
        OnlyLiveShown(s, a, j);
      }
    }
  }

  /**
   Iteration visits exactly the live records, each once, if and only if Get is right about every key of the
   log and the log is unambiguous.
   */
  lemma IterationIff(c: Config, s: PState, a: Dict)
    requires Points(s) && Answers(c, s, a)
    ensures Visited(s, a, |s.log|) == LiveRecords(s, |s.log|) <==> Right(s, a) && Unambiguous(s)
  {
    hide Points, Present, IsLive, Unambiguous, Visited, LiveRecords, Right, Answers;
    PresentIsLive(c, s, a);
    if Visited(s, a, |s.log|) == LiveRecords(s, |s.log|) {
      VisitDecides(s, a);
    } else if Right(s, a) && Unambiguous(s) {
      VisitsLive(s, a, |s.log|);
    }
  }

  /** In terms of the hashes, where none is 1: if and only if no live key has hash 0 and the log is unambiguous. */
  lemma IterationIffGood(c: Config, s: PState, a: Dict)
    requires Points(s) && Answers(c, s, a) && NoHashOne(c, s.log)
    ensures Visited(s, a, |s.log|) == LiveRecords(s, |s.log|) <==> LiveAreGood(c, s) && Unambiguous(s)
  {
    hide *;
    IterationIff(c, s, a);
    RightIff(c, s, a);
  }

  /** What such an iteration visits, in terms of the pairs: each live pair, once, in the order of the log. */
  lemma IterationExact(s: PState, a: Dict)
    requires Points(s) && Right(s, a) && Unambiguous(s)
    ensures var v := Visited(s, a, |s.log|);
      && (forall r :: r in v <==> r.key in Contents(s) && r.val == Contents(s)[r.key])
      && (forall i, j | 0 <= i < j < |v| :: v[i].key != v[j].key)
  {
    hide Unambiguous, Visited, LiveRecords, Value, Right;
    RightPresence(s, a);
    VisitsLive(s, a, |s.log|);
    LiveRecordsExact(s, |s.log|);
    var v := LiveRecords(s, |s.log|);
    forall r ensures r in v <==> r.key in Contents(s) && r.val == Contents(s)[r.key] {
      ValueOf(s, r.key);
    }
    forall i, j | 0 <= i < j < |v| ensures v[i].key != v[j].key {
      assert s.live[v[i].key] < s.live[v[j].key];
    }
  }

  // Defragmentation.

  /** Sets every visited pair among the first n records into a new PMap; any refusal is a panic. */
  function Defragged(c: Config, s: PState, a: Dict, n: nat): (r: Result)
    requires n <= |s.log|
  {
    if n == 0 then Result(Empty(c), Ok)
    else
      var p := Defragged(c, s, a, n - 1);
      if !p.out.Ok? || !Present(s, a, n - 1) then p
      else DoSet(c, p.s, s.log[n - 1].key, s.log[n - 1].val)
  }

  /** The pairs of s whose live record is among the first n. */
  function Upto(s: PState, n: nat): (m: Dict)
  {
    map k | k in s.live && s.live[k] < n :: Value(s, k)
  }

  /** The new PMap d holds exactly the live records found so far, and nothing else. */
  ghost predicate Compact(c: Config, s: PState, d: PState, n: nat)
    requires n <= |s.log|
  {
    && Inv(c, d) && Agrees(c, d, 0)
    && d.log == LiveRecords(s, n)
    && Contents(d) == Upto(s, n)
    && d.deleted == 0 && LogLen(d.log) == LiveBytes(d)
    && Replay(d.log) == d.live
  }

  lemma CompactIntro(c: Config, s: PState, d: PState, n: nat)
    requires n <= |s.log| && Inv(c, d) && Agrees(c, d, 0) && d.log == LiveRecords(s, n)
    requires Contents(d) == Upto(s, n) && d.deleted == 0 && LogLen(d.log) == LiveBytes(d) && Replay(d.log) == d.live
    ensures Compact(c, s, d, n)
  {}

  lemma CompactElim(c: Config, s: PState, d: PState, n: nat)
    requires n <= |s.log| && Compact(c, s, d, n)
    ensures Inv(c, d) && Roomy(c, d) && Agrees(c, d, 0) && d.log == LiveRecords(s, n)
    ensures Contents(d) == Upto(s, n) && d.deleted == 0 && LogLen(d.log) == LiveBytes(d) && Replay(d.log) == d.live
  {
    hide Points, GoodLog, InReplay, Counted, Roomy, Agrees, LogLen, Replay;
  }

  lemma UptoStep(s: PState, n: nat)
    requires Points(s) && n < |s.log|
    ensures IsLive(s, n) ==> Upto(s, n + 1) == Upto(s, n)[s.log[n].key := s.log[n].val] && s.log[n].key !in Upto(s, n)
    ensures !IsLive(s, n) ==> Upto(s, n + 1) == Upto(s, n)
  {
    hide Value;
    if IsLive(s, n) { LivePeek(s, n); }
  }

  lemma UptoAll(s: PState)
    requires Points(s)
    ensures Upto(s, |s.log|) == Contents(s)
  {}

  lemma {:induction false} TotalSubmap(u: map<Bytes, int>, w: map<Bytes, int>)
    requires forall k | k in u :: k in w && w[k] == u[k]
    requires forall k | k in w :: w[k] >= 0
    ensures Total(u) <= Total(w)
    decreases |w|
  {
    hide Total;
    if k :| k in u {
      TotalRemove(u, k);
      TotalRemove(w, k);
      RemoveSize(w, k);
      TotalSubmap(u - {k}, w - {k});
    } else {
      assert u == map[];
      TotalEmpty();
      TotalNonNegative(w);
    }
  }

  lemma TotalEmpty()
    ensures Total(map[]) == 0
  {}

  lemma UptoBytes(s: PState, n: nat)
    ensures Total(Sizes(Upto(s, n))) <= LiveBytes(s)
  {
    hide Total, Value;
    TotalSubmap(Sizes(Upto(s, n)), Sizes(Contents(s)));
  }

  /** The next live record always fits: what is live is no longer than the old log. */
  lemma NextFits(c: Config, o: Config, s: PState, d: PState, n: nat)
    requires Inv(o, s) && o.size <= c.size && n < |s.log| && IsLive(s, n) && Compact(c, s, d, n)
    ensures Fits(c, d, s.log[n])
  {
    hide Inv, Total, Sizes, Upto, Contents, LogLen, IsLive, Compact;
    CompactElim(c, s, d, n);
    InvPoints(o, s);
    InvLog(o, s);
    UptoStep(s, n);
    UptoBytes(s, n + 1);
    var k, v := s.log[n].key, s.log[n].val;
    AbsentKey(Upto(s, n), k);
    SizesPut(Upto(s, n), k, v);
    assert s.log != [];
  }

  lemma SetNew(c: Config, d: PState, k: Bytes, v: Bytes)
    requires |v| >= 8 && HasRoom(c, d) && k !in d.live && Fits(c, d, Record(k, v))
    ensures DoSet(c, d, k, v) == Result(Written(c, Grown(d), k, v), Ok)
  {
    hide HasRoom, Grown, Written, LogLen, Time;
    GrownShape(d);
  }

  /** Setting the next live record into the compacted map. */
  lemma CompactStep(c: Config, s: PState, d: PState, n: nat)
    requires Ample(c) && Points(s) && n < |s.log| && IsLive(s, n) && Compact(c, s, d, n)
    requires Fits(c, d, s.log[n])
    ensures var r := DoSet(c, d, s.log[n].key, s.log[n].val);
      r.out.Ok? && Compact(c, s, r.s, n + 1)
  {
    hide *;
    var k, v := s.log[n].key, s.log[n].val;
    CompactElim(c, s, d, n);
    AmpleHasRoom(c, d);
    UptoStep(s, n);
    ValueOf(d, k);
    LivePeek(s, n);
    assert s.log[n] == Record(k, v);
    SetNew(c, d, k, v);
    var g := Grown(d);
    GrownInv(c, d);
    GrownShape(d);
    FitsIff(c, d, Record(k, v));
    FitsIff(c, g, Record(k, v));
    InvPoints(c, d);
    GrownAgrees(c, d, 0);
    StoreAgrees(c, g, k, v, 0);
    StoreInv(c, g, k, v);
    GrownBytes(d);
    WrittenInv(c, g, k, v);
    WrittenDeleted(c, g, k, v);
    AppendRecord(d.log, Record(k, v));
    ReplayAppend(d.log, Record(k, v));
    LiveRecordsStep(s, n);
    CompactIntro(c, s, Written(c, g, k, v), n + 1);
  }

  lemma GrownBytes(s: PState)
    ensures LiveBytes(Grown(s)) == LiveBytes(s)
  {
    hide Total, Sizes, Contents;
    GrownContents(s, []);
  }

  lemma WrittenDeleted(c: Config, s: PState, k: Bytes, v: Bytes)
    ensures Written(c, s, k, v).deleted == s.deleted
  {
    hide Mix, AddEvent, Time;
  }

  lemma LiveRecordsStep(s: PState, n: nat)
    requires n < |s.log|
    ensures LiveRecords(s, n + 1) == LiveRecords(s, n) + if IsLive(s, n) then [s.log[n]] else []
  {}

  lemma CompactSkip(c: Config, s: PState, d: PState, n: nat)
    requires Points(s) && n < |s.log| && !IsLive(s, n) && Compact(c, s, d, n)
    ensures Compact(c, s, d, n + 1)
  {
    hide *;
    CompactElim(c, s, d, n);
    UptoStep(s, n);
    LiveRecordsStep(s, n);
    CompactIntro(c, s, d, n + 1);
  }

  lemma CompactEmpty(c: Config, s: PState)
    requires ValidConfig(c)
    ensures Compact(c, s, Empty(c), 0)
  {
    EmptyInv(c);
    EmptyAgrees(c);
    assert Upto(s, 0) == map[];
    assert Sizes(map[]) == map[];
  }

  lemma {:induction false} DefragUpto(c: Config, o: Config, s: PState, a: Dict, n: nat)
    requires ValidConfig(c) && Ample(c) && o.size <= c.size
    requires Inv(o, s) && n <= |s.log| && forall i | 0 <= i < |s.log| :: Present(s, a, i) <==> IsLive(s, i)
    ensures Defragged(c, s, a, n).out.Ok? && Compact(c, s, Defragged(c, s, a, n).s, n)
    decreases n
  {
    hide ValidConfig, Ample, Inv, Compact, Present, IsLive, DoSet, Empty, LogLen;
    if n == 0 {
      CompactEmpty(c, s);
    } else {
      DefragUpto(c, o, s, a, n - 1);
      var d := Defragged(c, s, a, n - 1).s;
      InvPoints(o, s);
      if IsLive(s, n - 1) {
        NextFits(c, o, s, d, n - 1);
        CompactStep(c, s, d, n - 1);
      } else {
        CompactSkip(c, s, d, n - 1);
      }
    }
  }

  /**
   Defragmentation into a store at least as large, where Get is right about the keys and the log is
   unambiguous, never panics, keeps every pair, leaves nothing deleted, and its log is exactly the live
   records.
   */
  lemma DefragExact(c: Config, o: Config, s: PState, a: Dict)
    requires ValidConfig(c) && Ample(c) && o.size <= c.size
    requires Inv(o, s) && Right(s, a) && Unambiguous(s)
    ensures var r := Defragged(c, s, a, |s.log|);
      && r.out.Ok? && Inv(c, r.s)
      && Contents(r.s) == Contents(s)
      && r.s.deleted == 0 && LogLen(r.s.log) == LiveBytes(s)
      && r.s.log == LiveRecords(s, |s.log|) && Replay(r.s.log) == r.s.live
      && r.s.sums.newSum == PairSum(c.hash, Contents(s)) % TWO64
  {
    hide ValidConfig, Ample, Inv, Unambiguous, Compact, Defragged, LogLen, PairSum, Contents, Replay, Total, Sizes, Upto, Right, Present, IsLive;
    InvPoints(o, s);
    RightPresence(s, a);
    DefragUpto(c, o, s, a, |s.log|);
    var d := Defragged(c, s, a, |s.log|).s;
    CompactElim(c, s, d, |s.log|);
    UptoAll(s);
    CongEqual(d.sums.newSum, PairSum(c.hash, Contents(d)));
  }
}
