/** How much a PMap takes, exactly: in bytes of the store and in keys of the index. */
module Capacity {
  import opened ByteStrings
  import opened RecordLog
  import opened TimedMap
  import opened PMapSpec
  import opened PMapRuns
  import opened PMapHistory

  /** Sets of different keys, each with a timestamp. */
  ghost predicate NewKeys(ops: seq<Op>)
  {
    && (forall i | 0 <= i < |ops| :: ops[i].Set? && |ops[i].value| >= 8)
    && forall i, j | 0 <= i < j < |ops| :: ops[i].key != ops[j].key
  }

  lemma NewKeysPrefix(ops: seq<Op>)
    requires NewKeys(ops) && ops != []
    ensures NewKeys(ops[..|ops| - 1])
  {}

  /** While all are accepted, each takes its bytes, its bucket and its place among the live keys. */
  ghost predicate Holds(s: PState, ops: seq<Op>)
  {
    && LogLen(s.log) == Volume(ops) && s.stored == |s.live| == |ops|
    && forall k | k in s.live :: exists i :: 0 <= i < |ops| && ops[i].key == k
  }

  lemma NewKeyIsAbsent(s: PState, ops: seq<Op>)
    requires NewKeys(ops) && ops != [] && Holds(s, ops[..|ops| - 1])
    ensures ops[|ops| - 1].key !in s.live
  {
    hide LogLen, Volume;
    var n := |ops| - 1;
    assert forall i | 0 <= i < n :: ops[..n][i] == ops[i];
  }

  /** A Set of an absent key. */
  lemma SetAbsent(c: Config, s: PState, k: Bytes, v: Bytes)
    requires k !in s.live && |v| >= 8
    ensures var r, g := Apply(c, s, Op.Set(k, v)), Grown(s);
      && (r.out.IndexFull? <==> !HasRoom(c, s))
      && (r.out.StoreFull? <==> HasRoom(c, s) && LogLen(s.log) + 12 + |k| + |v| >= c.size)
      && (!r.out.Refused() ==> r.s == Written(c, g, k, v))
  {
    hide LogLen, HasRoom, Written, Subtracted, Time, Value, Grown;
    GrownShape(s);
  }

  /** The next one is refused if and only if the index has no room or the store has no space. */
  lemma NextNewKey(c: Config, ops: seq<Op>)
    requires NewKeys(ops) && ops != [] && Holds(Run(c, ops[..|ops| - 1]), ops[..|ops| - 1])
    ensures var s, op := Run(c, ops[..|ops| - 1]), ops[|ops| - 1];
      && (Apply(c, s, op).out.IndexFull? <==> !HasRoom(c, s))
      && (Apply(c, s, op).out.StoreFull? <==> HasRoom(c, s) && Volume(ops) >= c.size)
      && (!Apply(c, s, op).out.Refused() ==> Holds(Run(c, ops), ops))
  {
    hide LogLen, HasRoom, Written, Grown, Apply;
    var n := |ops| - 1;
    var s, op := Run(c, ops[..n]), ops[n];
    NewKeyIsAbsent(s, ops);
    SetAbsent(c, s, op.key, op.value);
    GrownShape(s);
    GrownStored(s);
    WrittenHolds(c, Grown(s), op.key, op.value);
    HoldsNext(s, Written(c, Grown(s), op.key, op.value), ops);
  }

  lemma HoldsNext(s: PState, r: PState, ops: seq<Op>)
    requires ops != [] && ops[|ops| - 1].Set? && Holds(s, ops[..|ops| - 1])
    requires var op := ops[|ops| - 1];
      && LogLen(r.log) == LogLen(s.log) + 12 + |op.key| + |op.value|
      && r.live.Keys == s.live.Keys + {op.key} && r.stored == |r.live| == |s.live| + 1
    ensures Holds(r, ops)
  {
    hide LogLen;
    var n := |ops| - 1;
    forall k | k in r.live ensures exists i :: 0 <= i < |ops| && ops[i].key == k {
      if k == ops[n].key {
        assert ops[n].key == k;
      } else {
        var i :| 0 <= i < n && ops[..n][i].key == k;
        assert ops[i].key == k;
      }
    }
  }

  lemma GrownStored(s: PState)
    requires s.stored == |s.live|
    ensures Grown(s).stored == |s.live|
  {}

  lemma WrittenHolds(c: Config, g: PState, k: Bytes, v: Bytes)
    requires k !in g.live && g.stored == |g.live|
    ensures var r := Written(c, g, k, v);
      && LogLen(r.log) == LogLen(g.log) + 12 + |k| + |v|
      && r.live.Keys == g.live.Keys + {k} && r.stored == |r.live| == |g.live| + 1
  {
    hide Mix, LogLen;
    AppendRecord(g.log, Record(k, v));
    PutSize(g.live, k, |g.log|);
  }

  lemma {:induction false} AcceptedLength(c: Config, ops: seq<Op>)
    ensures |Accepted(c, ops)| <= |ops|
  {
    if ops != [] { AcceptedLength(c, ops[..|ops| - 1]); }
  }

  /** All accepted means all but the last and the last. */
  lemma AcceptedSplit(c: Config, ops: seq<Op>)
    requires ops != [] && !ops[|ops| - 1].Del?
    ensures Accepted(c, ops) == ops
       <==> Accepted(c, ops[..|ops| - 1]) == ops[..|ops| - 1] && !Apply(c, Run(c, ops[..|ops| - 1]), ops[|ops| - 1]).out.Refused()
  {
    hide Run, Apply;
    var init, op := ops[..|ops| - 1], ops[|ops| - 1];
    AcceptedLength(c, init);
    assert ops == init + [op];
    if Accepted(c, ops) == ops {
      assert Accepted(c, ops)[..|ops| - 1] == init;
    }
  }

  lemma {:induction false} AllHeld(c: Config, ops: seq<Op>)
    requires NewKeys(ops) && Accepted(c, ops) == ops
    ensures Holds(Run(c, ops), ops)
  {
    hide Apply;
    if ops == [] {
      EmptyLogLen([]);
    } else {
      NewKeysPrefix(ops);
      AcceptedSplit(c, ops);
      AllHeld(c, ops[..|ops| - 1]);
      NextNewKey(c, ops);
    }
  }

  /** With an ample index, Sets of different keys are all accepted if and only if their records take fewer bytes than the store has. */
  lemma {:induction false} StoreCapacity(c: Config, ops: seq<Op>)
    requires ValidConfig(c) && Ample(c) && NewKeys(ops)
    ensures Accepted(c, ops) == ops <==> ops == [] || Volume(ops) < c.size
  {
    hide Apply, ValidConfig, Ample, NewKeys, Holds, HasRoom, Volume, Run, Inv;
    if ops != [] && Accepted(c, ops) == ops {
      NewKeysPrefix(ops);
      IsSet(ops);
      AcceptedSplit(c, ops);
      AllHeld(c, ops[..|ops| - 1]);
      NextNewKey(c, ops);
      RunRefines(c, ops[..|ops| - 1]);
      assert HasRoom(c, Run(c, ops[..|ops| - 1])) by { InvHasRoom(c, Run(c, ops[..|ops| - 1])); }
    }
    if ops == [] || Volume(ops) < c.size {
      if ops != [] { NothingRefused(c, ops); }
    }
  }

  lemma InvHasRoom(c: Config, s: PState)
    requires Ample(c) && Inv(c, s)
    ensures HasRoom(c, s)
  {
    hide Ample, HasRoom;
    AmpleHasRoom(c, s);
  }

  lemma IsSet(ops: seq<Op>)
    requires NewKeys(ops) && ops != []
    ensures !ops[|ops| - 1].Del?
  {}

  /** The largest table within the limit has 2^n buckets. */
  ghost predicate Largest(c: Config, n: nat)
  {
    Pow2(n) <= c.limit < 2 * Pow2(n)
  }

  lemma MaxStoredMonotone(a: nat, b: nat)
    requires a <= b
    ensures MaxStored(a) <= MaxStored(b)
  {
    Pow2Monotone(a, b);
  }

  lemma WithinLargest(c: Config, n: nat, a: nat)
    requires Largest(c, n) && Pow2(a) <= c.limit
    ensures a <= n
  {
    if a > n { Pow2Monotone(n + 1, a); }
  }

  /** An index that holds fewer keys than its largest table may has room for one more. */
  lemma RoomBelow(c: Config, s: PState, n: nat)
    requires Largest(c, n) && Roomy(c, s)
    ensures HasRoom(c, s) <==> s.stored < MaxStored(s.log2) || s.log2 < n
    ensures s.log2 <= n && s.stored <= MaxStored(n)
    ensures s.stored < MaxStored(n) ==> HasRoom(c, s)
    ensures !HasRoom(c, s) ==> s.stored == MaxStored(n)
  {
    hide LogLen, MaxStored;
    WithinLargest(c, n, s.log2);
    MaxStoredMonotone(s.log2, n);
    if 2 * Pow2(s.log2) <= c.limit { WithinLargest(c, n, s.log2 + 1); }
    if s.log2 < n { Pow2Monotone(s.log2 + 1, n); }
  }

  /**
   In a store with space enough, Sets of different keys are all accepted if and only if they are no more than
   seven tenths, rounded down, of the largest power of two within the limit.
   */
  lemma {:induction false} IndexCapacity(c: Config, ops: seq<Op>, n: nat)
    requires ValidConfig(c) && NewKeys(ops) && Volume(ops) < c.size && Largest(c, n)
    ensures Accepted(c, ops) == ops <==> |ops| <= Pow2(n) * 7 / 10
  {
    hide Apply, ValidConfig, NewKeys, HasRoom, Run, Largest, Roomy, Points, GoodLog, InReplay, Counted, LogLen;
    if ops != [] {
      var init := ops[..|ops| - 1];
      NewKeysPrefix(ops);
      IsSet(ops);
      IndexCapacity(c, init, n);
      AcceptedSplit(c, ops);
      if Accepted(c, init) == init {
        AllHeld(c, init);
        NextNewKey(c, ops);
        RunRefines(c, init);
        RunRefines(c, ops);
        RoomBelow(c, Run(c, init), n);
        RoomBelow(c, Run(c, ops), n);
      }
    }
  }

  lemma {:induction false} MaxStoredStrict(a: nat, b: nat)
    requires a < b
    ensures MaxStored(a) < MaxStored(b)
    decreases b
  {
    hide MaxStored;
    MaxStoredGrows(b - 1);
    if a < b - 1 { MaxStoredStrict(a, b - 1); }
  }

  /** When that many keys are stored even a later write of one of them is refused, however much space the store has. */
  lemma FullRefusesUpdates(c: Config, ops: seq<Op>, n: nat, k: Bytes, v: Bytes)
    requires ValidConfig(c) && NewKeys(ops) && Volume(ops) < c.size && Largest(c, n) && |ops| == Pow2(n) * 7 / 10 && |v| >= 8
    ensures Apply(c, Run(c, ops), Op.Set(k, v)) == Result(Run(c, ops), IndexFull)
  {
    hide ValidConfig, NewKeys, Run, Largest, Roomy, Points, GoodLog, InReplay, Counted, LogLen, SetIn, HasRoom;
    IndexCapacity(c, ops, n);
    AllHeld(c, ops);
    RunRefines(c, ops);
    var s := Run(c, ops);
    RoomBelow(c, s, n);
    assert s.stored <= MaxStored(s.log2) by { RoomyStored(c, s); }
    if s.log2 < n { MaxStoredStrict(s.log2, n); }
  }

  lemma RoomyStored(c: Config, s: PState)
    requires Roomy(c, s)
    ensures s.stored <= MaxStored(s.log2)
  {}
}
