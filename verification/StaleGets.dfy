/** A run after which Get answers a deleted value, and iteration shows it. */
module StaleGets {
  import opened ByteStrings
  import opened RecordLog
  import opened LogStore
  import opened TimedMap
  import opened PMapSpec
  import opened PMapRuns
  import opened PMapHistory
  import opened ProbeTable
  import opened PMapIndex
  import opened Defrag
  import opened DefragLimits
  import opened PeekBytes
  import opened GetAnswers
  import opened Iteration
  import opened PMaps

  /** Setting a key that is not there, below the load limit of the table and within the store. */
  lemma SetFresh(c: Config, s: PState, k: Bytes, v: Bytes)
    requires k !in s.live && |v| >= 8 && s.stored < MaxStored(s.log2) && Fits(c, s, Record(k, v))
    ensures DoSet(c, s, k, v).out == Ok
    ensures var r := DoSet(c, s, k, v).s;
      && r.log == s.log + [Record(k, v)] && r.live == s.live[k := |s.log|] && r.log2 == s.log2 && r.stored == s.stored + 1
      && LogLen(r.log) == LogLen(s.log) + RecLen(Record(k, v))
  {
    hide Mix, Time, LogLen, MaxStored;
    AppendRecord(s.log, Record(k, v));
  }

  /** One such Set of the object, whose home bucket is empty: the key gets that bucket. */
  method SetAtHome(p: PMap, key: Bytes, value: Bytes)
    requires p.Valid() && key !in p.live && |value| >= 8 && p.View().stored < MaxStored(p.View().log2)
    requires Fits(p.cfg, p.View(), Record(key, value))
    requires |p.hm.hs| > 0 && p.hm.hs[KeyHash(p.hash, key) % |p.hm.hs|] == EMPTY_BUCKET
    modifies p.Repr()
    ensures p.Valid() && p.hm == old(p.hm) && p.st == old(p.st) && p.checksum == old(p.checksum) && p.st.file == old(p.st.file)
    ensures p.hm.mem == old(p.hm.mem) || fresh(p.hm.mem)
    ensures p.View() == Apply(p.cfg, old(p.View()), Op.Set(key, value)).s
    ensures var i := KeyHash(p.hash, key) % |old(p.hm.hs)|;
      && |old(p.rec)| == |old(p.hm.hs)| && p.hm.hs == old(p.hm.hs)[i := KeyHash(p.hash, key)]
      && p.rec == old(p.rec)[i := |old(p.st.log)|] && p.pos == old(p.pos)[key := i]
  {
    hide PMap.Ready, Inv, Store.Valid, MaxStored, Fits, PlacedAt, KeyHash, DoSet;
    p.LoadLimit();
    SetFresh(p.cfg, p.View(), key, value);
    ghost var q := p.At();
    var out := p.Set(p.hash(key), key, value);
    PlacedAtHome(q, p.At(), KeyHash(p.hash, key), key, |old(p.st.log)|);
    PlacedIs(q, p.At(), KeyHash(p.hash, key) % |q.hs|, KeyHash(p.hash, key), key, |old(p.st.log)|);
  }

  ghost predicate Scene(c: Config, x: Bytes, u: Bytes, y: Bytes, w: Bytes, k: Bytes, v: Bytes)
  {
    && ValidConfig(c) && c.initLog2 >= 3 && |u| >= 8 && |w| >= 8 && |v| >= 8
    && KeyHash(c.hash, x) % Pow2(c.initLog2) == 1 && KeyHash(c.hash, y) % Pow2(c.initLog2) == 2 && c.hash(k) % TWO32 == 1
    && 54 + |x| + |u| + |y| + |w| + 2 * |k| + |v| < c.size
  }

  function Ops(x: Bytes, u: Bytes, y: Bytes, w: Bytes, k: Bytes, v: Bytes): (ops: seq<Op>)
  {
    [Op.Set(x, u), Op.Set(y, w), Op.Set(k, v), Op.Del(k, v)]
  }

  lemma SmallMod(n: nat)
    requires n >= 8
    ensures 3 % n == 3 && 1 % n == 1
  {}

  lemma HashOne(hash: Hash, k: Bytes)
    requires hash(k) % TWO32 == 1
    ensures KeyHash(hash, k) == 3
  {
  }

  /** The first four buckets of a table with at least eight. */
  lemma Homes(c: Config, x: Bytes, u: Bytes, y: Bytes, w: Bytes, k: Bytes, v: Bytes)
    requires Scene(c, x, u, y, w, k, v)
    ensures Pow2(c.initLog2) >= 8 && KeyHash(c.hash, k) == 3 && KeyHash(c.hash, k) % Pow2(c.initLog2) == 3
    ensures x != y && x != k && y != k
  {
    hide Low32, KeyHash, ValidConfig;
    assert Pow2(c.initLog2) >= 8 by { Pow2Monotone(3, c.initLog2); assert Pow2(3) == 8; }
    hide Pow2;
    SmallMod(Pow2(c.initLog2));
    HashOne(c.hash, k);
  }

  lemma Loads(c: Config)
    requires Pow2(c.initLog2) >= 8
    ensures MaxStored(c.initLog2) >= 5
  {
    hide Pow2;
  }

  /** What is known of the state after n of the operations. */
  ghost predicate Reached(c: Config, s: PState, log: seq<Record>, live: map<Bytes, nat>, stored: nat)
  {
    s.log == log && s.live == live && s.stored == stored && s.log2 == c.initLog2
  }

  /** One Set on the way. */
  lemma ReachNext(c: Config, ops: seq<Op>, k: Bytes, v: Bytes, log: seq<Record>, live: map<Bytes, nat>, n: nat)
    requires Reached(c, Run(c, ops), log, live, n) && k !in live && |v| >= 8 && n < MaxStored(c.initLog2)
    requires LogLen(log) + RecLen(Record(k, v)) < c.size
    ensures Run(c, ops + [Op.Set(k, v)]) == Apply(c, Run(c, ops), Op.Set(k, v)).s
    ensures Reached(c, Run(c, ops + [Op.Set(k, v)]), log + [Record(k, v)], live[k := |log|], n + 1)
    ensures LogLen(log + [Record(k, v)]) == LogLen(log) + RecLen(Record(k, v)) && Fits(c, Run(c, ops), Record(k, v))
  {
    hide Run, Apply, LogLen, MaxStored;
    RunSnoc(c, ops, Op.Set(k, v));
    ApplySet(c, Run(c, ops), k, v);
  }

  lemma ReachStart(c: Config)
    ensures Reached(c, Run(c, []), [], map[], 0) && LogLen([]) == 0 && Run(c, []) == Empty(c)
  {}

  lemma ApplySet(c: Config, s: PState, k: Bytes, v: Bytes)
    requires k !in s.live && |v| >= 8 && s.stored < MaxStored(s.log2) && Fits(c, s, Record(k, v))
    ensures var r := Apply(c, s, Op.Set(k, v)).s;
      && r.log == s.log + [Record(k, v)] && r.live == s.live[k := |s.log|] && r.log2 == s.log2 && r.stored == s.stored + 1
      && LogLen(r.log) == LogLen(s.log) + RecLen(Record(k, v))
  {
    hide DoSet, LogLen, MaxStored;
    SetFresh(c, s, k, v);
  }

  /** The first two Sets, on the object: the keys get the buckets 1 and 2. */
  method FirstTwo(hash: Hash, size: nat, initLog2: nat, limit: u32,
                  x: Bytes, u: Bytes, y: Bytes, w: Bytes, ghost k: Bytes, ghost v: Bytes) returns (p: PMap)
    requires Scene(Config(size, limit, initLog2, hash), x, u, y, w, k, v)
    ensures p.Valid() && fresh(p.Repr()) && p.cfg == Config(size, limit, initLog2, hash) && p.hash == hash && p.st.zeroed
    ensures p.View() == Run(p.cfg, [Op.Set(x, u), Op.Set(y, w)])
    ensures Reached(p.cfg, p.View(), [Record(x, u), Record(y, w)], map[x := 0, y := 1], 2)
    ensures LogLen(p.st.log) == 24 + |x| + |u| + |y| + |w|
    ensures |p.hm.hs| == Pow2(initLog2) >= 8 && p.hm.hs[1] >= 2 && p.hm.hs[2] >= 2 && p.hm.hs[3] == EMPTY_BUCKET
  {
    hide PMap.Valid, Apply, Run, Pow2, KeyHash, MaxStored, Fits, LogLen, Low32, ValidConfig;
    ghost var c := Config(size, limit, initLog2, hash);
    ghost var a, b := Op.Set(x, u), Op.Set(y, w);
    Homes(c, x, u, y, w, k, v);
    Loads(c);
    assert [] + [a] == [a] && [a] + [b] == [a, b];
    ReachStart(c);
    ReachNext(c, [], x, u, [], map[], 0);
    ReachNext(c, [a], y, w, [Record(x, u)], map[x := 0], 1);
    p := PMap.New(hash, size, initLog2, limit);
    EmptyTable(p);
    SetAtHome(p, x, u);
    SetAtHome(p, y, w);
  }

  /** The third: its key gets the bucket 3. */
  method Occupy(hash: Hash, size: nat, initLog2: nat, limit: u32,
                x: Bytes, u: Bytes, y: Bytes, w: Bytes, k: Bytes, v: Bytes) returns (p: PMap)
    requires Scene(Config(size, limit, initLog2, hash), x, u, y, w, k, v)
    ensures p.Valid() && fresh(p.Repr()) && p.cfg == Config(size, limit, initLog2, hash) && p.hash == hash && p.st.zeroed
    ensures p.View() == Run(p.cfg, [Op.Set(x, u), Op.Set(y, w), Op.Set(k, v)])
    ensures Reached(p.cfg, p.View(), [Record(x, u), Record(y, w), Record(k, v)], map[x := 0, y := 1, k := 2], 3)
    ensures LogLen(p.st.log) == 36 + |x| + |u| + |y| + |w| + |k| + |v|
    ensures |p.hm.hs| == |p.rec| >= 8 && p.hm.hs[1] >= 2 && p.hm.hs[2] >= 2 && p.hm.hs[3] == 3 && p.rec[3] == 2
    ensures k in p.pos && p.pos[k] == 3
  {
    hide PMap.Valid, Apply, Run, Pow2, KeyHash, MaxStored, Fits, LogLen, Low32, ValidConfig;
    ghost var c := Config(size, limit, initLog2, hash);
    ghost var a, b, d := Op.Set(x, u), Op.Set(y, w), Op.Set(k, v);
    Homes(c, x, u, y, w, k, v);
    Loads(c);
    assert [a, b] + [d] == [a, b, d];
    p := FirstTwo(hash, size, initLog2, limit, x, u, y, w, k, v);
    ReachNext(c, [a, b], k, v, [Record(x, u), Record(y, w)], map[x := 0, y := 1], 2);
    SetAtHome(p, k, v);
  }

  /**
   The buckets before it are taken by two other keys, the pair of a key with hash 1 is set and deleted: Get
   probes from bucket 1 on, finds the deleted bucket of the key and answers the deleted value; and iteration
   shows its record, though the key is not there.
   */
  method StaleAnswer(hash: Hash, size: nat, initLog2: nat, limit: u32,
                     x: Bytes, u: Bytes, y: Bytes, w: Bytes, k: Bytes, v: Bytes) returns (r: Option<Bytes>, visited: seq<Record>)
    requires Scene(Config(size, limit, initLog2, hash), x, u, y, w, k, v)
    ensures r == Some(v) && Record(k, v) in visited
    ensures k !in Contents(Run(Config(size, limit, initLog2, hash), Ops(x, u, y, w, k, v)))
  {
    hide PMap.Valid, Apply, Run, Pow2, KeyHash, LogLen, Low32, ValidConfig, DoDel;
    ghost var c := Config(size, limit, initLog2, hash);
    var p := Occupy(hash, size, initLog2, limit, x, u, y, w, k, v);
    Bury(c, [Op.Set(x, u), Op.Set(y, w), Op.Set(k, v)], k, v);
    assert [Op.Set(x, u), Op.Set(y, w), Op.Set(k, v)] + [Op.Del(k, v)] == Ops(x, u, y, w, k, v);
    var out := p.Del(hash(k), k, v);
    ValueOf(p.View(), k);
    r, visited := Look(p, k, v);
  }

  /** Get and iteration, once the deleted bucket stands behind two that are taken. */
  method Look(p: PMap, k: Bytes, v: Bytes) returns (r: Option<Bytes>, visited: seq<Record>)
    requires p.Valid() && p.st.zeroed && LogLen(p.st.log) + 4 <= p.cfg.size && p.hash(k) % TWO32 == 1
    requires |p.st.log| == 4 && p.st.log[2] == Record(k, v) && |v| >= 8
    requires |p.hm.hs| == |p.rec| >= 8 && p.hm.hs[1] >= 2 && p.hm.hs[2] >= 2 && p.hm.hs[3] == DELETED_BUCKET && p.rec[3] == 2
    ensures r == Some(v) && Record(k, v) in visited
  {
    hide PMap.Valid, LogLen, PMap.Heard, Pointers, AnswerIn, HitAt, Visited, PMap.CanTestLast, Cut, GetAllows, Present;
    assert Pointers(p.At(), p.st.log) by { ValidIsPointing(p); }
    HitThird(p.At(), p.st.log, k);
    HitIsAnswer(p.At(), p.st.log, 1, k, 3);
    r := p.Get(Low32(p.hash(k)), k);
    assert p.CanTestLast() by { RoomToTest(p); }
    visited := p.Iterate((_, _) => true);
    ShownRecord(p, k, v);
    ghost var s := p.View();
    CutNothing((_, _) => true, Visited(s, p.Heard(), |s.log|));
    VisitedIs(s, p.Heard(), |s.log|, Record(k, v));
  }

  /** The deletion: its tombstone fits. */
  lemma Bury(c: Config, ops: seq<Op>, k: Bytes, v: Bytes)
    requires var s := Run(c, ops); k in s.live && Value(s, k) == v && LogLen(s.log) + 12 + |k| < c.size
    ensures var s, r := Run(c, ops), Run(c, ops + [Op.Del(k, v)]);
      && r == DoDel(c, s, k, v).s && r.live == s.live - {k} && r.log == s.log + [Record(k, [])]
      && LogLen(r.log) == LogLen(s.log) + 12 + |k|
  {
    hide Run, LogLen, Time, Value, Mix;
    RunSnoc(c, ops, Op.Del(k, v));
    StepEffect(c, Run(c, ops), Op.Del(k, v));
    AppendRecord(Run(c, ops).log, Record(k, []));
  }

  lemma PlacedIs(p: Place, q: Place, i: nat, h: u32, k: Bytes, n: nat)
    requires PlacedAt(p, q, i, h, k, n)
    ensures i < |p.hs| == |p.rec| && q.hs == p.hs[i := h] && q.rec == p.rec[i := n] && q.pos == p.pos[k := i]
  {
    hide NoGap;
  }

  lemma ValidIsPointing(p: PMap)
    requires p.Valid()
    ensures Pointers(p.At(), p.st.log)
  {
    hide PMap.Ready, Inv, Store.Valid, Pointers;
    p.ReadyPointers();
  }

  lemma EmptyTable(p: PMap)
    requires p.Valid() && p.View() == Empty(p.cfg)
    ensures |p.hm.hs| == Pow2(p.cfg.initLog2) && forall i | 0 <= i < |p.hm.hs| :: p.hm.hs[i] == EMPTY_BUCKET
  {
    hide Pow2, Inv, Stores, Indexes, Store.Valid, HashMap.Mirrors, Reachable;
    forall i | 0 <= i < |p.hm.hs| ensures p.hm.hs[i] == EMPTY_BUCKET {
      NoneUsed(p.hm.hs, i);
    }
  }

  lemma {:induction false} NoneUsed(hs: seq<u32>, i: nat)
    requires Used(hs) == 0 && i < |hs|
    ensures hs[i] == EMPTY_BUCKET
    decreases |hs|
  {
    if i < |hs| - 1 { NoneUsed(hs[..|hs| - 1], i); }
  }

  lemma HitThird(p: Place, log: seq<Record>, k: Bytes)
    requires Pointers(p, log) && |p.hs| >= 8 && p.hs[1] >= 2 && p.hs[2] >= 2 && p.hs[3] == DELETED_BUCKET
    requires |p.rec| > 3 && p.rec[3] < |log| && log[p.rec[3]].key == k
    ensures HitAt(p, log, 1, k, 3)
  {
    hide Offset;
    assert 1 % |p.hs| == 1;
    forall j | 0 <= j < |p.hs| && Dist(1, j, |p.hs|) < Dist(1, 3, |p.hs|)
      ensures p.hs[j] != EMPTY_BUCKET && !IsMatch(p, log, 1, k, j)
    {
      assert j == 1 || j == 2;
    }
  }

  lemma RoomToTest(p: PMap)
    requires p.Valid() && p.st.zeroed && LogLen(p.st.log) + 4 <= p.cfg.size
    ensures p.CanTestLast()
  {
    hide PMap.Ready, Inv, LogLen, Low32, Stores, KeyLenIn;
    p.ReadyStores();
    p.st.Facts();
    ZeroWord(p.st.file[..], LogLen(p.st.log));
  }

  lemma ShownRecord(p: PMap, k: Bytes, v: Bytes)
    requires p.Valid() && Pointers(p.At(), p.st.log) && |p.st.log| == 4 && p.st.log[2] == Record(k, v) && |v| >= 8
    requires p.Answer(k) == Some(v)
    ensures Present(p.View(), p.Heard(), 2)
  {
    hide PMap.Valid, PMap.Answer, Pointers, Stamp;
    KeyInLog(p.st.log, 2);
    PeekValue(p.st.log, 2);
  }
}
