/** Whole runs of a PMap object, and of the file it leaves behind. */
module Serving {
  import opened ByteStrings
  import opened RecordLog
  import opened Checksum
  import opened LogStore
  import opened TimedMap
  import opened PMapSpec
  import opened PMapRuns
  import opened PMapHistory
  import opened PMapIndex
  import opened Recovery
  import opened Convergence
  import opened PMapChecksum
  import opened ReportedSums
  import opened Restarts
  import opened PMaps
  import opened GetAnswers

  /** A deletion carries a timestamp. */
  ghost predicate Stamped(ops: seq<Op>)
  {
    forall i | 0 <= i < |ops| && ops[i].Del? :: |ops[i].value| >= 8
  }

  method Perform(p: PMap, op: Op) returns (out: Outcome)
    requires p.Valid() && (op.Del? ==> |op.value| >= 8)
    modifies p.Repr()
    ensures p.Valid() && p.hm == old(p.hm) && p.st == old(p.st) && p.checksum == old(p.checksum)
    ensures p.st.file == old(p.st.file) && (p.hm.mem == old(p.hm.mem) || fresh(p.hm.mem))
    ensures Result(p.View(), out) == Apply(p.cfg, old(p.View()), op)
  {
    hide PMap.Valid, DoSet, DoCas, DoDel;
    match op
    case Set(k, v) => out := p.Set(p.hash(k), k, v);
    case Cas(k, v) => out := p.CAS(p.hash(k), k, v);
    case Del(k, v) => out := p.Del(p.hash(k), k, v);
  }

  /** A new PMap after a run of operations is in the state the specification says. */
  method PerformAll(hash: Hash, size: nat, initLog2: nat, limit: u32, ops: seq<Op>) returns (p: PMap)
    requires ValidConfig(Config(size, limit, initLog2, hash)) && Stamped(ops)
    ensures p.Valid() && fresh(p.Repr()) && p.hash == hash && p.cfg == Config(size, limit, initLog2, hash)
    ensures p.View() == Run(p.cfg, ops) && p.st.zeroed
  {
    hide PMap.Valid, Apply, Run, ValidConfig;
    p := PMap.New(hash, size, initLog2, limit);
    var i := 0;
    ghost var c := p.cfg;
    RunStart(c, ops);
    while i < |ops|
      invariant 0 <= i <= |ops| && p.Valid() && fresh(p.Repr()) && p.hash == hash && p.cfg == c
      invariant p.View() == Run(c, ops[..i]) && p.st.zeroed
    {
      RunSnoc(c, ops, i);
      var out := Perform(p, ops[i]);
      i := i + 1;
    }
    assert ops[..i] == ops;
  }

  lemma RunStart(c: Config, ops: seq<Op>)
    ensures Run(c, ops[..0]) == Empty(c)
  {}

  lemma RunSnoc(c: Config, ops: seq<Op>, i: nat)
    requires i < |ops|
    ensures Run(c, ops[..i + 1]) == Apply(c, Run(c, ops[..i]), ops[i]).s
  {
    hide Apply;
    assert ops[..i + 1][..i] == ops[..i];
  }

  /** Index refines map: Get answers as a plain dictionary fed with the accepted operations. */
  method Serve(hash: Hash, size: nat, initLog2: nat, limit: u32, ops: seq<Op>, key: Bytes) returns (r: Option<Bytes>)
    requires ValidConfig(Config(size, limit, initLog2, hash)) && Stamped(ops)
    ensures var c := Config(size, limit, initLog2, hash);
      GoodHash(c, key) ==> r == Lookup(DictRun(hash, map[], Accepted(c, ops)), key)
  {
    hide PMap.Valid, Run, ValidConfig, Accepted, DictRun, Contents;
    var p := PerformAll(hash, size, initLog2, limit, ops);
    r := p.Get(Low32(hash(key)), key);
    RunRefines(p.cfg, ops);
  }

  /** A pair whose key has a reserved hash is set and accepted, and then not found. */
  method ServeReserved(hash: Hash, size: nat, initLog2: nat, limit: u32, key: Bytes, value: Bytes) returns (r: Option<Bytes>)
    requires ValidConfig(Config(size, limit, initLog2, hash)) && Ample(Config(size, limit, initLog2, hash))
    requires |value| >= 8 && RecLen(Record(key, value)) < size && !GoodHash(Config(size, limit, initLog2, hash), key)
    ensures r == None
    ensures Lookup(Contents(Run(Config(size, limit, initLog2, hash), [Op.Set(key, value)])), key) == Some(value)
  {
    hide PMap.Valid, Run, ValidConfig, Contents, Ample, GetAllows, GoodHash;
    var p := PerformAll(hash, size, initLog2, limit, [Op.Set(key, value)]);
    r := p.Get(Low32(hash(key)), key);
    ReservedHashIsMissed(p.cfg, key, value);
  }

  /**
   Restart: the PMap is opened on nothing but the bytes of the file. Opening panics exactly when the
   specification says; otherwise Get answers from the pairs of the reopened state, which are those of
   before if and only if `RestartKeeps`.
   */
  method ServeAfterRestart(hash: Hash, size: nat, initLog2: nat, limit: u32, ops: seq<Op>, key: Bytes)
    returns (ok: bool, r: Option<Bytes>)
    requires ValidConfig(Config(size, limit, initLog2, hash)) && Stamped(ops) && Ample(Config(size, limit, initLog2, hash))
    ensures var c := Config(size, limit, initLog2, hash);
      && ok == Restart(c, Run(c, ops).log).Some?
      && (ok && GoodHash(c, key) ==> r == Lookup(Contents(Restart(c, Run(c, ops).log).value), key))
    ensures var c := Config(size, limit, initLog2, hash);
      RestartKeeps(c, Run(c, ops)) && GoodHash(c, key) ==> ok && r == Lookup(DictRun(hash, map[], Accepted(c, ops)), key)
  {
    hide PMap.Ready, Inv, Run, ValidConfig, Accepted, DictRun, Contents, Ample, LogLen, Stores, GoodLog, Reopened, LiveBytes, ZeroFrom,
         Stop;
    var p := PerformAll(hash, size, initLog2, limit, ops);
    var image := p.st.file[..];
    ghost var c, log := p.cfg, p.st.log;
    p.st.Facts();
    p.ReadyStores();
    InvLog(c, p.View());
    RunRefines(c, ops);
    var q := PMap.Open(hash, image, initLog2, limit, log);
    ok, r := q != null, None;
    if q != null {
      r := q.Get(Low32(hash(key)), key);
    }
  }

  /** A PMap that was fed Sets and is asked for its checksum reports the sum over the settled pairs. */
  method Report(hash: Hash, size: nat, initLog2: nat, limit: u32, ops: seq<Op>, now: int) returns (sum: u64)
    requires ValidConfig(Config(size, limit, initLog2, hash)) && OnlySets(ops) && OffSeconds(ops) && now > ZERO_TIME
    ensures var c := Config(size, limit, initLog2, hash);
      sum == Asked(c, ops, now).oldSum == PairSum(hash, Settled(c, ops, Asked(c, ops, now).oldTime)) % TWO64
  {
    hide PMap.Valid, Run, ValidConfig, AddEvent, Settled, PairSum, OffSeconds;
    var p := PerformAll(hash, size, initLog2, limit, ops);
    sum := p.Checksum(now);
    ReportIsSettled(p.cfg, ops, now);
  }
}
