/** What Get may answer, and for which keys that is always the live value. */
module GetAnswers {
  import opened ByteStrings
  import opened RecordLog
  import opened TimedMap
  import opened PMapSpec
  import opened PMapRuns
  import opened PMapHistory

  /** The low half of the hash is not one of the two reserved bucket marks. */
  predicate GoodHash(c: Config, k: Bytes)
  {
    c.hash(k) % TWO32 >= 2
  }

  ghost predicate GoodKeysIn(c: Config, log: seq<Record>)
  {
    forall i | 0 <= i < |log| :: GoodHash(c, log[i].key)
  }

  /**
   The answers Get may give. Set, CAS and Del remap the hashes 0 and 1 and Get does not: with hash 0 it
   stops at once, and with hash 1 it compares the key with those of deleted buckets.
   */
  ghost predicate GetAllows(c: Config, s: PState, k: Bytes, r: Option<Bytes>)
  {
    && (GoodHash(c, k) ==> r == Lookup(Contents(s), k))
    && (c.hash(k) % TWO32 == 0 ==> r == None)
    && (c.hash(k) % TWO32 == 1 && s.stored == |s.live| ==> r == None)
    && (r.Some? ==> Record(k, r.value) in s.log && |r.value| >= 8)
  }

  /** `a` holds what Get answers for the keys of the log, all asked in the same state. */
  ghost predicate Answers(c: Config, s: PState, a: Dict)
  {
    forall i | 0 <= i < |s.log| :: GetAllows(c, s, s.log[i].key, Lookup(a, s.log[i].key))
  }

  /** Get is right about every key of the log. */
  ghost predicate Right(s: PState, a: Dict)
  {
    forall i | 0 <= i < |s.log| :: Lookup(a, s.log[i].key) == Lookup(Contents(s), s.log[i].key)
  }

  ghost predicate LiveAreGood(c: Config, s: PState)
  {
    forall k | k in s.live :: GoodHash(c, k)
  }

  /** No key of the log has the low hash half 1, for which Get meets deleted buckets. */
  ghost predicate NoHashOne(c: Config, log: seq<Record>)
  {
    forall i | 0 <= i < |log| :: c.hash(log[i].key) % TWO32 != 1
  }

  lemma GoodIsRight(c: Config, s: PState, a: Dict)
    requires Answers(c, s, a) && GoodKeysIn(c, s.log)
    ensures Right(s, a)
  {
    hide Contents;
  }

  /** Without a hash of 1: Get is right about every key of the log if and only if no live key has hash 0. */
  lemma RightIff(c: Config, s: PState, a: Dict)
    requires Points(s) && Answers(c, s, a) && NoHashOne(c, s.log)
    ensures Right(s, a) <==> LiveAreGood(c, s)
  {
    hide Contents;
    forall k | k in s.live ensures k in Contents(s) && s.log[s.live[k]].key == k { ValueOf(s, k); }
    forall i | 0 <= i < |s.log| && s.log[i].key !in s.live ensures s.log[i].key !in Contents(s) { ValueOf(s, s.log[i].key); }
  }

  /** Whatever Get answers is the live value. */
  ghost predicate SurelyRight(c: Config, s: PState, k: Bytes)
  {
    forall r | GetAllows(c, s, k, r) :: r == Lookup(Contents(s), k)
  }

  /** Whatever Get answers is not the live value. */
  ghost predicate SurelyWrong(c: Config, s: PState, k: Bytes)
  {
    forall r | GetAllows(c, s, k, r) :: r != Lookup(Contents(s), k)
  }

  /** After one Set of a key with a reserved hash the pair is there, and Get can only answer that it is not. */
  lemma ReservedHashIsMissed(c: Config, k: Bytes, v: Bytes)
    requires ValidConfig(c) && Ample(c) && |v| >= 8 && RecLen(Record(k, v)) < c.size && !GoodHash(c, k)
    ensures Lookup(Contents(Run(c, [Op.Set(k, v)])), k) == Some(v)
    ensures forall r | GetAllows(c, Run(c, [Op.Set(k, v)]), k, r) :: r == None
  {
    hide ValidConfig, Ample, Contents, Written, Grown;
    var ops := [Op.Set(k, v)];
    assert ops[..0] == [];
    assert Volume(ops) == Cost(ops[0]);
    RunIsDictionary(c, ops);
    assert DictRun(c.hash, map[], ops) == map[k := v];
    FirstSet(c, k, v);
  }

  lemma FirstSet(c: Config, k: Bytes, v: Bytes)
    requires ValidConfig(c) && Ample(c) && |v| >= 8 && RecLen(Record(k, v)) < c.size
    ensures Run(c, [Op.Set(k, v)]).stored == 1 && |Run(c, [Op.Set(k, v)]).live| == 1
  {
    hide Mix, Ample, Inv, LogLen;
    var ops := [Op.Set(k, v)];
    assert ops[..0] == [];
    EmptyInv(c);
    EmptyLogLen([]);
    assert Roomy(c, Empty(c)) by { EmptyRoomy(c); }
    AmpleHasRoom(c, Empty(c));
    PutSize(Empty(c).live, k, 0);
  }

  lemma EmptyRoomy(c: Config)
    requires ValidConfig(c)
    ensures Roomy(c, Empty(c))
  {}

  /** Get has something to answer: the live value is an allowed answer for an ordinary hash. */
  lemma LiveIsAllowed(c: Config, ops: seq<Op>, k: Bytes)
    requires ValidConfig(c) && GoodHash(c, k)
    ensures GetAllows(c, Run(c, ops), k, Lookup(Contents(Run(c, ops)), k))
  {
    hide ValidConfig, GoodLog, InReplay, Roomy, Counted, Run, Accepted, DictRun;
    RunRefines(c, ops);
    ValueOf(Run(c, ops), k);
  }

  /**
   Get is right about a key in every reachable state if and only if the low half of its hash is at
   least 2; otherwise there is a reachable state in which every answer it may give is wrong.
   */
  lemma GetIsRightIff(c: Config, k: Bytes, v: Bytes)
    requires ValidConfig(c) && Ample(c) && |v| >= 8 && RecLen(Record(k, v)) < c.size
    ensures (forall ops :: SurelyRight(c, Run(c, ops), k)) <==> GoodHash(c, k)
    ensures (exists ops :: SurelyWrong(c, Run(c, ops), k)) <==> !GoodHash(c, k)
  {
    hide ValidConfig, Ample, Contents, Run;
    if GoodHash(c, k) {
      forall ops ensures !SurelyWrong(c, Run(c, ops), k) { LiveIsAllowed(c, ops, k); }
    } else {
      ReservedHashIsMissed(c, k, v);
      var s := Run(c, [Op.Set(k, v)]);
      assert SurelyWrong(c, s, k);
      assert GetAllows(c, s, k, None) by { MissIsAllowed(c, k, v); }
      assert !SurelyRight(c, s, k);
    }
  }

  lemma MissIsAllowed(c: Config, k: Bytes, v: Bytes)
    requires !GoodHash(c, k)
    ensures GetAllows(c, Run(c, [Op.Set(k, v)]), k, None)
  {
    hide Run;
  }
}
