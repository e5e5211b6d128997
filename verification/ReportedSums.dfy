/** The checksum a PMap reports, against its pairs, and when two replicas report the same. */
module ReportedSums {
  import opened ByteStrings
  import opened RecordLog
  import opened Checksum
  import opened TimedMap
  import opened PMapSpec
  import opened PMapRuns
  import opened PMapHistory
  import opened PMapChecksum
  import opened Convergence
  import opened Restarts

  // The checksum events of a run.

  /** Takes the pair of k out of the sum, if there is one. */
  function Removal(c: Config, s: PState, k: Bytes, t: int): (es: seq<Event>)
  {
    if k in s.live then [Event(Neg(Mix(c.hash, k, Value(s, k))), t)] else []
  }

  function EventsOf(c: Config, s: PState, op: Op): (es: seq<Event>)
  {
    match op
    case Set(k, v) =>
      if EffectOf(c, s, op).Writes? then Removal(c, s, k, Time(v)) + [Event(Mix(c.hash, k, v), Time(v))] else []
    case Cas(k, v) =>
      if |v| >= 24 && HasRoom(c, s) && CasVerdict(c.hash, Contents(s), k, v).Ok?
      then Removal(c, s, k, Time(v[16..]))
           + if Fits(c, s, Record(k, v[16..])) then [Event(Mix(c.hash, k, v[16..]), Time(v[16..]))] else []
      else []
    case Del(k, v) => if EffectOf(c, s, op).Keeps? then [] else Removal(c, s, k, Time(v))
  }

  function Events(c: Config, ops: seq<Op>): (es: seq<Event>)
  {
    if ops == [] then []
    else Events(c, ops[..|ops| - 1]) + EventsOf(c, Run(c, ops[..|ops| - 1]), ops[|ops| - 1])
  }

  lemma AfterSnoc(es: seq<Event>, e: Event)
    ensures After(es + [e]) == AddEvent(After(es), e.el, e.t)
  {
    assert (es + [e])[..|es|] == es;
  }

  lemma AfterTwo(es: seq<Event>, a: seq<Event>, b: seq<Event>)
    requires |a| <= 1 && |b| <= 1
    ensures var u := if a == [] then After(es) else AddEvent(After(es), a[0].el, a[0].t);
      After(es + (a + b)) == if b == [] then u else AddEvent(u, b[0].el, b[0].t)
  {
    hide After, AddEvent;
    if a != [] { AfterSnoc(es, a[0]); }
    assert es + (a + b) == (es + a) + b;
    if a != [] { assert a == [a[0]]; } else { assert es + a == es; }
    if b != [] { AfterSnoc(es + a, b[0]); assert b == [b[0]]; } else { assert es + a + b == es + a; }
  }

  lemma StepEvents(c: Config, s: PState, op: Op, es: seq<Event>)
    requires s.sums == After(es)
    ensures Apply(c, s, op).s.sums == After(es + EventsOf(c, s, op))
  {
    hide After, AddEvent, Mix, Time, HasRoom, Contents, CasVerdict, LogLen, Neg, Value;
    GrownShape(s);
    GrownContents(s, op.key);
    assert es + [] == es;
    match op
    case Set(k, v) =>
      AfterTwo(es, Removal(c, s, k, Time(v)), [Event(Mix(c.hash, k, v), Time(v))]);
    case Cas(k, v) =>
      if |v| >= 24 {
        AfterTwo(es, Removal(c, s, k, Time(v[16..])),
                 if Fits(c, s, Record(k, v[16..])) then [Event(Mix(c.hash, k, v[16..]), Time(v[16..]))] else []);
      }
    case Del(k, v) =>
      AfterTwo(es, Removal(c, s, k, Time(v)), []);
      assert Removal(c, s, k, Time(v)) + [] == Removal(c, s, k, Time(v));
  }

  /** After every run the windows are those after its events. */
  lemma {:induction false} SumsAreEvents(c: Config, ops: seq<Op>)
    ensures Run(c, ops).sums == After(Events(c, ops))
  {
    if ops != [] {
      hide Apply, EventsOf;
      SumsAreEvents(c, ops[..|ops| - 1]);
      StepEvents(c, Run(c, ops[..|ops| - 1]), ops[|ops| - 1], Events(c, ops[..|ops| - 1]));
    }
  }

  // Runs of Sets.

  /** For each key the last write that took effect among those before time b. */
  function Settled(c: Config, ops: seq<Op>, b: int): (m: Dict)
  {
    if ops == [] then map[]
    else
      var init, op := ops[..|ops| - 1], ops[|ops| - 1];
      if op.Set? && EffectOf(c, Run(c, init), op).Writes? && Time(op.value) < b
      then Settled(c, init, b)[op.key := op.value] else Settled(c, init, b)
  }

  lemma SetWrites(c: Config, s: PState, op: Op)
    requires op.Set? && EffectOf(c, s, op).Writes?
    ensures EffectOf(c, s, op) == Writes(op.value)
    ensures op.key in Contents(s) ==> Time(Contents(s)[op.key]) < Time(op.value)
  {
    hide Time, HasRoom, Fits;
    ValueOf(s, op.key);
  }

  lemma SetKeepsOrWrites(c: Config, s: PState, op: Op)
    requires op.Set?
    ensures EffectOf(c, s, op).Keeps? || EffectOf(c, s, op).Writes?
  {}

  /** What is settled is stored or was overwritten later; what is stored from before b is settled. */
  lemma {:induction false} SettledTracks(c: Config, ops: seq<Op>, b: int)
    requires ValidConfig(c) && OnlySets(ops)
    ensures var m := Contents(Run(c, ops));
      && Settled(c, ops, b).Keys <= m.Keys
      && forall k | k in m && Time(m[k]) < b :: k in Settled(c, ops, b) && Settled(c, ops, b)[k] == m[k]
  {
    hide ValidConfig, Apply, EffectOf, Time, Contents, Inv;
    if ops == [] {
      EmptyInv(c);
    } else {
      var init, op := ops[..|ops| - 1], ops[|ops| - 1];
      var s := Run(c, init);
      SettledTracks(c, init, b);
      RunRefines(c, init);
      InvPoints(c, s);
      EffectContents(c, s, op);
      SetKeepsOrWrites(c, s, op);
      if EffectOf(c, s, op).Writes? { SetWrites(c, s, op); }
    }
  }

  /** The events before b add up to what is settled. */
  lemma {:induction false} SettledSum(c: Config, ops: seq<Op>, b: int)
    requires ValidConfig(c) && OnlySets(ops)
    ensures Cong(SumBefore(Events(c, ops), b), PairSum(c.hash, Settled(c, ops, b)))
  {
    hide ValidConfig, Apply, EffectOf, Time, Contents, Inv, Mix, Cong, PairSum, EventsOf;
    if ops == [] {
      NothingSettled(c.hash, b);
    } else {
      var init, op := ops[..|ops| - 1], ops[|ops| - 1];
      SettledSum(c, init, b);
      SettledTracks(c, init, b);
      SettledStep(c, Run(c, init), op, Events(c, init), Settled(c, init, b), b);
    }
  }

  lemma NothingSettled(hash: Hash, b: int)
    ensures Cong(SumBefore([], b), PairSum(hash, map[]))
  {
    assert Weights(hash, map[]) == map[];
  }

  lemma SettledStep(c: Config, s: PState, op: Op, es: seq<Event>, m: Dict, b: int)
    requires op.Set? && m.Keys <= Contents(s).Keys
    requires forall k | k in Contents(s) && Time(Contents(s)[k]) < b :: k in m && m[k] == Contents(s)[k]
    requires Cong(SumBefore(es, b), PairSum(c.hash, m))
    ensures var n := if EffectOf(c, s, op).Writes? && Time(op.value) < b then m[op.key := op.value] else m;
      Cong(SumBefore(es + EventsOf(c, s, op), b), PairSum(c.hash, n))
  {
    hide EffectOf, Time, Mix, Cong, PairSum, SumBefore, Value, Neg, Contents;
    var k, v, t := op.key, op.value, Time(op.value);
    ValueOf(s, k);
    if !EffectOf(c, s, op).Writes? {
      assert es + [] == es;
    } else {
      SetWrites(c, s, op);
      var a := Removal(c, s, k, t);
      var e := Event(Mix(c.hash, k, v), t);
      assert es + (a + [e]) == (es + a) + [e];
      SumBeforeSnoc(es + a, e, b);
      if k in s.live {
        SumBeforeSnoc(es, a[0], b);
        assert a == [a[0]];
      } else {
        assert es + a == es;
      }
      if t < b {
        PairSumPut(c.hash, m, k, v);
        if k in s.live {
          PairSumRemove(c.hash, m, k);
          Replaced(SumBefore(es, b), PairSum(c.hash, m), Mix(c.hash, k, m[k]), Mix(c.hash, k, v));
        } else {
          AbsentKey(m, k);
          CongShift(SumBefore(es, b), PairSum(c.hash, m), Mix(c.hash, k, v));
        }
      }
    }
  }

  lemma Replaced(n: int, p: int, x: u64, y: u64)
    requires Cong(n, p)
    ensures Cong(n + Neg(x) + y, p - x + y)
  {}

  /** Every event of a run of Sets has the time of one of its writes. */
  lemma {:induction false} EventTimes(c: Config, ops: seq<Op>)
    requires OnlySets(ops)
    ensures forall e | e in Events(c, ops) :: exists i :: 0 <= i < |ops| && |ops[i].value| >= 8 && e.t == Time(ops[i].value)
  {
    hide Time, Mix, Run;
    if ops != [] {
      var n := |ops| - 1;
      EventTimes(c, ops[..n]);
      assert forall i | 0 <= i < n :: ops[..n][i] == ops[i];
      forall e | e in EventsOf(c, Run(c, ops[..n]), ops[n]) ensures |ops[n].value| >= 8 && e.t == Time(ops[n].value) {}
    }
  }

  /** No write carries a time on a whole second. */
  ghost predicate OffSeconds(ops: seq<Op>)
  {
    forall i | 0 <= i < |ops| && |ops[i].value| >= 8 :: Time(ops[i].value) % SECOND != 0
  }

  /** The windows as `Checksum` leaves them when it is asked at time `now`; it returns `oldSum`. */
  function Asked(c: Config, ops: seq<Op>, now: int): (s: Sums)
  {
    AddEvent(Run(c, ops).sums, 0, now)
  }

  /** The checksum reported after a run of Sets is the sum over the pairs settled before its boundary. */
  lemma ReportIsSettled(c: Config, ops: seq<Op>, now: int)
    requires ValidConfig(c) && OnlySets(ops) && OffSeconds(ops) && now > ZERO_TIME
    ensures Asked(c, ops, now).oldSum == PairSum(c.hash, Settled(c, ops, Asked(c, ops, now).oldTime)) % TWO64
  {
    hide ValidConfig, Run, After, AddEvent, PairSum, Time, SumBefore, OffBoundary, Events, Settled;
    var es, read := Events(c, ops), Event(0, now);
    var b := Asked(c, ops, now).oldTime;
    SumsAreEvents(c, ops);
    AfterSnoc(es, read);
    RealAndOff(c, ops, now);
    NoWholeSecondIsOff(es + [read]);
    OldChecksumIsStable(es + [read]);
    SumBeforeSnoc(es, read, b);
    SettledSum(c, ops, b);
    ModOf(SumBefore(es, b), PairSum(c.hash, Settled(c, ops, b)));
  }

  lemma ModOf(n: int, p: int)
    requires Cong(n, p)
    ensures n % TWO64 == p % TWO64
  {}

  lemma RealAndOff(c: Config, ops: seq<Op>, now: int)
    requires OnlySets(ops) && OffSeconds(ops) && now > ZERO_TIME
    ensures RealTimes(Events(c, ops) + [Event(0, now)]) && NoWholeSecond(Events(c, ops) + [Event(0, now)])
  {
    hide Events, Time;
    EventTimes(c, ops);
    var es := Events(c, ops);
    forall e | e in es ensures e.t > ZERO_TIME && e.t % SECOND != 0 {
      var i :| 0 <= i < |ops| && |ops[i].value| >= 8 && e.t == Time(ops[i].value);
      RealTime(ops[i].value);
    }
  }

  lemma RealTime(v: Bytes)
    requires |v| >= 8
    ensures Time(v) > ZERO_TIME
  {
    U64Bound(v[..8]);
  }

  // When replicas agree.

  /** Every write from before b arrived before any write of the same key from b on. */
  ghost predicate InTime(ops: seq<Op>, b: int)
  {
    forall i, j | 0 <= i < j < |ops| && ops[i].key == ops[j].key && Time(ops[i].value) >= b :: Time(ops[j].value) >= b
  }

  /** The writes from before b. */
  function Earlier(ops: seq<Op>, b: int): (r: seq<Op>)
    ensures forall w :: w in r <==> w in ops && Time(w.value) < b
  {
    if ops == [] then []
    else
      var init, op := ops[..|ops| - 1], ops[|ops| - 1];
      assert ops == init + [op];
      if Time(op.value) < b then Earlier(init, b) + [op] else Earlier(init, b)
  }

  lemma AcceptedAll(c: Config, ops: seq<Op>)
    requires ops != [] && Accepted(c, ops) == ops && OnlySets(ops)
    ensures Accepted(c, ops[..|ops| - 1]) == ops[..|ops| - 1]
    ensures !Apply(c, Run(c, ops[..|ops| - 1]), ops[|ops| - 1]).out.Refused()
  {
    hide Apply, Run;
    var init, op := ops[..|ops| - 1], ops[|ops| - 1];
    AcceptedLen(c, init);
    if !(Apply(c, Run(c, init), op).out.Refused() && !op.Del?) {
      assert ops[..|ops| - 1] == (Accepted(c, init) + [op])[..|ops| - 1];
    }
  }

  lemma {:induction false} AcceptedLen(c: Config, ops: seq<Op>)
    ensures |Accepted(c, ops)| <= |ops|
  {
    hide Apply, Run;
    if ops != [] { AcceptedLen(c, ops[..|ops| - 1]); }
  }

  /** A Set that is not refused takes effect exactly as in the dictionary. */
  lemma SetEffective(c: Config, s: PState, op: Op)
    requires op.Set? && !Apply(c, s, op).out.Refused()
    ensures EffectOf(c, s, op).Writes?
       <==> |op.value| >= 8 && (op.key in Contents(s) ==> Time(Contents(s)[op.key]) < Time(op.value))
  {
    hide Time, HasRoom, LogLen, Written, Subtracted, Contents, Value;
    ValueOf(s, op.key);
    ValueOf(Grown(s), op.key);
    GrownShape(s);
    GrownContents(s, op.key);
  }

  /** In time, what is settled is the dictionary of the writes from before b. */
  lemma {:induction false} SettledInTime(c: Config, ops: seq<Op>, b: int)
    requires ValidConfig(c) && OnlySets(ops) && Accepted(c, ops) == ops && InTime(ops, b)
    ensures Settled(c, ops, b) == DictRun(c.hash, map[], Earlier(ops, b))
  {
    hide ValidConfig, Apply, EffectOf, Time, Contents, Accepted, DictRun;
    if ops == [] {
      DictRunNone(c.hash);
    } else {
      var init, op := ops[..|ops| - 1], ops[|ops| - 1];
      AcceptedAll(c, ops);
      SettledInTime(c, init, b);
      if Time(op.value) < b {
        SettledTracks(c, init, b);
        SetEffective(c, Run(c, init), op);
        StoredInTime(c, ops, b);
        DictRunSnoc(c.hash, Earlier(init, b), op);
      }
    }
  }

  lemma DictRunNone(hash: Hash)
    ensures DictRun(hash, map[], []) == map[]
  {}

  /** So far the key of a write from before b holds nothing from b on. */
  lemma StoredInTime(c: Config, ops: seq<Op>, b: int)
    requires ValidConfig(c) && OnlySets(ops) && ops != [] && InTime(ops, b) && Time(ops[|ops| - 1].value) < b
    requires Accepted(c, ops[..|ops| - 1]) == ops[..|ops| - 1]
    ensures var m, k := Contents(Run(c, ops[..|ops| - 1])), ops[|ops| - 1].key;
      k in m ==> Time(m[k]) < b
  {
    hide ValidConfig, Time, Contents, Accepted, DictRun, Run;
    var init, k := ops[..|ops| - 1], ops[|ops| - 1].key;
    RunRefines(c, init);
    SetsHoldLatest(c.hash, init);
    var m := Contents(Run(c, init));
    if k in m {
      var i :| 0 <= i < |init| && init[i] == Op.Set(k, m[k]);
      assert ops[i] == init[i];
    }
  }

  /**
   Two PMaps that accepted the same set of writes with distinct times, in any order and with any
   repetition, and that stand at the same boundary, report the same checksum, provided that on both every
   write from before the boundary arrived before any write of its key from the boundary on.
   */
  lemma ReportsAgree(c: Config, d: Config, ws: seq<Op>, us: seq<Op>, now: int, later: int)
    requires ValidConfig(c) && ValidConfig(d) && c.hash == d.hash && OnlySets(ws) && OnlySets(us)
    requires Accepted(c, ws) == ws && Accepted(d, us) == us && OffSeconds(ws) && now > ZERO_TIME && later > ZERO_TIME
    requires DistinctTimes(ws) && forall w :: w in ws <==> w in us
    requires Asked(c, ws, now).oldTime == Asked(d, us, later).oldTime
    requires InTime(ws, Asked(c, ws, now).oldTime) && InTime(us, Asked(c, ws, now).oldTime)
    ensures Asked(c, ws, now).oldSum == Asked(d, us, later).oldSum
  {
    hide ValidConfig, Asked, Accepted, Time, PairSum, DictRun, Settled, HoldsLatest;
    var b := Asked(c, ws, now).oldTime;
    assert OffSeconds(us) by {
      forall i | 0 <= i < |us| && |us[i].value| >= 8 ensures Time(us[i].value) % SECOND != 0 { assert us[i] in ws; }
    }
    ReportIsSettled(c, ws, now);
    ReportIsSettled(d, us, later);
    SettledInTime(c, ws, b);
    SettledInTime(d, us, b);
    EarlierSets(ws, b);
    EarlierSets(us, b);
    SetsHoldLatest(c.hash, Earlier(ws, b));
    SetsHoldLatest(c.hash, Earlier(us, b));
    LatestIsUnique(DictRun(c.hash, map[], Earlier(ws, b)), DictRun(c.hash, map[], Earlier(us, b)), Earlier(ws, b), Earlier(us, b));
  }

  lemma EarlierSets(ops: seq<Op>, b: int)
    requires OnlySets(ops)
    ensures OnlySets(Earlier(ops, b)) && (DistinctTimes(ops) ==> DistinctTimes(Earlier(ops, b)))
  {
    hide Time;
    var r := Earlier(ops, b);
    forall i | 0 <= i < |r| ensures r[i].Set? { assert r[i] in ops; }
  }

  /** Without that proviso: exactly when the pairs settled on the two sides add up to the same. */
  lemma ReportsAgreeIff(c: Config, d: Config, ws: seq<Op>, us: seq<Op>, now: int, later: int)
    requires ValidConfig(c) && ValidConfig(d) && c.hash == d.hash && OnlySets(ws) && OnlySets(us)
    requires OffSeconds(ws) && OffSeconds(us) && now > ZERO_TIME && later > ZERO_TIME
    ensures Asked(c, ws, now).oldSum == Asked(d, us, later).oldSum
       <==> Cong(PairSum(c.hash, Settled(c, ws, Asked(c, ws, now).oldTime)), PairSum(c.hash, Settled(d, us, Asked(d, us, later).oldTime)))
  {
    hide ValidConfig, Asked, PairSum, Settled, Cong;
    ReportIsSettled(c, ws, now);
    ReportIsSettled(d, us, later);
    CongIff(PairSum(c.hash, Settled(c, ws, Asked(c, ws, now).oldTime)), PairSum(c.hash, Settled(d, us, Asked(d, us, later).oldTime)));
  }

  lemma CongIff(p: int, q: int)
    ensures Cong(p, q) <==> p % TWO64 == q % TWO64
  {}
}
