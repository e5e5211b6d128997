/** The newest checksum of a PMap against the pairs it holds. */
module PMapChecksum {
  import opened ByteStrings
  import opened RecordLog
  import opened Checksum
  import opened TimedMap
  import opened MapSums
  import opened PMapSpec
  import opened PMapRuns
  import opened PMapHistory

  /** Congruence of 64-bit words. */
  ghost predicate Cong(x: int, y: int)
  {
    (x - y) % TWO64 == 0
  }

  lemma CongTrans(x: int, y: int, z: int)
    requires Cong(x, y) && Cong(y, z)
    ensures Cong(x, z)
  {}

  lemma CongShift(x: int, y: int, d: int)
    requires Cong(x, y)
    ensures Cong(x + d, y + d)
  {}

  lemma CongPlus(a: u64, el: u64)
    ensures Cong(Plus(a, el), a + el) && Cong(Plus(a, Neg(el)), a - el)
  {}

  lemma CongEqual(a: u64, y: int)
    ensures Cong(a, y) <==> a == y % TWO64
  {}

  ghost function Weights(hash: Hash, m: Dict): (w: map<Bytes, int>)
  {
    map k | k in m :: Mix(hash, k, m[k])
  }

  /** The sum, over the pairs of a dictionary, of key hash xor timestamp. */
  ghost function PairSum(hash: Hash, m: Dict): (n: int)
  {
    Total(Weights(hash, m))
  }

  lemma PairSumPut(hash: Hash, m: Dict, k: Bytes, v: Bytes)
    ensures PairSum(hash, m[k := v]) == PairSum(hash, m - {k}) + Mix(hash, k, v)
  {
    hide Mix, Total;
    TotalPut(Weights(hash, m), k, Mix(hash, k, v));
    assert Weights(hash, m[k := v]) == Weights(hash, m)[k := Mix(hash, k, v)];
    assert Weights(hash, m - {k}) == Weights(hash, m) - {k};
  }

  lemma PairSumRemove(hash: Hash, m: Dict, k: Bytes)
    requires k in m
    ensures PairSum(hash, m - {k}) == PairSum(hash, m) - Mix(hash, k, m[k])
  {
    hide Mix, Total;
    TotalRemove(Weights(hash, m), k);
    assert Weights(hash, m - {k}) == Weights(hash, m) - {k};
  }

  /** The newest checksum, plus an accumulated drift d, is the sum over the live pairs. */
  ghost predicate Agrees(c: Config, s: PState, d: int)
  {
    Cong(s.sums.newSum + d, PairSum(c.hash, Contents(s)))
  }

  lemma SubtractedAgrees(c: Config, s: PState, k: Bytes, t: int, d: int)
    requires Agrees(c, s, d) && k in s.live
    ensures Cong(Subtracted(c, s, k, t).sums.newSum + d, PairSum(c.hash, Contents(s) - {k}))
    ensures Cong(Subtracted(c, s, k, t).sums.newSum + d + Mix(c.hash, k, Value(s, k)), PairSum(c.hash, Contents(s)))
  {
    hide Mix, PairSum, AddEvent, Cong, Neg, Plus, Value, Contents;
    var el: int := Mix(c.hash, k, Value(s, k));
    var n := Subtracted(c, s, k, t).sums.newSum;
    ValueOf(s, k);
    PairSumRemove(c.hash, Contents(s), k);
    CongPlus(s.sums.newSum, el);
    CongShift(n, s.sums.newSum - el, d);
    CongShift(s.sums.newSum + d, PairSum(c.hash, Contents(s)), -el);
    CongTrans(n + d, s.sums.newSum + d - el, PairSum(c.hash, Contents(s)) - el);
    CongShift(n + d, PairSum(c.hash, Contents(s)) - el, el);
  }

  lemma WrittenAgrees(c: Config, s: PState, k: Bytes, v: Bytes, d: int)
    requires Points(s)
    requires Cong(s.sums.newSum + d, PairSum(c.hash, Contents(s) - {k}))
    ensures Agrees(c, Written(c, s, k, v), d)
  {
    hide Mix, PairSum, AddEvent, Cong, Neg, Plus, Contents, Points;
    var el := Mix(c.hash, k, v);
    var r := Written(c, s, k, v);
    ContentsWritten(c, s, k, v);
    PairSumPut(c.hash, Contents(s), k, v);
    CongPlus(s.sums.newSum, el);
    CongShift(r.sums.newSum, s.sums.newSum + el, d);
    CongShift(s.sums.newSum + d, PairSum(c.hash, Contents(s) - {k}), el);
    CongTrans(r.sums.newSum + d, s.sums.newSum + d + el, PairSum(c.hash, Contents(r)));
  }

  lemma AbsentKey(m: Dict, k: Bytes)
    ensures k !in m ==> m - {k} == m
  {}

  lemma SubtractedContents(c: Config, s: PState, k: Bytes, t: int)
    ensures Contents(Subtracted(c, s, k, t)) == Contents(s)
    ensures Points(s) ==> Points(Subtracted(c, s, k, t))
  {
    hide Mix, AddEvent;
  }

  /** Replacing or inserting a pair keeps the agreement. */
  lemma StoreAgrees(c: Config, s: PState, k: Bytes, v: Bytes, d: int)
    requires Points(s) && Agrees(c, s, d)
    ensures var b := if k in s.live then Subtracted(c, s, k, Time(v)) else s;
      Agrees(c, Written(c, b, k, v), d)
  {
    hide Mix, PairSum, AddEvent, Cong, Neg, Plus, Contents, Points, Subtracted, Written, Time;
    ValueOf(s, k);
    if k in s.live {
      SubtractedAgrees(c, s, k, Time(v), d);
      SubtractedContents(c, s, k, Time(v));
      WrittenAgrees(c, Subtracted(c, s, k, Time(v)), k, v, d);
    } else {
      AbsentKey(Contents(s), k);
      WrittenAgrees(c, s, k, v, d);
    }
  }

  /** What a step adds to the drift: the old pair, when a matching replacement is refused by a full store. */
  function StepDrift(c: Config, s: PState, op: Op): (d: nat)
  {
    if && op.Cas? && op.key in s.live && HasRoom(c, s)
       && CasVerdict(c.hash, Contents(s), op.key, op.value).Ok?
       && |op.value| >= 24 && !Fits(c, s, Record(op.key, op.value[16..]))
    then Mix(c.hash, op.key, Value(s, op.key)) else 0
  }

  lemma GrownAgrees(c: Config, s: PState, d: int)
    requires Agrees(c, s, d) && Points(s)
    ensures Agrees(c, Grown(s), d) && Points(Grown(s))
  {
    hide PairSum, Contents;
    GrownShape(s);
    GrownContents(s, []);
  }

  lemma DropAgrees(c: Config, s: PState, k: Bytes, t: int, d: int)
    requires Points(s) && Agrees(c, s, d) && k in s.live
    ensures Agrees(c, Dropped(c, s, k, t), d) && Points(Dropped(c, s, k, t))
    ensures Agrees(c, Buried(Dropped(c, s, k, t), k), d)
  {
    hide Mix, PairSum, AddEvent, Cong, Neg, Plus, Contents, Subtracted;
    var r := Dropped(c, s, k, t);
    SubtractedAgrees(c, s, k, t, d);
    SubtractedShape(c, s, k, t);
    ContentsDropped(c, s, k, t);
    BuriedContents(r, k);
  }

  lemma BuriedContents(s: PState, k: Bytes)
    requires Points(s)
    ensures Contents(Buried(s, k)) == Contents(s)
  {}

  lemma StepAgrees(c: Config, s: PState, op: Op, d: int)
    requires Points(s) && Agrees(c, s, d)
    ensures Agrees(c, Apply(c, s, op).s, d + StepDrift(c, s, op))
  {
    hide Mix, PairSum, AddEvent, Cong, Contents, Points, Subtracted, Written, Dropped, Time, Value, Grown, HasRoom, LogLen, CasVerdict, Buried, Agrees;
    var g := Grown(s);
    GrownAgrees(c, s, d);
    GrownShape(s);
    GrownContents(s, op.key);
    match op
    case Set(k, v) => StoreAgrees(c, g, k, v, d);
    case Cas(k, v) =>
      if |v| >= 24 {
        StoreAgrees(c, g, k, v[16..], d);
        SubtractedShape(c, g, k, Time(v[16..]));
        if k in g.live { CasDrift(c, g, k, Time(v[16..]), d); }
      }
    case Del(k, v) =>
      if k in s.live { DropAgrees(c, s, k, Time(v), d); DroppedShape(c, s, k, Time(v)); }
  }

  lemma CasDrift(c: Config, s: PState, k: Bytes, t: int, d: int)
    requires Agrees(c, s, d) && k in s.live
    ensures Agrees(c, Subtracted(c, s, k, t), d + Mix(c.hash, k, Value(s, k)))
  {
    hide Mix, PairSum, AddEvent, Cong, Contents, Subtracted, Value;
    SubtractedAgrees(c, s, k, t, d);
    SubtractedContents(c, s, k, t);
  }

  function Drift(c: Config, ops: seq<Op>): (d: nat)
  {
    if ops == [] then 0
    else Drift(c, ops[..|ops| - 1]) + StepDrift(c, Run(c, ops[..|ops| - 1]), ops[|ops| - 1])
  }

  lemma EmptyAgrees(c: Config)
    ensures Points(Empty(c)) && Agrees(c, Empty(c), 0)
  {
    assert Contents(Empty(c)) == map[];
    assert Weights(c.hash, map[]) == map[];
  }

  lemma InvPoints(c: Config, s: PState)
    requires Inv(c, s)
    ensures Points(s)
  {}

  lemma {:induction false} RunAgrees(c: Config, ops: seq<Op>)
    requires ValidConfig(c)
    ensures Agrees(c, Run(c, ops), Drift(c, ops))
  {
    hide ValidConfig, Agrees, Apply, StepDrift, Inv, Points, Empty;
    if ops == [] {
      EmptyAgrees(c);
    } else {
      var init := ops[..|ops| - 1];
      RunAgrees(c, init);
      RunRefines(c, init);
      InvPoints(c, Run(c, init));
      StepAgrees(c, Run(c, init), ops[|ops| - 1], Drift(c, init));
    }
  }

  /** After every run: the newest checksum is the sum over the live pairs, less the drift of refused swaps. */
  lemma ChecksumExact(c: Config, ops: seq<Op>)
    requires ValidConfig(c)
    ensures Run(c, ops).sums.newSum == (PairSum(c.hash, Contents(Run(c, ops))) - Drift(c, ops)) % TWO64
    ensures Run(c, ops).sums.newSum == PairSum(c.hash, Contents(Run(c, ops))) % TWO64
       <==> Drift(c, ops) % TWO64 == 0
  {
    hide ValidConfig, Run, Drift, PairSum, Contents;
    RunAgrees(c, ops);
    var p, d := PairSum(c.hash, Contents(Run(c, ops))), Drift(c, ops);
    DriftArith(Run(c, ops).sums.newSum, p, d);
  }

  lemma DriftArith(n: u64, p: int, d: nat)
    requires Cong(n + d, p)
    ensures n == (p - d) % TWO64
    ensures n == p % TWO64 <==> d % TWO64 == 0
  {}
}
