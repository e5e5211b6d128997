/** A replica that has been quiet reports the sum over all its pairs. */
module QuietReports {
  import opened ByteStrings
  import opened Checksum
  import opened TimedMap
  import opened PMapSpec
  import opened PMapRuns
  import opened PMapChecksum
  import opened ReportedSums
  import opened Convergence
  import opened Windows
  import opened Serving
  import opened PMaps

  /** No operation carries a time after b. */
  ghost predicate UpTo(ops: seq<Op>, b: int)
  {
    forall i | 0 <= i < |ops| ::
      if ops[i].Cas? then |ops[i].value| >= 24 ==> Time(ops[i].value[16..]) <= b else Time(ops[i].value) <= b
  }

  lemma {:induction false} EventsUpTo(c: Config, ops: seq<Op>, b: int)
    requires UpTo(ops, b)
    ensures forall i | 0 <= i < |Events(c, ops)| :: Events(c, ops)[i].t <= b
  {
    hide Time, Mix, Run, Neg;
    if ops != [] {
      var n := |ops| - 1;
      EventsUpTo(c, ops[..n], b);
      forall e | e in EventsOf(c, Run(c, ops[..n]), ops[n]) ensures e.t <= b {}
    }
  }

  /** The windows after two reports at times p and q. */
  function AskedTwice(c: Config, ops: seq<Op>, p: int, q: int): (s: Sums)
  {
    AddEvent(Asked(c, ops, p), 0, q)
  }

  /**
   After any run, once all its times are more than a second old, the second of two reports more than a second
   apart is the sum over all pairs, less the drift of refused swaps: right if and only if that drift is 0.
   */
  lemma QuietReport(c: Config, ops: seq<Op>, b: int, p: int, q: int)
    requires ValidConfig(c) && UpTo(ops, b) && ZERO_TIME <= b && b + SECOND < p && p + SECOND < q
    ensures AskedTwice(c, ops, p, q).oldSum == (PairSum(c.hash, Contents(Run(c, ops))) - Drift(c, ops)) % TWO64
    ensures AskedTwice(c, ops, p, q).oldSum == PairSum(c.hash, Contents(Run(c, ops))) % TWO64 <==> Drift(c, ops) % TWO64 == 0
  {
    hide ValidConfig, Run, After, AddEvent, PairSum, Events, Drift, UpTo, Contents;
    SumsAreEvents(c, ops);
    EventsUpTo(c, ops, b);
    BoundaryIsNear(Events(c, ops), b);
    SecondReportIsWhole(Run(c, ops).sums, p, q);
    ChecksumExact(c, ops);
  }

  lemma {:induction false} SetsDoNotDrift(c: Config, ops: seq<Op>)
    requires OnlySets(ops)
    ensures Drift(c, ops) == 0
  {
    if ops != [] { SetsDoNotDrift(c, ops[..|ops| - 1]); }
  }

  /**
   Replicas that accepted the same writes with distinct times, in any order and however late, report the
   same once they have been quiet, whenever each is asked.
   */
  lemma QuietReplicasAgree(c: Config, d: Config, ws: seq<Op>, us: seq<Op>, b: int, p: int, q: int, p': int, q': int)
    requires ValidConfig(c) && ValidConfig(d) && c.hash == d.hash && OnlySets(ws) && OnlySets(us)
    requires Accepted(c, ws) == ws && Accepted(d, us) == us && DistinctTimes(ws) && forall w :: w in ws <==> w in us
    requires UpTo(ws, b) && UpTo(us, b) && ZERO_TIME <= b
    requires b + SECOND < p && p + SECOND < q && b + SECOND < p' && p' + SECOND < q'
    ensures AskedTwice(c, ws, p, q).oldSum == AskedTwice(d, us, p', q').oldSum
         == PairSum(c.hash, Contents(Run(c, ws))) % TWO64
  {
    hide ValidConfig, Run, AskedTwice, PairSum, Drift, UpTo, Contents, Accepted, OnlySets, DistinctTimes, HoldsLatest;
    Converges(c, d, ws, us);
    SetsDoNotDrift(c, ws);
    SetsDoNotDrift(d, us);
    QuietReport(c, ws, b, p, q);
    QuietReport(d, us, b, p', q');
  }

  /** The same on the object: a PMap fed any operations and asked twice. */
  method ReportTwice(hash: Hash, size: nat, initLog2: nat, limit: u32, ops: seq<Op>, ghost b: int, p: int, q: int)
    returns (sum: u64)
    requires ValidConfig(Config(size, limit, initLog2, hash)) && Stamped(ops)
    requires UpTo(ops, b) && ZERO_TIME <= b && b + SECOND < p && p + SECOND < q
    ensures var c := Config(size, limit, initLog2, hash);
      sum == (PairSum(hash, Contents(Run(c, ops))) - Drift(c, ops)) % TWO64
  {
    hide PMap.Valid, Run, ValidConfig, AddEvent, PairSum, Drift, UpTo, Contents;
    var pm := PerformAll(hash, size, initLog2, limit, ops);
    QuietReport(pm.cfg, ops, b, p, q);
    sum := pm.Checksum(p);
    sum := pm.Checksum(q);
  }
}
