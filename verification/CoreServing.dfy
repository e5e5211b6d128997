/** Which chunks of a core are present, and a core that holds them all. */
module CoreServing {
  import opened ByteStrings
  import opened TimedMap
  import opened PMapSpec
  import opened PMapRuns
  import opened PMapHistory
  import opened ChunkRuns
  import opened CoreRuns

  // Presence.

  /** Step a creates chunk i, and no later step deletes it or, without files, forgets it. */
  ghost predicate CreatedAt(disk: bool, es: seq<CoreOp>, i: nat, a: nat)
  {
    a < |es| && es[a] == CoreOp.SetPresent(i)
    && forall b | a < b < |es| :: es[b] != CoreOp.SetNoPresent(i) && (disk || !es[b].Restart?)
  }

  lemma StepPresence(c: Config, disk: bool, cs: CoreState, e: CoreOp, i: nat)
    requires ValidConfig(c) && Ample(c) && c.size <= TWO28
    requires i < |cs| && HealthyCore(c, disk, cs) && AdmissibleStep(c, disk, cs, e)
    ensures CoreStep(c, disk, cs, e)[i].pm.Some?
       <==> e == CoreOp.SetPresent(i) || (cs[i].pm.Some? && e != CoreOp.SetNoPresent(i) && (disk || !e.Restart?))
  {
    hide Contents, ChunkStep, HealthySlot, Admissible, Ample, ValidConfig, Executed, ChunkOf, Empty, DictStep;
    var ch := cs[i];
    match e
    case Request(op, _) => if ch.pm.Some? && ChunkOf(c, |cs|, op.key) == i { SlotStep(c, disk, ch, Client(op)); }
    case Defrag(j, a) => if j == i { SlotStep(c, disk, ch, Defragment(a)); }
    case Restart =>
      if ch.pm.Some? && disk { SlotStep(c, disk, ch, Reopen); }
      if ch.pm.Some? && !disk { NotOnDisk(c, disk, ch); }
    case _ =>
  }

  /** After every run a chunk is present if and only if it was created and not deleted or forgotten since. */
  lemma {:induction false} PresentIff(c: Config, disk: bool, n: nat, es: seq<CoreOp>, i: nat)
    requires ValidConfig(c) && Ample(c) && c.size <= TWO28 && n > 0 && AdmissibleCore(c, disk, n, es) && i < n
    ensures CoreRun(c, disk, n, es)[i].pm.Some? <==> exists a: nat :: CreatedAt(disk, es, i, a)
    decreases |es|
  {
    hide ValidConfig, Ample, AdmissibleStep, HealthyCore, CoreStep;
    if es != [] {
      var init, e := es[..|es| - 1], es[|es| - 1];
      PresentIff(c, disk, n, init, i);
      CoreRunRefines(c, disk, n, init, []);
      StepPresence(c, disk, CoreRun(c, disk, n, init), e, i);
      assert es == init + [e];
      CreatedLast(disk, init, e, i);
    }
  }

  lemma CreatedLast(disk: bool, init: seq<CoreOp>, e: CoreOp, i: nat)
    ensures (exists a: nat :: CreatedAt(disk, init + [e], i, a))
       <==> e == CoreOp.SetPresent(i)
            || ((exists a: nat :: CreatedAt(disk, init, i, a)) && e != CoreOp.SetNoPresent(i) && (disk || !e.Restart?))
  {
    var es := init + [e];
    if e == CoreOp.SetPresent(i) {
      assert CreatedAt(disk, es, i, |init|);
    } else {
      forall a: nat
        ensures CreatedAt(disk, es, i, a) <==> CreatedAt(disk, init, i, a) && e != CoreOp.SetNoPresent(i) && (disk || !e.Restart?)
      {
        CreatedBefore(disk, init, e, i, a);
      }
    }
  }

  lemma CreatedBefore(disk: bool, init: seq<CoreOp>, e: CoreOp, i: nat, a: nat)
    requires e != CoreOp.SetPresent(i)
    ensures CreatedAt(disk, init + [e], i, a)
       <==> CreatedAt(disk, init, i, a) && e != CoreOp.SetNoPresent(i) && (disk || !e.Restart?)
  {
    var es := init + [e];
    if a < |init| {
      assert es[|init|] == e;
      assert forall b | a < b < |init| :: es[b] == init[b];
    }
  }

  // A core with all its chunks.

  /** The operations of a sequence that go to chunk i. */
  function Routed(c: Config, n: nat, ops: seq<Op>, i: nat): (r: seq<Op>)
    requires n > 0
  {
    if ops == [] then []
    else
      var init, op := ops[..|ops| - 1], ops[|ops| - 1];
      if (c.hash(op.key) / TWO32) % n == i then Routed(c, n, init, i) + [op] else Routed(c, n, init, i)
  }

  function Creations(n: nat): (es: seq<CoreOp>)
    ensures |es| == n
  {
    seq(n, i requires 0 <= i < n => CoreOp.SetPresent(i))
  }

  function Requests(ops: seq<Op>): (es: seq<CoreOp>)
    ensures |es| == |ops|
  {
    seq(|ops|, i requires 0 <= i < |ops| => Request(ops[i], true))
  }

  /** The first m chunks are new, and the others absent. */
  ghost predicate FirstCreated(c: Config, disk: bool, cs: CoreState, m: nat)
  {
    forall i | 0 <= i < |cs| :: cs[i] == if i < m then Slot(Some(Empty(c)), FileOf(disk, 0), 0) else Slot(None, None, 0)
  }

  lemma {:induction false} CreatedAll(c: Config, disk: bool, n: nat, m: nat)
    requires n > 0 && m <= n
    ensures FirstCreated(c, disk, CoreRun(c, disk, n, Creations(m)), m)
    decreases m
  {
    hide Empty;
    if m == 0 {
      assert Creations(m) == [];
    } else {
      CreatedAll(c, disk, n, m - 1);
      assert Creations(m)[..m - 1] == Creations(m - 1) && Creations(m)[m - 1] == CoreOp.SetPresent(m - 1);
    }
  }

  lemma RunSnoc(c: Config, ops: seq<Op>, op: Op)
    ensures Run(c, ops + [op]) == Apply(c, Run(c, ops), op).s
  {
    assert (ops + [op])[..|ops|] == ops;
  }

  /** Each chunk is a PMap after the operations routed to it. */
  lemma {:induction false} ChunkIsRun(c: Config, disk: bool, n: nat, ops: seq<Op>, i: nat)
    requires n > 0 && i < n
    ensures CoreRun(c, disk, n, Creations(n) + Requests(ops))[i].pm == Some(Run(c, Routed(c, n, ops, i)))
    decreases |ops|
  {
    hide Apply, Empty, ChunkOf;
    var es := Creations(n) + Requests(ops);
    if ops == [] {
      assert es == Creations(n);
      CreatedAll(c, disk, n, n);
      assert Run(c, []) == Empty(c);
    } else {
      var init, op := ops[..|ops| - 1], ops[|ops| - 1];
      ChunkIsRun(c, disk, n, init, i);
      assert es[..|es| - 1] == Creations(n) + Requests(init);
      assert es[|es| - 1] == Request(op, true);
      HighHalfIs(c, n, op.key);
      RunSnoc(c, Routed(c, n, init, i), op);
    }
  }

  lemma {:induction false} RoutedVolume(c: Config, n: nat, ops: seq<Op>, i: nat)
    requires n > 0
    ensures Volume(Routed(c, n, ops, i)) <= Volume(ops)
  {
    if ops != [] {
      var init, op := ops[..|ops| - 1], ops[|ops| - 1];
      var r := Routed(c, n, init, i);
      RoutedVolume(c, n, init, i);
      assert (r + [op])[..|r|] == r;
    }
  }

  /** The operations of the chunk of a key decide what is stored under it. */
  lemma {:induction false} RoutedDecides(c: Config, n: nat, ops: seq<Op>, k: Bytes)
    requires n > 0
    ensures Lookup(DictRun(c.hash, map[], Routed(c, n, ops, (c.hash(k) / TWO32) % n)), k) == Lookup(DictRun(c.hash, map[], ops), k)
  {
    hide DictStep, Lookup;
    if ops != [] {
      var i := (c.hash(k) / TWO32) % n;
      var init, op := ops[..|ops| - 1], ops[|ops| - 1];
      var m, w := DictRun(c.hash, map[], Routed(c, n, init, i)), DictRun(c.hash, map[], init);
      RoutedDecides(c, n, init, k);
      DictRunSnoc(c.hash, Routed(c, n, init, i), op);
      if op.key == k {
        DictLocal(c.hash, m, w, op);
      } else {
        DictFrame(c.hash, m, op, k);
        DictFrame(c.hash, w, op, k);
      }
    }
  }

  /**
   A core that created all its chunks answers every key as a dictionary fed with every request, whatever the
   number of chunks and the hash, as long as the requests write less than a chunk holds.
   */
  lemma CoreServesAll(c: Config, disk: bool, n: nat, ops: seq<Op>, k: Bytes)
    requires ValidConfig(c) && Ample(c) && n > 0 && Volume(ops) < c.size
    ensures CoreLookup(c, CoreRun(c, disk, n, Creations(n) + Requests(ops)), k) == Lookup(DictRun(c.hash, map[], ops), k)
  {
    hide ValidConfig, Ample, CoreRun, Run, Contents, DictRun, Routed, Volume, Lookup, Creations, Requests, ChunkOf;
    var i := (c.hash(k) / TWO32) % n;
    HighHalfIs(c, n, k);
    ChunkIsRun(c, disk, n, ops, i);
    RoutedVolume(c, n, ops, i);
    RunIsDictionary(c, Routed(c, n, ops, i));
    RoutedDecides(c, n, ops, k);
  }
}
