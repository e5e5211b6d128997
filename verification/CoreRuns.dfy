/** A core: keys are routed to chunks by the high half of their hash; each chunk is a PMap or absent. */
module CoreRuns {
  import opened ByteStrings
  import opened TimedMap
  import opened PMapSpec
  import opened PMapHistory
  import opened ChunkRuns

  type CoreState = seq<Slot>

  /** `int((h >> 32) % uint64(len(chunks)))` */
  function ChunkOf(c: Config, n: nat, k: Bytes): (i: nat)
    requires n > 0
    ensures i < n
  {
    (c.hash(k) / TWO32) % n
  }

  /** The high half of the hash of a key is its chunk plus a multiple of the number of chunks. */
  lemma HighHalfRoutes(c: Config, n: nat, k: Bytes)
    requires n > 0
    ensures ChunkOf(c, n, k) < n && exists q: nat :: c.hash(k) / TWO32 == q * n + ChunkOf(c, n, k)
  {
    var h := c.hash(k) / TWO32;
    assert h == (h / n) * n + h % n;
  }

  /** Two keys share a chunk if and only if their high halves leave the same remainder, whatever their low halves are. */
  lemma ShareChunkIff(c: Config, n: nat, k: Bytes, j: Bytes)
    requires n > 0
    ensures ChunkOf(c, n, k) == ChunkOf(c, n, j) <==> (c.hash(k) / TWO32) % n == (c.hash(j) / TWO32) % n
    ensures c.hash(k) / TWO32 == c.hash(j) / TWO32 ==> ChunkOf(c, n, k) == ChunkOf(c, n, j)
  {
    hide ChunkOf;
    HighHalfIs(c, n, k);
    HighHalfIs(c, n, j);
  }

  lemma HighHalfIs(c: Config, n: nat, k: Bytes)
    requires n > 0
    ensures (c.hash(k) / TWO32) % n == ChunkOf(c, n, k)
  {
    hide ChunkOf;
    HighHalfRoutes(c, n, k);
    var q: nat :| c.hash(k) / TWO32 == q * n + ChunkOf(c, n, k);
    ModUnique(c.hash(k) / TWO32, n, q, ChunkOf(c, n, k));
  }

  /** What Get answers for a key: nothing if its chunk is absent. */
  function CoreLookup(c: Config, cs: CoreState, k: Bytes): (r: Option<Bytes>)
    requires |cs| > 0
  {
    match cs[ChunkOf(c, |cs|, k)].pm
    case None => None
    case Some(s) => Lookup(Contents(s), k)
  }

  datatype CoreOp =
    | Request(op: Op, synced: bool)        // a client operation, routed by its key; a swap needs a synced chunk
    | Defrag(chunk: nat, answers: Dict)    // the defragmenter reaches a chunk
    | Restart                              // close and open again
    | SetPresent(chunk: nat)               // ChunkSetPresent
    | SetNoPresent(chunk: nat)             // ChunkSetNoPresent: the chunk is deleted

  /** A step of one chunk; opening finds a chunk again only by its file. */
  function StepChunk(c: Config, disk: bool, ch: Slot, e: ChunkOp): (r: Slot)
  {
    if ch.pm.Some? then ChunkStep(c, disk, ch, e) else if e.Reopen? then Slot(None, None, 0) else ch
  }

  function CoreStep(c: Config, disk: bool, cs: CoreState, e: CoreOp): (r: CoreState)
    requires |cs| > 0
    ensures |r| == |cs|
  {
    match e
    case Request(op, synced) =>
      var i := ChunkOf(c, |cs|, op.key);
      if op.Cas? && !synced then cs else cs[i := StepChunk(c, disk, cs[i], Client(op))]
    case Defrag(i, a) => if i < |cs| then cs[i := StepChunk(c, disk, cs[i], Defragment(a))] else cs
    case Restart => seq(|cs|, i requires 0 <= i < |cs| => StepChunk(c, disk, cs[i], Reopen))
    case SetPresent(i) =>
      if i < |cs| && cs[i].pm.None? then cs[i := Slot(Some(Empty(c)), FileOf(disk, 0), cs[i].counter)] else cs
    case SetNoPresent(i) => if i < |cs| then cs[i := Slot(None, None, cs[i].counter)] else cs
  }

  /** A request takes effect if its chunk is present, and synced for a swap, and it is not refused for lack of space. */
  predicate TakesEffect(c: Config, cs: CoreState, op: Op, synced: bool)
    requires |cs| > 0
  {
    Executed(c, cs[ChunkOf(c, |cs|, op.key)], Client(op)) && (op.Cas? ==> synced)
  }

  /**
   The same step on one plain dictionary: requests change it, deleting a chunk drops the keys whose high hash
   half leaves its number, and without files a restart forgets everything.
   */
  function PlainStep(c: Config, disk: bool, n: nat, m: Dict, e: CoreOp, effective: bool): (r: Dict)
    requires n > 0
  {
    match e
    case Request(op, _) => if effective then DictStep(c.hash, m, op) else m
    case SetNoPresent(i) => map k | k in m && (c.hash(k) / TWO32) % n != i :: m[k]
    case Restart => if disk then m else map[]
    case _ => m
  }

  function PlainRun(c: Config, disk: bool, n: nat, es: seq<CoreOp>): (m: Dict)
    requires n > 0
  {
    if es == [] then map[]
    else
      var init, e := es[..|es| - 1], es[|es| - 1];
      PlainStep(c, disk, n, PlainRun(c, disk, n, init), e,
                e.Request? && TakesEffect(c, CoreRun(c, disk, n, init), e.op, e.synced))
  }

  function CoreRun(c: Config, disk: bool, n: nat, es: seq<CoreOp>): (cs: CoreState)
    requires n > 0
    ensures |cs| == n
  {
    if es == [] then seq(n, _ => Slot(None, None, 0)) else CoreStep(c, disk, CoreRun(c, disk, n, es[..|es| - 1]), es[|es| - 1])
  }

  /** The PMap of a present chunk is healthy, and has a file if and only if chunks are kept on disk. */
  ghost predicate HealthySlot(c: Config, disk: bool, ch: Slot)
  {
    ch.pm.Some? ==> Healthy(c, ch.pm.value) && ch.file.Some? == disk
  }

  ghost predicate HealthyCore(c: Config, disk: bool, cs: CoreState)
  {
    forall i | 0 <= i < |cs| :: HealthySlot(c, disk, cs[i])
  }

  /**
   A request is admissible in its chunk if that is present; the chunk to defragment is present and does not
   collide; a restart from disk is admissible in every present chunk.
   */
  ghost predicate AdmissibleStep(c: Config, disk: bool, cs: CoreState, e: CoreOp)
    requires |cs| > 0
  {
    match e
    case Request(op, _) =>
      var ch := cs[ChunkOf(c, |cs|, op.key)];
      ch.pm.Some? ==> Admissible(c, ch, Client(op))
    case Defrag(i, a) => i < |cs| && cs[i].pm.Some? && Admissible(c, cs[i], Defragment(a))
    case Restart => disk ==> forall i | 0 <= i < |cs| && cs[i].pm.Some? :: Admissible(c, cs[i], Reopen)
    case _ => true
  }

  ghost predicate AdmissibleCore(c: Config, disk: bool, n: nat, es: seq<CoreOp>)
    requires n > 0
  {
    es == [] ||
    (AdmissibleCore(c, disk, n, es[..|es| - 1])
     && AdmissibleStep(c, disk, CoreRun(c, disk, n, es[..|es| - 1]), es[|es| - 1]))
  }

  // A step of the dictionary looks only at its own key.

  lemma DictLocal(hash: Hash, m: Dict, w: Dict, op: Op)
    requires Lookup(m, op.key) == Lookup(w, op.key)
    ensures Lookup(DictStep(hash, m, op), op.key) == Lookup(DictStep(hash, w, op), op.key)
  {
    hide Time;
  }

  lemma DictFrame(hash: Hash, m: Dict, op: Op, k: Bytes)
    requires k != op.key
    ensures Lookup(DictStep(hash, m, op), k) == Lookup(m, k)
  {
    hide Time, CasVerdict;
  }

  /** A step of a present chunk: its health, its file and its pairs. */
  lemma SlotStep(c: Config, disk: bool, ch: Slot, e: ChunkOp)
    requires ValidConfig(c) && Ample(c) && c.size <= TWO28
    requires ch.pm.Some? && HealthySlot(c, disk, ch) && Admissible(c, ch, e)
    ensures var r := ChunkStep(c, disk, ch, e);
      && r.pm.Some? && HealthySlot(c, disk, r)
      && Contents(r.pm.value)
           == if Executed(c, ch, e) then DictStep(c.hash, Contents(ch.pm.value), e.op) else Contents(ch.pm.value)
  {
    hide Contents, Healthy, Ample, ValidConfig, DictStep, Executed;
    StepHealthy(c, disk, ch, e);
    assert ChunkStep(c, disk, ch, e).file.Some? == disk by { StepFile(c, disk, ch, e); }
  }

  lemma StepFile(c: Config, disk: bool, ch: Slot, e: ChunkOp)
    requires ch.pm.Some? && ch.file.Some? == disk && Admissible(c, ch, e)
    ensures ChunkStep(c, disk, ch, e).file.Some? == disk
  {}

  lemma RequestRefines(c: Config, disk: bool, cs: CoreState, e: CoreOp, m: Dict, k: Bytes)
    requires ValidConfig(c) && Ample(c) && c.size <= TWO28
    requires |cs| > 0 && HealthyCore(c, disk, cs) && e.Request? && AdmissibleStep(c, disk, cs, e)
    requires Lookup(m, k) == CoreLookup(c, cs, k) && Lookup(m, e.op.key) == CoreLookup(c, cs, e.op.key)
    ensures CoreLookup(c, CoreStep(c, disk, cs, e), k)
         == Lookup(if TakesEffect(c, cs, e.op, e.synced) then DictStep(c.hash, m, e.op) else m, k)
  {
    hide Contents, ChunkStep, HealthySlot, Ample, ValidConfig, Admissible, DictStep, Lookup, Executed, ChunkOf;
    var op := e.op;
    var i := ChunkOf(c, |cs|, op.key);
    if cs[i].pm.Some? {
      SlotStep(c, disk, cs[i], Client(op));
      if k == op.key {
        DictLocal(c.hash, m, Contents(cs[i].pm.value), op);
      } else {
        DictFrame(c.hash, m, op, k);
        DictFrame(c.hash, Contents(cs[i].pm.value), op, k);
      }
    } else {
      NotExecuted(c, cs[i], Client(op));
    }
  }

  lemma NotExecuted(c: Config, ch: Slot, e: ChunkOp)
    ensures ch.pm.None? || !e.Client? ==> !Executed(c, ch, e)
  {}

  lemma OtherRefines(c: Config, disk: bool, cs: CoreState, e: CoreOp, m: Dict, k: Bytes)
    requires ValidConfig(c) && Ample(c) && c.size <= TWO28
    requires |cs| > 0 && HealthyCore(c, disk, cs) && !e.Request? && AdmissibleStep(c, disk, cs, e)
    requires Lookup(m, k) == CoreLookup(c, cs, k)
    ensures CoreLookup(c, CoreStep(c, disk, cs, e), k) == Lookup(PlainStep(c, disk, |cs|, m, e, false), k)
  {
    hide Contents, ChunkStep, HealthySlot, Admissible, Ample, ValidConfig, Executed, ChunkOf, Empty, DictStep;
    var i := ChunkOf(c, |cs|, k);
    var ch := cs[i];
    match e
    case Defrag(j, a) =>
      NotExecuted(c, ch, Defragment(a));
      if j == i { SlotStep(c, disk, ch, Defragment(a)); }
    case Restart =>
      NotExecuted(c, ch, Reopen);
      if ch.pm.Some? && disk { SlotStep(c, disk, ch, Reopen); }
      if ch.pm.Some? && !disk { NotOnDisk(c, disk, ch); }
    case SetPresent(j) => EmptyHealthy(c);
    case SetNoPresent(j) => HighHalfIs(c, |cs|, k);
  }

  lemma NotOnDisk(c: Config, disk: bool, ch: Slot)
    requires ch.pm.Some? && HealthySlot(c, disk, ch) && !disk
    ensures ChunkStep(c, disk, ch, Reopen) == Slot(None, None, 0)
  {}

  lemma CoreStepHealthy(c: Config, disk: bool, cs: CoreState, e: CoreOp)
    requires ValidConfig(c) && Ample(c) && c.size <= TWO28
    requires |cs| > 0 && HealthyCore(c, disk, cs) && AdmissibleStep(c, disk, cs, e)
    ensures HealthyCore(c, disk, CoreStep(c, disk, cs, e))
  {
    hide Contents, ChunkStep, HealthySlot, Ample, ValidConfig, Admissible, DictStep, Executed, ChunkOf, Empty;
    var r := CoreStep(c, disk, cs, e);
    forall i | 0 <= i < |r| ensures HealthySlot(c, disk, r[i]) {
      var ch := cs[i];
      AbsentHealthy(c, disk, 0);
      AbsentHealthy(c, disk, ch.counter);
      NewHealthy(c, disk, ch.counter);
      match e
      case Request(op, _) =>
        if ch.pm.Some? && ChunkOf(c, |cs|, op.key) == i { SlotStep(c, disk, ch, Client(op)); }
      case Defrag(j, a) =>
        if j == i { SlotStep(c, disk, ch, Defragment(a)); }
      case Restart =>
        if ch.pm.Some? && disk { SlotStep(c, disk, ch, Reopen); }
        if ch.pm.Some? && !disk { NotOnDisk(c, disk, ch); }
      case _ =>
    }
  }

  lemma AbsentHealthy(c: Config, disk: bool, n: nat)
    ensures HealthySlot(c, disk, Slot(None, None, n))
  {}

  lemma NewHealthy(c: Config, disk: bool, n: nat)
    requires ValidConfig(c)
    ensures HealthySlot(c, disk, Slot(Some(Empty(c)), FileOf(disk, 0), n))
  {
    EmptyHealthy(c);
  }

  /**
   Over every run, whatever chunks are defragmented, restarted, created or deleted on the way, a
   core answers every key as one plain dictionary does.
   */
  lemma {:induction false} CoreRunRefines(c: Config, disk: bool, n: nat, es: seq<CoreOp>, k: Bytes)
    requires ValidConfig(c) && Ample(c) && c.size <= TWO28 && n > 0 && AdmissibleCore(c, disk, n, es)
    ensures HealthyCore(c, disk, CoreRun(c, disk, n, es))
    ensures CoreLookup(c, CoreRun(c, disk, n, es), k) == Lookup(PlainRun(c, disk, n, es), k)
    decreases |es|
  {
    hide ValidConfig, Ample, AdmissibleStep, HealthyCore, CoreLookup, CoreStep, PlainStep, TakesEffect, Lookup;
    if es == [] {
      NothingYet(c, disk, n, k);
    } else {
      var init, e := es[..|es| - 1], es[|es| - 1];
      CoreRunRefines(c, disk, n, init, k);
      var cs, m := CoreRun(c, disk, n, init), PlainRun(c, disk, n, init);
      CoreStepHealthy(c, disk, cs, e);
      if e.Request? {
        CoreRunRefines(c, disk, n, init, e.op.key);
        RequestRefines(c, disk, cs, e, m, k);
        PlainRequest(c, disk, n, m, e, TakesEffect(c, cs, e.op, e.synced));
      } else {
        OtherRefines(c, disk, cs, e, m, k);
      }
    }
  }

  lemma NothingYet(c: Config, disk: bool, n: nat, k: Bytes)
    requires n > 0
    ensures HealthyCore(c, disk, seq(n, _ => Slot(None, None, 0)))
    ensures CoreLookup(c, seq(n, _ => Slot(None, None, 0)), k) == Lookup(map[], k)
  {
    hide ChunkOf;
  }

  lemma PlainRequest(c: Config, disk: bool, n: nat, m: Dict, e: CoreOp, effective: bool)
    requires n > 0 && e.Request?
    ensures PlainStep(c, disk, n, m, e, effective) == if effective then DictStep(c.hash, m, e.op) else m
  {}
}
