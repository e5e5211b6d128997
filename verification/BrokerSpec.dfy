/** The request broker of a connection as a state machine: sends, replies, ticks and the close, in any order. */
module BrokerSpec {
  import opened ByteStrings
  import opened TimeoutQueue

  // The types of a reply, `OpOK`, `OpErr` and `OpResponse`.
  const OP_OK: byte := 200
  const OP_ERR: byte := 201
  const OP_RESPONSE: byte := 202

  /** What a request gets from a reply. */
  datatype Result = Value(value: Bytes) | Done | Failed(reason: Bytes) | Invalid(typ: byte)

  function ResultOf(typ: byte, value: Bytes): (r: Result)
  {
    if typ == OP_RESPONSE then Value(value)
    else if typ == OP_OK then Done
    else if typ == OP_ERR then Failed(value)
    else Invalid(typ)
  }

  datatype How = Replied(result: Result) | TimedOut | Dropped
  datatype Answer = Answer(tid: nat, how: How)

  datatype Broker = Broker(
    queue: seq<Entry>,      // deadlines, latest first
    waits: set<nat>,        // ids waiting for a result
    tid: nat,               // next id
    asked: set<nat>,        // ids of the requests that want a result
    answers: seq<Answer>,   // results handed out, in order
    closed: bool)

  const INITIAL: Broker := Broker([], {}, 0, {}, [], false)

  datatype Step =
    | Send(deadline: int)   // a request with a timeout
    | SendOnly              // a message nobody waits for
    | Reply(id: nat, typ: byte, value: Bytes)   // a message from the peer
    | Tick(now: int)
    | Close

  /** Hands a result to each listed request that is still waiting. */
  function Finish(b: Broker, es: seq<Entry>, how: How): (r: Broker)
    decreases |es|
  {
    if es == [] then b
    else
      var e := es[0];
      Finish(if e.tid in b.waits then b.(waits := b.waits - {e.tid}, answers := b.answers + [Answer(e.tid, how)]) else b,
             es[1..], how)
  }

  function Next(b: Broker, s: Step): (r: Broker)
  {
    match s
    case Send(d) =>
      b.(queue := Inserted(b.queue, Entry(d, b.tid)), waits := b.waits + {b.tid}, tid := b.tid + 1, asked := b.asked + {b.tid})
    case SendOnly => b.(tid := b.tid + 1)
    case Reply(id, typ, v) =>
      if id in b.waits then b.(waits := b.waits - {id}, answers := b.answers + [Answer(id, Replied(ResultOf(typ, v)))]) else b
    case Tick(now) =>
      var k := Kept(b.queue, now);
      Finish(b.(queue := b.queue[..k]), Backwards(b.queue[k..]), TimedOut)
    case Close =>
      Finish(b.(queue := [], closed := true), Backwards(b.queue), Dropped)
  }

  /** Nothing is sent after the close, and a deadline is not before the earliest one queued. */
  ghost predicate Enabled(b: Broker, s: Step)
  {
    && (s.Send? || s.SendOnly? || s.Close? ==> !b.closed)
    && (s.Send? ==> b.queue == [] || b.queue[|b.queue| - 1].t <= s.deadline)
  }

  // The invariant.

  ghost predicate HasEntry(q: seq<Entry>, id: nat)
  {
    exists i :: 0 <= i < |q| && q[i].tid == id
  }

  ghost predicate DistinctIds(q: seq<Entry>)
  {
    forall i, j | 0 <= i < j < |q| :: q[i].tid != q[j].tid
  }

  function Answered(answers: seq<Answer>): (s: set<nat>)
  {
    set i | 0 <= i < |answers| :: answers[i].tid
  }

  ghost predicate OneEach(answers: seq<Answer>)
  {
    forall i, j | 0 <= i < j < |answers| :: answers[i].tid != answers[j].tid
  }

  /** Every request that wants a result is waiting or has been given exactly one. */
  ghost predicate Accounted(b: Broker)
  {
    b.waits !! Answered(b.answers) && b.asked == b.waits + Answered(b.answers) && OneEach(b.answers)
  }

  ghost predicate Queued(b: Broker)
  {
    && Sorted(b.queue) && DistinctIds(b.queue)
    && (forall i | 0 <= i < |b.queue| :: b.queue[i].tid < b.tid)
    && (forall id | id in b.asked :: id < b.tid)
  }

  ghost predicate Inv(b: Broker)
  {
    && Accounted(b) && Queued(b)
    && (forall id | id in b.waits :: HasEntry(b.queue, id))
    && (b.closed ==> b.waits == {})
  }

  /** Giving a waiting request its result keeps the account. */
  lemma AnswerAccounted(b: Broker, id: nat, how: How)
    requires Accounted(b) && id in b.waits
    ensures Accounted(b.(waits := b.waits - {id}, answers := b.answers + [Answer(id, how)]))
  {
    var answers := b.answers + [Answer(id, how)];
    assert answers[|b.answers|].tid == id;
    assert forall i | 0 <= i < |b.answers| :: b.answers[i].tid in Answered(b.answers) && answers[i] == b.answers[i];
    assert Answered(answers) == Answered(b.answers) + {id};
  }

  function Ids(es: seq<Entry>): (s: set<nat>)
  {
    set i | 0 <= i < |es| :: es[i].tid
  }

  lemma IdsTail(es: seq<Entry>)
    requires es != []
    ensures Ids(es) == {es[0].tid} + Ids(es[1..])
  {
    assert forall i | 0 < i < |es| :: es[i] == es[1..][i - 1];
    assert forall i | 0 <= i < |es| - 1 :: es[1..][i] == es[i + 1];
  }

  /** Finishing answers exactly the listed requests that were waiting. */
  lemma {:induction false} FinishExact(b: Broker, es: seq<Entry>, how: How)
    requires Accounted(b)
    ensures var r := Finish(b, es, how);
      && Accounted(r) && r.waits == b.waits - Ids(es)
      && r.queue == b.queue && r.tid == b.tid && r.asked == b.asked && r.closed == b.closed
      && b.answers <= r.answers
      && forall i | |b.answers| <= i < |r.answers| :: r.answers[i].how == how && r.answers[i].tid in Ids(es)
    decreases |es|
  {
    hide Accounted;
    if es != [] {
      var e := es[0];
      IdsTail(es);
      if e.tid in b.waits {
        AnswerAccounted(b, e.tid, how);
        var a := b.(waits := b.waits - {e.tid}, answers := b.answers + [Answer(e.tid, how)]);
        FinishExact(a, es[1..], how);
      } else {
        FinishExact(b, es[1..], how);
      }
    }
  }

  /** Entry j after an insertion is the new one or one of the old ones. */
  lemma InsertedAt(q: seq<Entry>, e: Entry, j: nat)
    requires j <= |q|
    ensures |Inserted(q, e)| == |q| + 1 && Place(q, e.t) <= |q|
    ensures Inserted(q, e)[j] == if j < Place(q, e.t) then q[j] else if j == Place(q, e.t) then e else q[j - 1]
  {}

  lemma InsertedIds(q: seq<Entry>, e: Entry, tid: nat)
    requires DistinctIds(q) && e.tid == tid && forall i | 0 <= i < |q| :: q[i].tid < tid
    ensures DistinctIds(Inserted(q, e)) && forall i | 0 <= i < |Inserted(q, e)| :: Inserted(q, e)[i].tid < tid + 1
  {
    var r := Inserted(q, e);
    forall i | 0 <= i < |r| ensures r[i].tid < tid + 1 {
      InsertedAt(q, e, i);
    }
    forall i, j | 0 <= i < j < |r| ensures r[i].tid != r[j].tid {
      InsertedAt(q, e, i);
      InsertedAt(q, e, j);
    }
  }

  lemma InsertedHasEntry(q: seq<Entry>, e: Entry, id: nat)
    requires id == e.tid || HasEntry(q, id)
    ensures HasEntry(Inserted(q, e), id)
  {
    hide Inserted, Place;
    var r, k := Inserted(q, e), Place(q, e.t);
    if id != e.tid {
      var i :| 0 <= i < |q| && q[i].tid == id;
      var j := if i < k then i else i + 1;
      InsertedAt(q, e, j);
      assert r[j].tid == id;
    } else {
      InsertedAt(q, e, k);
      assert r[k].tid == id;
    }
  }

  lemma SendKeepsInv(b: Broker, d: int)
    requires Inv(b) && Enabled(b, Send(d))
    ensures Inv(Next(b, Send(d)))
  {
    hide Sorted, Answered, Inserted, HasEntry, DistinctIds;
    var e := Entry(d, b.tid);
    InsertedSorted(b.queue, e);
    InsertedIds(b.queue, e, b.tid);
    forall id | id in b.waits + {b.tid} ensures HasEntry(Inserted(b.queue, e), id) {
      InsertedHasEntry(b.queue, e, id);
    }
  }

  lemma TickKeepsInv(b: Broker, now: int)
    requires Inv(b)
    ensures Inv(Next(b, Tick(now)))
  {
    hide Accounted, Backwards, Answered, Kept;
    var k := Kept(b.queue, now);
    var kept, expired := b.queue[..k], Backwards(b.queue[k..]);
    FinishExact(b.(queue := kept), expired, TimedOut) by { AccountedShape(b, kept, b.closed); }
    SortedPrefix(b.queue, k);
    BackwardsIds(b.queue, k);
    var r := Next(b, Tick(now));
    forall id | id in r.waits ensures HasEntry(r.queue, id) {
      var i :| 0 <= i < |b.queue| && b.queue[i].tid == id;
      assert i < k;
      assert r.queue[i].tid == id;
    }
  }

  lemma AccountedShape(b: Broker, q: seq<Entry>, closed: bool)
    ensures Accounted(b.(queue := q, closed := closed)) <==> Accounted(b)
  {}

  lemma BackwardsIds(q: seq<Entry>, k: nat)
    requires k <= |q|
    ensures forall i | k <= i < |q| :: q[i].tid in Ids(Backwards(q[k..]))
  {
    var r := Backwards(q[k..]);
    forall i | k <= i < |q| ensures q[i].tid in Ids(r) {
      assert r[|q| - 1 - i] == q[k..][i - k] == q[i];
    }
  }

  lemma CloseKeepsInv(b: Broker)
    requires Inv(b)
    ensures Inv(Next(b, Close)) && Next(b, Close).waits == {}
  {
    hide Accounted, Backwards, Answered;
    FinishExact(b.(queue := [], closed := true), Backwards(b.queue), Dropped) by { AccountedShape(b, [], true); }
    assert b.queue[0..] == b.queue;
    BackwardsIds(b.queue, 0);
    forall id | id in b.waits ensures id in Ids(Backwards(b.queue)) {
      var i :| 0 <= i < |b.queue| && b.queue[i].tid == id;
    }
  }

  lemma NextKeepsInv(b: Broker, s: Step)
    requires Inv(b) && Enabled(b, s)
    ensures Inv(Next(b, s))
  {
    match s
    case Send(d) => SendKeepsInv(b, d);
    case SendOnly =>
    case Reply(id, typ, v) => if id in b.waits { AnswerAccounted(b, id, Replied(ResultOf(typ, v))); }
    case Tick(now) => TickKeepsInv(b, now);
    case Close => CloseKeepsInv(b);
  }

  function Run(ss: seq<Step>): (b: Broker)
  {
    if ss == [] then INITIAL else Next(Run(ss[..|ss| - 1]), ss[|ss| - 1])
  }

  ghost predicate EnabledRun(ss: seq<Step>)
  {
    ss == [] || (EnabledRun(ss[..|ss| - 1]) && Enabled(Run(ss[..|ss| - 1]), ss[|ss| - 1]))
  }

  /** In every interleaving: one result at most per request, and a queue entry for whoever waits. */
  lemma {:induction false} ExactlyOneAnswer(ss: seq<Step>)
    requires EnabledRun(ss)
    ensures Inv(Run(ss))
  {
    if ss != [] {
      hide Next, Inv, Enabled;
      ExactlyOneAnswer(ss[..|ss| - 1]);
      NextKeepsInv(Run(ss[..|ss| - 1]), ss[|ss| - 1]);
    }
  }

  /** Once the connection is closed every request has exactly one result. */
  lemma ClosedAnswersAll(ss: seq<Step>)
    requires EnabledRun(ss) && Run(ss).closed
    ensures Run(ss).waits == {} && Answered(Run(ss).answers) == Run(ss).asked && OneEach(Run(ss).answers)
  {
    hide Run, EnabledRun, OneEach;
    ExactlyOneAnswer(ss);
  }

  /** A tick takes a request off the waiting list exactly when its deadline has passed. */
  lemma TickIsExact(b: Broker, now: int, i: nat)
    requires Inv(b) && i < |b.queue| && b.queue[i].tid in b.waits
    ensures b.queue[i].tid in Next(b, Tick(now)).waits <==> b.queue[i].t >= now
  {
    hide Accounted, Backwards, Answered, Kept;
    var k := Kept(b.queue, now);
    var expired := Backwards(b.queue[k..]);
    FinishExact(b.(queue := b.queue[..k]), expired, TimedOut) by { AccountedShape(b, b.queue[..k], b.closed); }
    KeptExact(b.queue, now);
    BackwardsIds(b.queue, k);
    if i < k {
      NotAmongExpired(b.queue, k, i);
    }
  }

  lemma NotAmongExpired(q: seq<Entry>, k: nat, i: nat)
    requires DistinctIds(q) && i < k <= |q|
    ensures q[i].tid !in Ids(Backwards(q[k..]))
  {
    var r := Backwards(q[k..]);
    forall j | 0 <= j < |r| ensures r[j].tid != q[i].tid {
      assert r[j] == q[k..][|r| - 1 - j] == q[k + (|r| - 1 - j)];
    }
  }

  /** A reply to a request that already has its result changes nothing. */
  lemma LateReplyIgnored(b: Broker, id: nat, typ: byte, value: Bytes)
    requires Inv(b) && id in Answered(b.answers)
    ensures Next(b, Reply(id, typ, value)) == b
  {
    hide Answered;
  }
}
