/** Which result each request of a connection gets, over every interleaving. */
module RequestFates {
  import opened ByteStrings
  import opened TimeoutQueue
  import opened BrokerSpec
  import Brokers

  /** How many messages were sent: the id of the next one. */
  function Sends(ss: seq<Step>): (n: nat)
  {
    if ss == [] then 0
    else Sends(ss[..|ss| - 1]) + if ss[|ss| - 1].Send? || ss[|ss| - 1].SendOnly? then 1 else 0
  }

  lemma {:induction false} IdsCount(ss: seq<Step>)
    requires EnabledRun(ss)
    ensures Run(ss).tid == Sends(ss)
  {
    if ss != [] {
      IdsCount(ss[..|ss| - 1]);
      ExactlyOneAnswer(ss[..|ss| - 1]);
      NextId(Run(ss[..|ss| - 1]), ss[|ss| - 1]);
    }
  }

  lemma NextId(b: Broker, s: Step)
    requires Inv(b)
    ensures Next(b, s).tid == b.tid + if s.Send? || s.SendOnly? then 1 else 0
  {
    hide Accounted, Backwards, Inserted, Queued, HasEntry;
    match s
    case Tick(now) =>
      var k := Kept(b.queue, now);
      FinishExact(b.(queue := b.queue[..k]), Backwards(b.queue[k..]), TimedOut) by { AccountedShape(b, b.queue[..k], b.closed); }
    case Close =>
      FinishExact(b.(queue := [], closed := true), Backwards(b.queue), BrokerSpec.Dropped) by { AccountedShape(b, [], true); }
    case _ =>
  }

  /** A step that ends the wait of a request: a reply with its id, a tick past its deadline, the close. */
  ghost predicate Ends(s: Step, id: nat, deadline: int)
  {
    || (s.Reply? && s.id == id)
    || (s.Tick? && s.now > deadline)
    || s.Close?
  }

  /** What the request gets from it. */
  ghost function Outcome(s: Step): (h: How)
  {
    match s
    case Reply(_, typ, v) => Replied(ResultOf(typ, v))
    case Tick(_) => TimedOut
    case _ => BrokerSpec.Dropped
  }

  ghost predicate Waiting(b: Broker, id: nat, deadline: int)
  {
    id in b.waits && Entry(deadline, id) in b.queue
  }

  /** A request is waiting right after it was sent. */
  lemma SendWaits(b: Broker, d: int)
    ensures Waiting(Next(b, Send(d)), b.tid, d) && b.tid in Next(b, Send(d)).asked
  {
    assert Inserted(b.queue, Entry(d, b.tid))[Place(b.queue, d)] == Entry(d, b.tid);
  }

  /** A step that does not end its wait leaves it waiting. */
  lemma StaysWaiting(b: Broker, s: Step, id: nat, d: int)
    requires Inv(b) && Enabled(b, s) && Waiting(b, id, d) && !Ends(s, id, d)
    ensures Waiting(Next(b, s), id, d)
  {
    hide Accounted, HasEntry, Backwards, Kept;
    var i :| 0 <= i < |b.queue| && b.queue[i] == Entry(d, id);
    match s
    case Send(t) =>
      hide Place;
      var e := Entry(t, b.tid);
      var k := if i < Place(b.queue, t) then i else i + 1;
      InsertedAt(b.queue, e, k);
      assert Inserted(b.queue, e)[k] == b.queue[i];
    case Tick(now) =>
      TickIsExact(b, now, i);
      var k := Kept(b.queue, now);
      KeptExact(b.queue, now);
      FinishExact(b.(queue := b.queue[..k]), Backwards(b.queue[k..]), TimedOut) by { AccountedShape(b, b.queue[..k], b.closed); }
      assert b.queue[..k][i] == Entry(d, id);
    case _ =>
  }

  /** A step that ends its wait hands it the outcome of that step. */
  lemma WaitEnds(b: Broker, s: Step, id: nat, d: int)
    requires Inv(b) && Enabled(b, s) && Waiting(b, id, d) && Ends(s, id, d)
    ensures id !in Next(b, s).waits && Answer(id, Outcome(s)) in Next(b, s).answers
  {
    hide HasEntry, Backwards, Kept, Queued;
    var i :| 0 <= i < |b.queue| && b.queue[i] == Entry(d, id);
    NextKeepsInv(b, s);
    var r := Next(b, s);
    match s
    case Reply(_, typ, v) =>
      assert r.answers[|b.answers|] == Answer(id, Outcome(s));
    case Tick(now) =>
      TickIsExact(b, now, i);
      var k := Kept(b.queue, now);
      FinishExact(b.(queue := b.queue[..k]), Backwards(b.queue[k..]), TimedOut) by { AccountedShape(b, b.queue[..k], b.closed); }
      NewAnswer(b, r, id, TimedOut);
    case Close =>
      CloseKeepsInv(b);
      FinishExact(b.(queue := [], closed := true), Backwards(b.queue), BrokerSpec.Dropped) by { AccountedShape(b, [], true); }
      NewAnswer(b, r, id, BrokerSpec.Dropped);
  }

  lemma NewAnswer(b: Broker, r: Broker, id: nat, h: How)
    requires Accounted(b) && Accounted(r) && id in b.waits && id !in r.waits && r.asked == b.asked && b.answers <= r.answers
    requires forall i | |b.answers| <= i < |r.answers| :: r.answers[i].how == h
    ensures Answer(id, h) in r.answers
  {
    assert id in Answered(r.answers);
    var i :| 0 <= i < |r.answers| && r.answers[i].tid == id;
    assert forall l | 0 <= l < |b.answers| :: b.answers[l].tid in Answered(b.answers);
    assert r.answers[i] == Answer(id, h);
  }

  lemma AnswersStay(b: Broker, s: Step)
    requires Inv(b)
    ensures b.answers <= Next(b, s).answers && b.asked <= Next(b, s).asked
    ensures forall id | id in Next(b, s).waits && id < b.tid :: id in b.waits
  {
    hide Accounted, Backwards, Inserted, Queued, HasEntry;
    match s
    case Tick(now) =>
      var k := Kept(b.queue, now);
      FinishExact(b.(queue := b.queue[..k]), Backwards(b.queue[k..]), TimedOut) by { AccountedShape(b, b.queue[..k], b.closed); }
    case Close =>
      FinishExact(b.(queue := [], closed := true), Backwards(b.queue), BrokerSpec.Dropped) by { AccountedShape(b, [], true); }
    case _ =>
  }

  /** No step strictly between moments j and n ends the wait of the request sent at j. */
  ghost predicate Open(ss: seq<Step>, j: nat, n: nat)
    requires j < n <= |ss| && ss[j].Send?
  {
    forall i | j < i < n :: !Ends(ss[i], Sends(ss[..j]), ss[j].deadline)
  }

  lemma RunAt(ss: seq<Step>, m: nat)
    requires EnabledRun(ss) && m <= |ss|
    ensures EnabledRun(ss[..m])
    ensures m < |ss| ==> Enabled(Run(ss[..m]), ss[m]) && Run(ss[..m + 1]) == Next(Run(ss[..m]), ss[m])
    decreases |ss|
  {
    hide Enabled, Next;
    if m < |ss| {
      if m + 1 == |ss| {
        assert ss[..m + 1] == ss;
      } else {
        RunAt(ss[..|ss| - 1], m);
        assert ss[..|ss| - 1][..m] == ss[..m] && ss[..|ss| - 1][..m + 1] == ss[..m + 1];
      }
    } else {
      assert ss[..m] == ss;
    }
  }

  /** As long as its wait is open, a request waits. */
  lemma {:induction false} OpenWaits(ss: seq<Step>, j: nat, m: nat)
    requires EnabledRun(ss) && j < m <= |ss| && ss[j].Send? && Open(ss, j, m)
    ensures var id := Sends(ss[..j]);
      Waiting(Run(ss[..m]), id, ss[j].deadline) && id in Run(ss[..m]).asked && id < Run(ss[..m]).tid
    decreases m
  {
    hide Run, EnabledRun, Enabled, Waiting, Ends, Next, Inv;
    RunAt(ss, m - 1);
    if m == j + 1 {
      IdsCount(ss[..j]);
      SendWaits(Run(ss[..j]), ss[j].deadline);
      ExactlyOneAnswer(ss[..j]);
      NextId(Run(ss[..j]), ss[j]);
    } else {
      OpenWaits(ss, j, m - 1);
      ExactlyOneAnswer(ss[..m - 1]);
      var id := Sends(ss[..j]);
      StaysWaiting(Run(ss[..m - 1]), ss[m - 1], id, ss[j].deadline);
      AnswersStay(Run(ss[..m - 1]), ss[m - 1]);
      NextId(Run(ss[..m - 1]), ss[m - 1]);
    }
  }

  /** A result once handed out stays the result. */
  lemma {:induction false} AnswerStays(ss: seq<Step>, n: nat, m: nat, a: Answer)
    requires EnabledRun(ss) && n <= m <= |ss| && a in Run(ss[..n]).answers
    ensures a in Run(ss[..m]).answers
    decreases m
  {
    hide Run, EnabledRun, Enabled, Next, Inv;
    if n < m {
      AnswerStays(ss, n, m - 1, a);
      RunAt(ss, m - 1);
      ExactlyOneAnswer(ss[..m - 1]);
      AnswersStay(Run(ss[..m - 1]), ss[m - 1]);
    }
  }

  /** Step n is the first one after its Send, at moment j, that ends the wait of a request. */
  ghost predicate FirstEnd(ss: seq<Step>, j: nat, n: nat)
    requires j < |ss| && ss[j].Send?
  {
    j < n < |ss| && Open(ss, j, n) && Ends(ss[n], Sends(ss[..j]), ss[j].deadline)
  }

  lemma EndDecides(ss: seq<Step>, j: nat, n: nat)
    requires EnabledRun(ss) && j < |ss| && ss[j].Send? && FirstEnd(ss, j, n)
    ensures Answer(Sends(ss[..j]), Outcome(ss[n])) in Run(ss).answers
  {
    hide Run, EnabledRun, Enabled, Next, Inv, Ends, Open, Waiting, Outcome;
    OpenWaits(ss, j, n);
    RunAt(ss, n);
    ExactlyOneAnswer(ss[..n]);
    WaitEnds(Run(ss[..n]), ss[n], Sends(ss[..j]), ss[j].deadline);
    AnswerStays(ss, n + 1, |ss|, Answer(Sends(ss[..j]), Outcome(ss[n])));
    assert ss[..|ss|] == ss;
  }

  lemma SomeEnd(ss: seq<Step>, j: nat, m: nat) returns (n: nat)
    requires j < m <= |ss| && ss[j].Send? && !Open(ss, j, m)
    ensures FirstEnd(ss, j, n)
    decreases m
  {
    hide Ends;
    if Open(ss, j, m - 1) { n := m - 1; } else { n := SomeEnd(ss, j, m - 1); }
  }

  /**
   Every request is counted, and gets the outcome of the first step that ends its wait and no other; it is
   still waiting if and only if there is no such step.
   */
  lemma RequestFate(ss: seq<Step>, j: nat, h: How)
    requires EnabledRun(ss) && j < |ss| && ss[j].Send?
    ensures var id, b := Sends(ss[..j]), Run(ss);
      && id in b.asked
      && (id in b.waits <==> Open(ss, j, |ss|))
      && (Answer(id, h) in b.answers <==> exists n: nat :: FirstEnd(ss, j, n) && Outcome(ss[n]) == h)
  {
    hide Run, EnabledRun, Ends, Outcome, Open;
    var id := Sends(ss[..j]);
    var b := Run(ss);
    assert ss[..|ss|] == ss;
    ExactlyOneAnswer(ss);
    if Open(ss, j, |ss|) {
      OpenWaits(ss, j, |ss|);
      NoneYet(b, id, h);
      NoEnd(ss, j);
    } else {
      var n := SomeEnd(ss, j, |ss|);
      EndDecides(ss, j, n);
      OnlyAnswer(b, id, Outcome(ss[n]), h);
      forall l | FirstEnd(ss, j, l) ensures l == n { OneEnd(ss, j, l, n); }
    }
  }

  lemma NoneYet(b: Broker, id: nat, h: How)
    requires Inv(b) && id in b.waits
    ensures Answer(id, h) !in b.answers
  {
    hide Queued, HasEntry;
    assert forall i | 0 <= i < |b.answers| :: b.answers[i].tid in Answered(b.answers);
  }

  lemma OnlyAnswer(b: Broker, id: nat, g: How, h: How)
    requires Inv(b) && Answer(id, g) in b.answers
    ensures id in b.asked && id !in b.waits && (Answer(id, h) in b.answers <==> h == g)
  {
    hide Queued, HasEntry;
    var i :| 0 <= i < |b.answers| && b.answers[i] == Answer(id, g);
    assert b.answers[i].tid in Answered(b.answers);
    if Answer(id, h) in b.answers {
      var l :| 0 <= l < |b.answers| && b.answers[l] == Answer(id, h);
      assert i == l;
    }
  }

  lemma NoEnd(ss: seq<Step>, j: nat)
    requires j < |ss| && ss[j].Send? && Open(ss, j, |ss|)
    ensures forall n :: !FirstEnd(ss, j, n)
  {
    hide Ends;
  }

  lemma OneEnd(ss: seq<Step>, j: nat, l: nat, n: nat)
    requires j < |ss| && ss[j].Send? && FirstEnd(ss, j, l) && FirstEnd(ss, j, n)
    ensures l == n
  {
    hide Ends;
  }

  /**
   In the words of the protocol: a request gets the value of a response, a plain success or the reason of a
   failure if and only if a reply of that type with its id comes before any tick past its deadline, any other
   reply to it and the close; it times out if and only if such a tick comes first, and is dropped if and only
   if the close does.
   */
  lemma FateInWords(ss: seq<Step>, j: nat, value: Bytes)
    requires EnabledRun(ss) && j < |ss| && ss[j].Send?
    ensures var id, d, b := Sends(ss[..j]), ss[j].deadline, Run(ss);
      && (Answer(id, Replied(Value(value))) in b.answers <==> exists n: nat :: j < n < |ss| && ss[n] == Reply(id, 202, value) && Open(ss, j, n))
      && (Answer(id, Replied(Failed(value))) in b.answers <==> exists n: nat :: j < n < |ss| && ss[n] == Reply(id, 201, value) && Open(ss, j, n))
      && (Answer(id, Replied(Done)) in b.answers
          <==> exists n: nat :: j < n < |ss| && ss[n].Reply? && ss[n].id == id && ss[n].typ == 200 && Open(ss, j, n))
      && (Answer(id, TimedOut) in b.answers <==> exists n: nat :: j < n < |ss| && ss[n].Tick? && ss[n].now > d && Open(ss, j, n))
      && (Answer(id, BrokerSpec.Dropped) in b.answers <==> exists n: nat :: j < n < |ss| && ss[n].Close? && Open(ss, j, n))
  {
    hide Run, EnabledRun, Open, Sends;
    RequestFate(ss, j, Replied(Value(value)));
    RequestFate(ss, j, Replied(Failed(value)));
    RequestFate(ss, j, Replied(Done));
    RequestFate(ss, j, TimedOut);
    RequestFate(ss, j, BrokerSpec.Dropped);
  }

  /** One step of the broker object. */
  method Perform(b: Brokers.Broker, s: Step)
    requires b.Valid() && Enabled(b.View(), s) && b.tid + 1 < TWO32
    modifies b, b.pq, b.pq.nodes
    ensures b.Valid() && b.View() == Next(old(b.View()), s)
    ensures forall n | n in b.pq.nodes && n !in old(b.pq.nodes) :: fresh(n)
  {
    hide Inv, Next, Queue.Valid;
    match s
    case Send(d) => b.Send(d);
    case SendOnly => b.SendOnly();
    case Reply(id, typ, v) => b.Reply(id, typ, v);
    case Tick(now) => b.Tick(now);
    case Close => b.Close();
  }

  /** A broker driven through any interleaving hands out what the fates above say. */
  method Drive(ss: seq<Step>) returns (b: Brokers.Broker)
    requires EnabledRun(ss) && |ss| + 1 < TWO32
    ensures b.Valid() && b.View() == Run(ss)
  {
    hide Inv, Next, Queue.Valid, Run, EnabledRun, Enabled;
    b := new Brokers.Broker();
    var i := 0;
    RunNone(ss);
    while i < |ss|
      invariant 0 <= i <= |ss| && b.Valid() && b.View() == Run(ss[..i])
      invariant fresh(b) && fresh(b.pq) && fresh(set n | n in b.pq.nodes)
    {
      RunAt(ss, i);
      IdsCount(ss[..i]);
      SendsBound(ss[..i]);
      Perform(b, ss[i]);
      i := i + 1;
    }
    assert ss[..i] == ss;
  }

  lemma RunNone(ss: seq<Step>)
    ensures ss[..0] == [] && Run(ss[..0]) == INITIAL
  {}

  lemma {:induction false} SendsBound(ss: seq<Step>)
    ensures Sends(ss) <= |ss|
  {
    if ss != [] { SendsBound(ss[..|ss| - 1]); }
  }
}
