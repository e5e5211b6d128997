/** The broker of a client connection, over the linked timeout queue. */
module Brokers {
  import opened ByteStrings
  import opened TimeoutQueue
  import Spec = BrokerSpec

  class Broker {
    const pq: Queue
    var waits: set<nat>
    var tid: nat
    ghost var asked: set<nat>
    ghost var answers: seq<Spec.Answer>
    ghost var closed: bool

    ghost function View(): (b: Spec.Broker)
      reads this, pq, pq.nodes
    {
      Spec.Broker(pq.Entries(), waits, tid, asked, answers, closed)
    }

    ghost predicate Valid()
      reads this, pq, pq.nodes
    {
      pq.Valid() && Spec.Inv(View())
    }

    constructor ()
      ensures Valid() && View() == Spec.INITIAL && fresh(pq) && pq.nodes == []
    {
      pq := new Queue();
      waits, tid, asked, answers, closed := {}, 0, {}, [], false;
    }

    /** The sending side, for a message with a timeout; ids have 32 bits. */
    method Send(deadline: int)
      requires Valid() && tid + 1 < TWO32 && Spec.Enabled(View(), Spec.Send(deadline))
      modifies this, pq, pq.nodes
      ensures Valid() && View() == Spec.Next(old(View()), Spec.Send(deadline))
      ensures forall n | n in pq.nodes && n !in old(pq.nodes) :: fresh(n)
    {
      hide Inserted, Spec.Inv, Spec.Enabled, Queue.Chained, Sorted, EntriesOf;
      ghost var b := View();
      NotEarliest(deadline);
      var tm := new Node(deadline, tid);
      pq.Push(tm);
      waits := waits + {tid};
      asked := asked + {tid};
      tid := tid + 1;
      Spec.NextKeepsInv(b, Spec.Send(deadline));
    }

    /** The condition of the queue, in terms of its head. */
    lemma NotEarliest(deadline: int)
      requires Valid() && Spec.Enabled(View(), Spec.Send(deadline))
      ensures pq.l == 0 || (pq.head != null && pq.head.t <= deadline)
    {
      hide Spec.Inv, Queue.Chained, Sorted;
      if pq.l > 0 { pq.HeadIsEarliest(pq.l - 1); }
    }

    /** The sending side, for a message nobody waits for. */
    method SendOnly()
      requires Valid() && tid + 1 < TWO32 && !closed
      modifies this`tid
      ensures Valid() && View() == Spec.Next(old(View()), Spec.SendOnly)
    {
      Spec.NextKeepsInv(View(), Spec.SendOnly);
      tid := tid + 1;
    }

    /** The receiving side: an id nobody waits for was already timed out. */
    method Reply(id: nat, typ: byte, value: Bytes)
      requires Valid()
      modifies this`waits, this`answers
      ensures Valid() && View() == Spec.Next(old(View()), Spec.Reply(id, typ, value))
      ensures id !in waits
      ensures id in old(waits) ==> |answers| == |old(answers)| + 1 && old(answers) < answers && answers[|old(answers)|].tid == id
      ensures id in old(waits) && typ == 202 ==> answers[|old(answers)|].how == Spec.Replied(Spec.Value(value))
      ensures id !in old(waits) ==> answers == old(answers)
    {
      hide Spec.Inv, Queue.Chained, Sorted, EntriesOf;
      Spec.NextKeepsInv(View(), Spec.Reply(id, typ, value));
      if id in waits {
        var result;
        match typ {
          case 202 => result := Spec.Value(value);
          case 200 => result := Spec.Done;
          case 201 => result := Spec.Failed(value);
          case _ => result := Spec.Invalid(typ);
        }
        waits := waits - {id};
        answers := answers + [Spec.Answer(id, Spec.Replied(result))];
      }
    }

    /** The ticker: timed out requests get their error, earliest deadline first. */
    method Tick(now: int)
      requires Valid()
      modifies this, pq, pq.nodes
      ensures Valid() && View() == Spec.Next(old(View()), Spec.Tick(now)) && pq.nodes <= old(pq.nodes)
    {
      hide Kept, Backwards, Spec.Inv, Queue.Chained, Sorted, Spec.Finish;
      ghost var b := View();
      Spec.NextKeepsInv(b, Spec.Tick(now));
      var expired := pq.Clean(now);
      Finish(expired, Spec.TimedOut);
    }

    /** The close: whoever still waits gets an error. */
    method Close()
      requires Valid() && !closed
      modifies this, pq, pq.nodes
      ensures Valid() && View() == Spec.Next(old(View()), Spec.Close) && waits == {} && pq.nodes == []
    {
      hide Backwards, Spec.Inv, Queue.Chained, Sorted, Spec.Finish;
      ghost var b := View();
      Spec.CloseKeepsInv(b);
      var all := pq.Drain();
      closed := true;
      Finish(all, Spec.Dropped);
    }

    method Finish(es: seq<Entry>, how: Spec.How)
      modifies this`waits, this`answers
      ensures View() == Spec.Finish(old(View()), es, how)
    {
      var i := 0;
      ghost var b := View();
      assert es[0..] == es;
      while i < |es|
        invariant 0 <= i <= |es| && Spec.Finish(View(), es[i..], how) == Spec.Finish(b, es, how)
      {
        assert es[i..][1..] == es[i + 1..];
        if es[i].tid in waits {
          waits := waits - {es[i].tid};
          answers := answers + [Spec.Answer(es[i].tid, how)];
        }
        i := i + 1;
      }
    }
  }
}
