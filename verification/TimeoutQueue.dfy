/** The doubly linked queue of deadlines: latest at the tail, earliest at the head. */
module TimeoutQueue {

  datatype Entry = Entry(t: int, tid: nat)

  /** Deadlines never increase from tail to head. */
  ghost predicate Sorted(es: seq<Entry>)
  {
    forall i, j | 0 <= i < j < |es| :: es[i].t >= es[j].t
  }

  /** The first place, from the tail, whose deadline is not later than t. */
  function Place(es: seq<Entry>, t: int): (k: nat)
    ensures k <= |es|
    ensures forall i | 0 <= i < k :: es[i].t > t
    ensures k < |es| ==> es[k].t <= t
  {
    if es == [] || es[0].t <= t then 0 else 1 + Place(es[1..], t)
  }

  function Inserted(es: seq<Entry>, e: Entry): (r: seq<Entry>)
  {
    es[..Place(es, e.t)] + [e] + es[Place(es, e.t)..]
  }

  lemma InsertedSorted(es: seq<Entry>, e: Entry)
    requires Sorted(es)
    ensures Sorted(Inserted(es, e))
  {
    var k, r := Place(es, e.t), Inserted(es, e);
    forall i, j | 0 <= i < j < |r| ensures r[i].t >= r[j].t {
      assert r[i] == if i < k then es[i] else if i == k then e else es[i - 1];
      assert r[j] == if j < k then es[j] else if j == k then e else es[j - 1];
    }
  }

  /** Nothing is lost and nothing else appears. */
  lemma InsertedContents(es: seq<Entry>, e: Entry)
    ensures multiset(Inserted(es, e)) == multiset(es) + multiset{e}
  {
    hide Place;
    var k := Place(es, e.t);
    assert es == es[..k] + es[k..];
  }

  /** First in, first out on equal deadlines: the new entry is further from the head than its equals. */
  lemma InsertedFifo(es: seq<Entry>, e: Entry, i: nat)
    requires Sorted(es) && i < |es| && es[i].t == e.t
    ensures Place(es, e.t) <= i && Inserted(es, e)[Place(es, e.t)] == e && Inserted(es, e)[i + 1] == es[i]
  {}

  /** How many entries, counted from the tail, have not expired: their deadline is not before now. */
  function Kept(es: seq<Entry>, now: int): (k: nat)
    ensures k <= |es|
  {
    if es == [] then 0 else if es[|es| - 1].t >= now then |es| else Kept(es[..|es| - 1], now)
  }

  lemma {:induction false} KeptExact(es: seq<Entry>, now: int)
    requires Sorted(es)
    ensures forall i | 0 <= i < |es| :: i < Kept(es, now) <==> es[i].t >= now
  {
    if es != [] && es[|es| - 1].t < now {
      KeptExact(es[..|es| - 1], now);
    }
  }

  function Backwards(es: seq<Entry>): (r: seq<Entry>)
    ensures |r| == |es| && forall i | 0 <= i < |es| :: r[i] == es[|es| - 1 - i]
  {
    if es == [] then [] else [es[|es| - 1]] + Backwards(es[..|es| - 1])
  }

  lemma PushedAlone(e: Entry)
    ensures Inserted([], e) == [e] && Sorted([e])
  {}

  /** An entry put where the search stopped is where it belongs. */
  lemma PushedAt(es: seq<Entry>, e: Entry, k: nat, r: seq<Entry>)
    requires Sorted(es) && k < |es| && es[k].t <= e.t && forall i | 0 <= i < k :: es[i].t > e.t
    requires |r| == |es| + 1 && r[k] == e
    requires (forall i | 0 <= i < k :: r[i] == es[i]) && forall i | k < i < |r| :: r[i] == es[i - 1]
    ensures r == Inserted(es, e) && Sorted(r)
  {
    assert Place(es, e.t) == k;
    InsertedSorted(es, e);
  }

  lemma BackwardsNone(es: seq<Entry>)
    ensures Backwards(es[|es|..]) == []
  {}

  /** Taking entry l - 1 out after the entries behind it. */
  lemma BackwardsStep(es: seq<Entry>, l: nat)
    requires 0 < l <= |es|
    ensures Backwards(es[l - 1..]) == Backwards(es[l..]) + [es[l - 1]]
  {}

  lemma KeptStep(es: seq<Entry>, l: nat, now: int)
    requires 0 < l <= |es|
    ensures es[l - 1].t < now ==> Kept(es[..l], now) == Kept(es[..l - 1], now)
    ensures es[l - 1].t >= now ==> Kept(es[..l], now) == l
    ensures Backwards(es[l - 1..]) == Backwards(es[l..]) + [es[l - 1]]
    ensures es[..l][..l - 1] == es[..l - 1]
  {
    BackwardsStep(es, l);
    assert es[..l][..l - 1] == es[..l - 1];
  }

  lemma KeptZero(es: seq<Entry>, l: nat, now: int)
    requires l <= |es| && l == 0
    ensures Kept(es[..l], now) == 0
  {}

  lemma NoneSorted()
    ensures Sorted([])
  {}

  lemma SortedPrefix(es: seq<Entry>, n: nat)
    requires Sorted(es) && n <= |es|
    ensures Sorted(es[..n])
  {}

  class Node {
    var t: int
    var tid: nat
    var prev: Node?
    var next: Node?

    constructor (t: int, tid: nat)
      ensures this.t == t && this.tid == tid && prev == null && next == null
    {
      this.t, this.tid, prev, next := t, tid, null, null;
    }
  }

  ghost function EntriesOf(nodes: seq<Node>): (es: seq<Entry>)
    reads nodes
    ensures |es| == |nodes| && forall i | 0 <= i < |nodes| :: es[i] == Entry(nodes[i].t, nodes[i].tid)
  {
    if nodes == [] then [] else EntriesOf(nodes[..|nodes| - 1]) + [Entry(nodes[|nodes| - 1].t, nodes[|nodes| - 1].tid)]
  }

  class Queue {
    var head: Node?
    var tail: Node?
    var l: nat
    ghost var nodes: seq<Node>   // from tail to head

    ghost predicate NextIs(i: nat)
      requires i < |nodes|
      reads this`nodes, nodes
    {
      nodes[i].next == if i + 1 < |nodes| then nodes[i + 1] else null
    }

    ghost predicate PrevIs(i: nat)
      requires i < |nodes|
      reads this`nodes, nodes
    {
      nodes[i].prev == if i > 0 then nodes[i - 1] else null
    }

    /** The links between the nodes, and the two ends. */
    ghost predicate Chained()
      reads this`head, this`tail, this`nodes, nodes
    {
      && (forall i, j | 0 <= i < j < |nodes| :: nodes[i] != nodes[j])
      && (|nodes| == 0 ==> head == null && tail == null)
      && (|nodes| > 0 ==> tail == nodes[0] && head == nodes[|nodes| - 1])
      && (forall i | 0 <= i < |nodes| :: NextIs(i))
      && (forall i | 0 <= i < |nodes| :: PrevIs(i))
    }

    ghost function Entries(): (es: seq<Entry>)
      reads this`nodes, nodes
      ensures |es| == |nodes| && forall i | 0 <= i < |nodes| :: es[i] == Entry(nodes[i].t, nodes[i].tid)
    {
      EntriesOf(nodes)
    }

    ghost predicate Valid()
      reads this, nodes
    {
      l == |nodes| && Chained() && Sorted(Entries())
    }

    constructor ()
      ensures Valid() && nodes == []
    {
      head, tail, l, nodes := null, null, 0, [];
    }

    /**
     Going back from the head one meets only ns, one node less than the queue counts: the old head is cut
     off. It and the new head point at each other, so a search for a still earlier deadline never ends.
     */
    ghost predicate Severed(ns: seq<Node>)
      reads this`head, this`l, ns
    {
      && |ns| > 0 && l == |ns| + 1 && head == ns[|ns| - 1]
      && (forall i, j | 0 <= i < j < |ns| :: ns[i] != ns[j])
      && forall i | 0 <= i < |ns| :: Back(ns, i)
    }

    static ghost predicate Back(ns: seq<Node>, i: nat)
      requires i < |ns|
      reads ns
    {
      ns[i].prev == if i > 0 then ns[i - 1] else null
    }

    /** The search of `push`: from the tail to the first node that is not later, or to the head. */
    method Search(t: int) returns (x: Node, ghost k: nat)
      requires Chained() && |nodes| > 0
      ensures k < |nodes| && x == nodes[k]
      ensures forall i | 0 <= i < k :: nodes[i].t > t
      ensures x.t > t ==> k + 1 == |nodes|
    {
      x, k := tail, 0;
      while x.next != null && x.t > t
        invariant k < |nodes| && x == nodes[k]
        invariant forall i | 0 <= i < k :: nodes[i].t > t
        decreases |nodes| - k
      {
        assert NextIs(k);
        x, k := x.next, k + 1;
      }
      assert NextIs(k);
    }

    /**
     `push`. The branch for the earliest deadline of all falls through into the general case: the queue
     stays sound exactly when the new deadline is not before the earliest one queued.
     */
    method Push(tm: Node)
      requires Valid() && tm !in nodes && tm.next == null && tm.prev == null
      modifies this, nodes, tm
      ensures tm.t == old(tm.t) && tm.tid == old(tm.tid)
      ensures old(l == 0 || head.t <= tm.t) ==> Valid() && Entries() == Inserted(old(Entries()), Entry(tm.t, tm.tid))
      ensures old(l == 0 || head.t <= tm.t) ==> forall n :: n in nodes <==> n in old(nodes) || n == tm
      ensures !old(l == 0 || head.t <= tm.t) ==>
        && head == tm && tm.next == old(head) && old(head).next == tm
        && Severed(old(nodes)[..|old(nodes)| - 1] + [tm]) && forall n | n in old(nodes) :: n.t == old(n.t)
    {
      hide Inserted, Sorted, Queue.Chained;
      l := l + 1;
      if l == 1 {
        PushFirst(tm);
        return;
      }
      var x, k := Search(tm.t);
      HeadIsEarliest(k);
      if x.next == null && x.t > tm.t {
        PushEarliest(tm, x, k);
      } else {
        PushInOrder(tm, x, k);
      }
    }

    method PushFirst(tm: Node)
      requires nodes == [] && tm.next == null && tm.prev == null
      modifies this`head, this`tail, this`nodes
      ensures Chained() && nodes == [tm] && Sorted(Entries()) && Entries() == Inserted([], Entry(tm.t, tm.tid))
    {
      tail, head := tm, tm;
      nodes := [tm];
      PushedAlone(Entry(tm.t, tm.tid));
    }

    lemma HeadIsEarliest(k: nat)
      requires Chained() && Sorted(Entries()) && k < |nodes|
      ensures head == nodes[|nodes| - 1] && head.t <= nodes[k].t && (nodes[k].next == null <==> k + 1 == |nodes|)
    {
      assert NextIs(k);
      assert Entries()[k].t >= Entries()[|nodes| - 1].t;
    }

    method PushInOrder(tm: Node, x: Node, ghost k: nat)
      requires Chained() && Sorted(Entries()) && k < |nodes| && x == nodes[k] && tm !in nodes
      requires x.t <= tm.t && forall i | 0 <= i < k :: nodes[i].t > tm.t
      modifies nodes, tm, this`tail, this`nodes
      ensures Chained() && Sorted(Entries()) && |nodes| == |old(nodes)| + 1
      ensures Entries() == Inserted(old(Entries()), Entry(tm.t, tm.tid))
      ensures forall n :: n in nodes <==> n in old(nodes) || n == tm
      ensures tm.t == old(tm.t) && tm.tid == old(tm.tid)
    {
      hide Inserted, Sorted, Queue.Chained;
      ghost var es, ns := Entries(), nodes;
      PushChained(tm, x, k);
      PushedAt(es, Entry(tm.t, tm.tid), k, Entries());
      assert ns == ns[..k] + ns[k..];
    }

    /** The head branch followed by the general case: the old head and tm now point at each other. */
    method PushEarliest(tm: Node, x: Node, ghost k: nat)
      requires Chained() && k + 1 == |nodes| && x == nodes[k] && tm !in nodes
      modifies nodes, tm, this`head, this`tail
      ensures tm.t == old(tm.t) && tm.tid == old(tm.tid)
      ensures head == tm && tm.next == x && x.next == tm
      ensures l == |nodes| + 1 ==> Severed(old(nodes)[..k] + [tm])
      ensures forall n | n in old(nodes) :: n.t == old(n.t)
    {
      assert PrevIs(k);
      ghost var ns := nodes[..k] + [tm];
      head := tm;
      x.next := tm;
      tm.prev := x;
      InsertBefore(tm, x);
      forall i | 0 <= i < |ns| ensures Back(ns, i) {
        if i < k { assert old(PrevIs(i)); }
      }
    }

    method PushChained(tm: Node, x: Node, ghost k: nat)
      requires Chained() && k < |nodes| && x == nodes[k] && tm !in nodes
      modifies nodes, tm, this`tail, this`nodes
      ensures Chained() && nodes == old(nodes)[..k] + [tm] + old(nodes)[k..]
      ensures tm.t == old(tm.t) && tm.tid == old(tm.tid)
      ensures forall n | n in old(nodes) :: n.t == old(n.t) && n.tid == old(n.tid)
    {
      assert PrevIs(k);
      InsertBefore(tm, x);
      nodes := nodes[..k] + [tm] + nodes[k..];
      forall i | 0 <= i < |nodes| ensures NextIs(i) {
        if i < k { assert old(NextIs(i)); } else if i > k { assert old(NextIs(i - 1)); }
      }
      forall i | 0 <= i < |nodes| ensures PrevIs(i) {
        if i < k { assert old(PrevIs(i)); } else if i > k { assert old(PrevIs(i - 1)); }
      }
    }

    /** The general case: links tm between x and the node before it. */
    method InsertBefore(tm: Node, x: Node)
      requires tm != x && x.prev != x && x.prev != tm
      modifies x`prev, tm`next, tm`prev, this`tail, if x.prev != null then {x.prev} else {}
      ensures x.prev == tm && tm.next == x && tm.prev == old(x.prev)
      ensures old(x.prev) != null ==> old(x.prev).next == tm && tail == old(tail)
      ensures old(x.prev) != null ==> old(x.prev).prev == old(x.prev.prev) && old(x.prev).t == old(x.prev.t)
      ensures old(x.prev) != null ==> old(x.prev).tid == old(x.prev.tid)
      ensures old(x.prev) == null ==> tail == tm
    {
      var prev := x.prev;
      x.prev := tm;
      tm.next := x;
      tm.prev := prev;
      if prev != null {
        prev.next := tm;
      } else {
        tail := tm;
      }
    }

    /** `clean` after that, once every deadline has passed: it runs out of nodes, and dereferences nil. */
    method CleanSevered(now: int, ghost ns: seq<Node>) returns (panicked: bool)
      requires Severed(ns) && forall i | 0 <= i < |ns| :: ns[i].t < now
      modifies this`head, this`tail, this`l, ns
      ensures panicked
    {
      ghost var m := |ns|;
      while l > 0
        invariant 0 < m <= |ns| && l == m + 1 && head == ns[m - 1]
        invariant forall i | 0 <= i < m :: Back(ns, i)
        invariant forall i | 0 <= i < |ns| :: ns[i].t < now
        decreases l
      {
        label turn:
        var f := head;
        assert Back(ns, m - 1);
        if !(now > f.t) {
          break;
        }
        head := f.prev;
        l := l - 1;
        if head == null {
          return true;   // l is 1 here, and the next of the head is written
        }
        head.next := null;
        tail := if l == 1 then head else tail;
        f.next := null;
        f.prev := null;
        m := m - 1;
        forall i | 0 <= i < m ensures Back(ns, i) { assert old@turn(Back(ns, i)); }
      }
      panicked := false;
    }

    /** A push before the earliest deadline queued, then a tick after the last: a panic. */
    method PushEarliestPanics(tm: Node, now: int) returns (panicked: bool)
      requires Valid() && l > 0 && tm !in nodes && tm.next == null && tm.prev == null && tm.t < head.t
      requires tm.t < now && forall n | n in nodes :: n.t < now
      modifies this, nodes, tm
      ensures panicked
    {
      hide Queue.Valid, Queue.Severed;
      assert |nodes| == l && head != null by { HeadExists(); }
      ghost var ns := nodes[..|nodes| - 1] + [tm];
      Push(tm);
      panicked := CleanSevered(now, ns);
    }

    lemma HeadExists()
      requires Valid()
      ensures |nodes| == l && (l > 0 ==> head != null)
    {}

    /** Unlinks the node with the earliest deadline. */
    method PopHead() returns (f: Node)
      requires Valid() && l > 0
      modifies this`head, this`tail, this`l, this`nodes, nodes
      ensures Valid() && nodes == old(nodes)[..|old(nodes)| - 1]
      ensures f == old(nodes)[|old(nodes)| - 1] && f.next == null && f.prev == null
      ensures forall n | n in old(nodes) :: n.t == old(n.t) && n.tid == old(n.tid)
    {
      hide Sorted;
      ghost var n := |nodes| - 1;
      assert PrevIs(n);
      f := head;
      head := f.prev;
      l := l - 1;
      if l == 1 {
        head.next := null;
        tail := head;
      } else if l > 1 {
        head.next := null;
      } else {
        head := null;
        tail := null;
      }
      f.next := null;
      f.prev := null;
      nodes := nodes[..n];
      forall i | 0 <= i < |nodes| ensures NextIs(i) && PrevIs(i) {
        assert old(NextIs(i)) && old(PrevIs(i));
      }
      assert Entries() == old(Entries())[..n];
      assert Sorted(Entries()) by { SortedPrefix(old(Entries()), n); }
    }

    /** `clean`: takes out exactly the expired entries, earliest deadline first. */
    method Clean(now: int) returns (expired: seq<Entry>)
      requires Valid()
      modifies this`head, this`tail, this`l, this`nodes, nodes
      ensures Valid() && nodes <= old(nodes)
      ensures Entries() == old(Entries())[..Kept(old(Entries()), now)]
      ensures expired == Backwards(old(Entries())[Kept(old(Entries()), now)..])
    {
      hide Sorted, Queue.Chained, Kept, Backwards;
      expired := [];
      ghost var es := Entries();
      assert es[..|es|] == es;
      BackwardsNone(es);
      while l > 0
        invariant Valid() && nodes <= old(nodes) && Entries() == es[..l] && l <= |es|
        invariant expired == Backwards(es[l..]) && Kept(es[..l], now) == Kept(es, now)
        decreases l
      {
        HeadIsEarliest(l - 1);
        KeptStep(es, l, now);
        if now > head.t {
          var f := PopHead();
          expired := expired + [Entry(f.t, f.tid)];
        } else {
          break;
        }
      }
      if l == 0 { KeptZero(es, l, now); }
    }

    /** While the queue is being drained only the back links of the remaining nodes matter. */
    ghost predicate Draining()
      reads this, nodes
    {
      && (forall i, j | 0 <= i < j < |nodes| :: nodes[i] != nodes[j])
      && l <= |nodes| && (l > 0 ==> head == nodes[l - 1])
      && forall i | 0 <= i < l :: PrevIs(i)
    }

    method DrainHead() returns (e: Entry)
      requires Draining() && l > 0
      modifies this`head, this`l, nodes
      ensures Draining() && l == old(l) - 1 && e == old(Entries())[l] && Entries() == old(Entries())
    {
      assert PrevIs(l - 1);
      var f := head;
      e := Entry(f.t, f.tid);
      head := f.prev;
      f.next := null;
      f.prev := null;
      l := l - 1;
      forall i | 0 <= i < l ensures PrevIs(i) {
        assert old(PrevIs(i));
      }
    }

    /** `forall`, on closing: every entry, earliest deadline first, and an empty queue. */
    method Drain() returns (all: seq<Entry>)
      requires Valid()
      modifies this`head, this`tail, this`l, this`nodes, nodes
      ensures Valid() && nodes == [] && all == Backwards(old(Entries()))
    {
      hide Sorted, Backwards, Queue.Draining, EntriesOf;
      all := [];
      ghost var es := Entries();
      assert es[0..] == es;
      BackwardsNone(es);
      StartsDraining();
      while l > 0
        invariant l <= |es| && nodes == old(nodes) && Draining() && Entries() == es
        invariant all == Backwards(es[l..])
        decreases l
      {
        BackwardsStep(es, l);
        var e := DrainHead();
        all := all + [e];
      }
      head, tail, nodes := null, null, [];
      NoneSorted();
    }

    lemma StartsDraining()
      requires Valid()
      ensures Draining()
    {
      hide Sorted;
    }
  }
}
