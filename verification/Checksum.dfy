/** The running checksum with its three time windows. */
module Checksum {
  import opened ByteStrings

  const SECOND: nat := 1_000_000_000
  /** The zero `time.Time` (1 January of year 1), in nanoseconds from the Unix epoch. */
  const ZERO_TIME: int := -62_135_596_800 * 1_000_000_000

  datatype Sums = Sums(newSum: u64, mediumSum: u64, oldSum: u64, newTime: int, mediumTime: int, oldTime: int)

  const FRESH: Sums := Sums(0, 0, 0, ZERO_TIME, ZERO_TIME, ZERO_TIME)

  function Plus(a: u64, b: u64): (c: u64)
  {
    (a + b) % TWO64
  }

  /** `-el` on 64-bit words. */
  function Neg(el: u64): (c: u64)
  {
    (TWO64 - el) % TWO64
  }

  /** The first whole second after t: `time.Unix(t.Unix()+1, 0)`. */
  function NextSecond(t: int): (b: int)
    ensures t < b <= t + SECOND
  {
    (t / SECOND + 1) * SECOND
  }

  /** An event later than every boundary moves the windows forward. */
  function Advance(s: Sums, t: int): (r: Sums)
  {
    if t > s.newTime then
      Sums(s.newSum, s.newSum, s.mediumSum, NextSecond(t), s.newTime, s.mediumTime)
    else s
  }

  /** The windows after an event of weight el at time t. */
  function AddEvent(s: Sums, el: u64, t: int): (r: Sums)
    ensures r.newSum == Plus(s.newSum, el)
  {
    var a := Advance(s, t);
    a.(newSum := Plus(a.newSum, el),
       mediumSum := if t < a.mediumTime then Plus(a.mediumSum, el) else a.mediumSum,
       oldSum := if t < a.oldTime then Plus(a.oldSum, el) else a.oldSum)
  }

  class SyncChecksum {
    var newChecksum: u64
    var mediumChecksum: u64
    var oldChecksum: u64
    var newTime: int
    var mediumTime: int
    var oldTime: int

    ghost function View(): (s: Sums)
      reads this
    {
      Sums(newChecksum, mediumChecksum, oldChecksum, newTime, mediumTime, oldTime)
    }

    constructor ()
      ensures View() == FRESH
    {
      newChecksum, mediumChecksum, oldChecksum := 0, 0, 0;
      newTime, mediumTime, oldTime := ZERO_TIME, ZERO_TIME, ZERO_TIME;
    }

    method Sum(el: u64, t: int)
      modifies this
      ensures View() == AddEvent(old(View()), el, t)
    {
      if t > newTime {
        oldTime := mediumTime;
        mediumTime := newTime;
        newTime := (t / SECOND + 1) * SECOND;
        oldChecksum := mediumChecksum;
        mediumChecksum := newChecksum;
      }
      newChecksum := (newChecksum + el) % TWO64;
      if t < mediumTime {
        mediumChecksum := (mediumChecksum + el) % TWO64;
      }
      if t < oldTime {
        oldChecksum := (oldChecksum + el) % TWO64;
      }
    }

    method Sub(el: u64, t: int)
      modifies this
      ensures View() == AddEvent(old(View()), Neg(el), t)
    {
      Sum(Neg(el), t);
    }

    /** `checksum`: moves the windows to the present, then reads the oldest one. */
    method Read(now: int) returns (c: u64)
      modifies this
      ensures View() == AddEvent(old(View()), 0, now)
      ensures c == View().oldSum
    {
      Sum(0, now);
      c := oldChecksum;
    }
  }

  // Runs of events.

  datatype Event = Event(el: u64, t: int)

  /** The windows after a run of events, in order of arrival. */
  function After(es: seq<Event>): (s: Sums)
  {
    if es == [] then FRESH
    else AddEvent(After(es[..|es| - 1]), es[|es| - 1].el, es[|es| - 1].t)
  }

  function SumAll(es: seq<Event>): (n: nat)
  {
    if es == [] then 0 else SumAll(es[..|es| - 1]) + es[|es| - 1].el
  }

  function SumBefore(es: seq<Event>, b: int): (n: nat)
  {
    if es == [] then 0
    else SumBefore(es[..|es| - 1], b) + if es[|es| - 1].t < b then es[|es| - 1].el else 0
  }

  /** The events whose time is exactly b and that arrived while b was the newest boundary. */
  function SumOn(es: seq<Event>, b: int): (n: nat)
  {
    if es == [] then 0
    else
      var init, e := es[..|es| - 1], es[|es| - 1];
      SumOn(init, b) + if e.t == b && After(init).newTime == b then e.el else 0
  }

  ghost predicate AllUpTo(es: seq<Event>, b: int)
  {
    forall i | 0 <= i < |es| :: es[i].t <= b
  }

  ghost predicate RealTimes(es: seq<Event>)
  {
    forall i | 0 <= i < |es| :: es[i].t > ZERO_TIME
  }

  lemma {:induction false} AllEarlier(es: seq<Event>, b: int)
    requires forall i | 0 <= i < |es| :: es[i].t < b
    ensures SumBefore(es, b) == SumAll(es) && SumOn(es, b) == 0
  {
    if es != [] { AllEarlier(es[..|es| - 1], b); }
  }

  ghost predicate Ordered(s: Sums)
  {
    && ZERO_TIME <= s.oldTime <= s.mediumTime <= s.newTime
    && (s.mediumTime == s.newTime ==> s.newTime == ZERO_TIME)
    && (s.oldTime == s.mediumTime ==> s.mediumTime == ZERO_TIME)
  }

  lemma {:induction false} TimesAfter(es: seq<Event>)
    requires RealTimes(es)
    ensures Ordered(After(es)) && AllUpTo(es, After(es).newTime)
  {
    if es != [] {
      var init := es[..|es| - 1];
      TimesAfter(init);
      forall i | 0 <= i < |es| ensures es[i].t <= After(es).newTime {
        if i < |init| { assert init[i] == es[i]; }
      }
    }
  }

  /** Every event is counted before the newest boundary, or arrived exactly on it. */
  lemma {:induction false} NewestSplit(es: seq<Event>)
    requires RealTimes(es)
    ensures SumAll(es) == SumBefore(es, After(es).newTime) + SumOn(es, After(es).newTime)
  {
    if es != [] {
      var init, e := es[..|es| - 1], es[|es| - 1];
      TimesAfter(init);
      TimesAfter(es);
      if e.t > After(init).newTime {
        forall i | 0 <= i < |es| ensures es[i].t < After(es).newTime {
          if i < |init| { assert init[i] == es[i]; }
        }
        AllEarlier(es, After(es).newTime);
      } else {
        NewestSplit(init);
      }
    }
  }

  lemma PlusMod(n: nat, el: u64)
    ensures Plus(n % TWO64, el) == (n + el) % TWO64
  {}

  lemma {:induction false} NewExact(es: seq<Event>)
    ensures After(es).newSum == SumAll(es) % TWO64
  {
    if es != [] {
      NewExact(es[..|es| - 1]);
      PlusMod(SumAll(es[..|es| - 1]), es[|es| - 1].el);
    }
  }

  lemma {:induction false} MediumExact(es: seq<Event>)
    requires RealTimes(es)
    ensures After(es).mediumSum
         == (SumBefore(es, After(es).mediumTime) + SumOn(es, After(es).mediumTime)) % TWO64
  {
    if es != [] {
      var init, e := es[..|es| - 1], es[|es| - 1];
      var s := After(init);
      TimesAfter(init);
      if e.t > s.newTime {
        NewExact(init);
        NewestSplit(init);
      } else {
        hide Plus;
        MediumExact(init);
        PlusMod(SumBefore(init, s.mediumTime) + SumOn(init, s.mediumTime), e.el);
      }
    }
  }

  /** The exact meaning of the checksum a replica reports, for every run of events. */
  lemma {:induction false} OldExact(es: seq<Event>)
    requires RealTimes(es)
    ensures After(es).oldSum == (SumBefore(es, After(es).oldTime) + SumOn(es, After(es).oldTime)) % TWO64
  {
    if es != [] {
      var init, e := es[..|es| - 1], es[|es| - 1];
      var s := After(init);
      TimesAfter(init);
      if e.t > s.newTime {
        MediumExact(init);
      } else {
        hide Plus;
        OldExact(init);
        PlusMod(SumBefore(init, s.oldTime) + SumOn(init, s.oldTime), e.el);
      }
    }
  }

  /** It is the sum of the events before `oldTime` exactly when those that fell on that boundary cancel out. */
  lemma OldChecksumExactlyWhen(es: seq<Event>)
    requires RealTimes(es)
    ensures After(es).oldSum == SumBefore(es, After(es).oldTime) % TWO64
       <==> SumOn(es, After(es).oldTime) % TWO64 == 0
  {
    OldExact(es);
    ModShift(SumBefore(es, After(es).oldTime), SumOn(es, After(es).oldTime));
  }

  lemma ModShift(a: nat, b: nat)
    ensures (a + b) % TWO64 == a % TWO64 <==> b % TWO64 == 0
  {}

  /** No event that weighs anything arrives with the time of the boundary in force. */
  ghost predicate OffBoundary(es: seq<Event>)
  {
    forall i | 0 <= i < |es| :: es[i].el != 0 ==> es[i].t != After(es[..i]).newTime
  }

  lemma {:induction false} NothingOnBoundary(es: seq<Event>, b: int)
    requires OffBoundary(es)
    ensures SumOn(es, b) == 0
  {
    if es != [] {
      var n := |es| - 1;
      assert es[n].el != 0 ==> es[n].t != After(es[..n]).newTime;
      assert forall i | 0 <= i < n :: es[..n][..i] == es[..i];
      NothingOnBoundary(es[..n], b);
    }
  }

  /** The checksum a replica reports is the sum of exactly the events before `oldTime`. */
  lemma OldChecksumIsStable(es: seq<Event>)
    requires RealTimes(es) && OffBoundary(es)
    ensures After(es).oldSum == SumBefore(es, After(es).oldTime) % TWO64
  {
    hide *;
    OldExact(es);
    NothingOnBoundary(es, After(es).oldTime);
  }

  // The sum before a time does not depend on the order of arrival.

  lemma {:induction false} SumBeforeInsert(a: seq<Event>, e: Event, c: seq<Event>, b: int)
    ensures SumBefore(a + [e] + c, b) == SumBefore(a + c, b) + if e.t < b then e.el else 0
    decreases |c|
  {
    if c == [] {
      assert a + [e] + c == a + [e];
      assert (a + [e])[..|a|] == a;
      assert a + c == a;
    } else {
      var d, l := c[..|c| - 1], c[|c| - 1];
      SumBeforeInsert(a, e, d, b);
      assert a + [e] + c == (a + [e] + d) + [l];
      assert a + c == (a + d) + [l];
      SumBeforeSnoc(a + [e] + d, l, b);
      SumBeforeSnoc(a + d, l, b);
    }
  }

  lemma SumBeforeSnoc(a: seq<Event>, e: Event, b: int)
    ensures SumBefore(a + [e], b) == SumBefore(a, b) + if e.t < b then e.el else 0
  {
    assert (a + [e])[..|a|] == a;
  }

  lemma WithoutOne(fs: seq<Event>, j: nat)
    requires j < |fs|
    ensures fs == fs[..j] + [fs[j]] + fs[j + 1..]
    ensures multiset(fs[..j] + fs[j + 1..]) == multiset(fs) - multiset{fs[j]}
  {
    assert fs == fs[..j] + [fs[j]] + fs[j + 1..];
  }

  lemma {:induction false} SumBeforePermuted(es: seq<Event>, fs: seq<Event>, b: int)
    requires multiset(es) == multiset(fs)
    ensures SumBefore(es, b) == SumBefore(fs, b)
    decreases |es|
  {
    hide SumBefore;
    assert |es| == |multiset(es)| == |multiset(fs)| == |fs|;
    if es == [] {
      assert fs == [];
    } else {
      var init, e := es[..|es| - 1], es[|es| - 1];
      assert es == init + [e];
      SumBeforeSnoc(init, e, b);
      assert e in multiset(fs);
      var j :| 0 <= j < |fs| && fs[j] == e;
      var a, c := fs[..j], fs[j + 1..];
      assert multiset(init) == multiset(es) - multiset{e};
      WithoutOne(fs, j);
      SumBeforePermuted(init, a + c, b);
      SumBeforeInsert(a, e, c, b);
    }
  }

  /** Two replicas that saw the same events, in any order, and stand at the same `oldTime` report the same checksum. */
  lemma ReplicasAgreeOffBoundary(es: seq<Event>, fs: seq<Event>)
    requires RealTimes(es) && OffBoundary(es)
    requires RealTimes(fs) && OffBoundary(fs)
    requires multiset(es) == multiset(fs)
    requires After(es).oldTime == After(fs).oldTime
    ensures After(es).oldSum == After(fs).oldSum
  {
    hide *;
    OldChecksumIsStable(es);
    OldChecksumIsStable(fs);
    SumBeforePermuted(es, fs, After(es).oldTime);
  }

  /** No event that weighs anything has a time on a whole second, whatever the order of arrival. */
  ghost predicate NoWholeSecond(es: seq<Event>)
  {
    forall e | e in es && e.el != 0 :: e.t % SECOND != 0
  }

  lemma {:induction false} BoundariesAreWhole(es: seq<Event>)
    ensures After(es).newTime % SECOND == 0
  {
    if es != [] { BoundariesAreWhole(es[..|es| - 1]); }
  }

  lemma NoWholeSecondIsOff(es: seq<Event>)
    requires NoWholeSecond(es)
    ensures OffBoundary(es)
  {
    hide After;
    forall i | 0 <= i < |es| ensures es[i].el != 0 ==> es[i].t != After(es[..i]).newTime {
      BoundariesAreWhole(es[..i]);
    }
  }

  /** The same, for events none of which is on a whole second. */
  lemma ReplicasAgree(es: seq<Event>, fs: seq<Event>)
    requires RealTimes(es) && NoWholeSecond(es)
    requires multiset(es) == multiset(fs)
    requires After(es).oldTime == After(fs).oldTime
    ensures After(es).oldSum == After(fs).oldSum
  {
    hide After, OffBoundary;
    forall e ensures e in fs <==> e in es {
      assert e in multiset(fs) <==> e in multiset(es);
    }
    assert forall i | 0 <= i < |fs| :: fs[i] in es;
    NoWholeSecondIsOff(es);
    NoWholeSecondIsOff(fs);
    ReplicasAgreeOffBoundary(es, fs);
  }

  /** An event exactly on the boundary is what breaks it: two replicas, same events, same `oldTime`. */
  lemma BoundaryEventDisagrees()
    ensures var on, a, c := Event(1, SECOND), Event(0, SECOND + 1), Event(0, 2 * SECOND + 1);
      var es, fs := [Event(0, 0), on, a, c], [Event(0, 0), a, on, c];
      && multiset(es) == multiset(fs)
      && After(es).oldTime == After(fs).oldTime
      && After(es).oldSum != After(fs).oldSum
  {
    var z, on, a, c := Event(0, 0), Event(1, SECOND), Event(0, SECOND + 1), Event(0, 2 * SECOND + 1);
    var es, fs := [z, on, a, c], [z, a, on, c];
    assert es[..3] == [z, on, a] && es[..3][..2] == [z, on] && [z, on][..1] == [z] && [z][..0] == [];
    assert fs[..3] == [z, a, on] && fs[..3][..2] == [z, a] && [z, a][..1] == [z];
    assert After([z]) == Sums(0, 0, 0, SECOND, ZERO_TIME, ZERO_TIME);
    assert After([z, on]) == Sums(1, 0, 0, SECOND, ZERO_TIME, ZERO_TIME);
    assert After([z, on, a]) == Sums(1, 1, 0, 2 * SECOND, SECOND, ZERO_TIME);
    assert After(es) == Sums(1, 1, 1, 3 * SECOND, 2 * SECOND, SECOND);
    assert After([z, a]) == Sums(0, 0, 0, 2 * SECOND, SECOND, ZERO_TIME);
    assert After([z, a, on]) == Sums(1, 0, 0, 2 * SECOND, SECOND, ZERO_TIME);
    assert After(fs) == Sums(1, 1, 0, 3 * SECOND, 2 * SECOND, SECOND);
  }
}
