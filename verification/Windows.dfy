/** How the three windows of the checksum move over a run of events, and how fresh the oldest one is. */
module Windows {
  import opened ByteStrings
  import opened Checksum

  lemma AfterEvent(es: seq<Event>, e: Event)
    ensures After(es + [e]) == AddEvent(After(es), e.el, e.t)
  {
    assert (es + [e])[..|es|] == es;
  }

  /** An event later than the newest boundary moves every boundary by one; no other event moves any. */
  lemma BoundariesMove(es: seq<Event>, e: Event)
    ensures var s, r := After(es), After(es + [e]);
      if e.t > s.newTime then
        && e.t < r.newTime <= e.t + 1_000_000_000 && r.newTime % 1_000_000_000 == 0
        && r.mediumTime == s.newTime && r.oldTime == s.mediumTime
      else
        r.newTime == s.newTime && r.mediumTime == s.mediumTime && r.oldTime == s.oldTime
  {
    AfterEvent(es, e);
  }

  /** Event i came after the newest boundary of its moment. */
  ghost predicate Advances(es: seq<Event>, i: nat)
  {
    i < |es| && es[i].t > After(es[..i]).newTime
  }

  /** From event n on no event moves the boundaries. */
  ghost predicate Still(es: seq<Event>, n: nat)
  {
    n <= |es| && forall j | n <= j < |es| :: !Advances(es, j)
  }

  lemma {:induction false} StillKeeps(es: seq<Event>, n: nat)
    requires Still(es, n)
    ensures var s, r := After(es[..n]), After(es);
      r.newTime == s.newTime && r.mediumTime == s.mediumTime && r.oldTime == s.oldTime
    decreases |es|
  {
    hide AddEvent;
    if n < |es| {
      var l := |es| - 1;
      var init := es[..l];
      assert !Advances(es, l);
      forall j | n <= j < l ensures !Advances(init, j) {
        assert !Advances(es, j) && init[..j] == es[..j];
      }
      StillKeeps(init, n);
      assert init[..n] == es[..n] && es == init + [es[l]];
      BoundariesMove(init, es[l]);
    } else {
      assert es[..n] == es;
    }
  }

  /** The boundaries just after the last advancing event. */
  lemma LastAdvance(es: seq<Event>, i: nat)
    requires Advances(es, i) && Still(es, i + 1)
    ensures var s, r := After(es[..i]), After(es);
      r.newTime == NextSecond(es[i].t) && r.mediumTime == s.newTime && r.oldTime == s.mediumTime
  {
    assert es[..i + 1] == es[..i] + [es[i]];
    AfterEvent(es[..i], es[i]);
    StillKeeps(es, i + 1);
  }

  lemma StillPrefix(es: seq<Event>, i: nat, j: nat)
    requires i < j <= |es| && forall l | i < l < j :: !Advances(es, l)
    ensures Still(es[..j], i + 1)
    ensures Advances(es, i) ==> Advances(es[..j], i)
  {
    hide After;
    assert es[..j][..i] == es[..i];
    forall l | i < l < j ensures !Advances(es[..j], l) {
      assert !Advances(es, l) && es[..j][..l] == es[..l];
    }
  }

  /**
   After every run with three advancing events the boundaries are the whole seconds after the last three of them:
   the oldest window ends with the second of the last advancing event but two.
   */
  lemma OldestIsThirdLast(es: seq<Event>, i: nat, j: nat, l: nat)
    requires i < j < l && Advances(es, i) && Advances(es, j) && Advances(es, l)
    requires forall n | i < n < |es| && n != j && n != l :: !Advances(es, n)
    ensures var s := After(es);
      && s.newTime == NextSecond(es[l].t) && s.mediumTime == NextSecond(es[j].t) && s.oldTime == NextSecond(es[i].t)
      && es[i].t < s.oldTime <= es[i].t + 1_000_000_000
  {
    hide After, NextSecond, Advances;
    assert l < |es| by { Within(es, l); }
    StillPrefix(es, i, j);
    StillPrefix(es, j, l);
    LastAdvance(es, l);
    LastAdvance(es[..l], j);
    assert es[..l][..j] == es[..j] && es[..l][j] == es[j] && es[..j][i] == es[i];
    LastAdvance(es[..j], i);
  }

  lemma Within(es: seq<Event>, i: nat)
    requires Advances(es, i)
    ensures i < |es|
  {}

  /** Whoever asks moves the newest boundary past the moment of asking, and weighs nothing. */
  lemma AskedIsCovered(es: seq<Event>, now: int)
    ensures var r := After(es + [Event(0, now)]);
      now <= r.newTime && r.newSum == After(es).newSum
  {
    hide NextSecond, Plus, After;
    AfterEvent(es, Event(0, now));
    PlusNothing(After(es).newSum);
  }

  lemma PlusNothing(a: u64)
    ensures Plus(a, 0) == a
  {}

  /** The second of two reports, each later than the boundary it finds, counts every event. */
  lemma SecondReportIsWhole(s: Sums, p: int, q: int)
    requires p > s.newTime && q > p + 1_000_000_000
    ensures var r := AddEvent(AddEvent(s, 0, p), 0, q);
      r.oldSum == s.newSum && r.oldTime == s.newTime
  {
    hide NextSecond, Plus;
    PlusNothing(s.newSum);
    PlusNothing(s.mediumSum);
    PlusNothing(s.oldSum);
  }

  /** The newest boundary is within a second of the latest event. */
  lemma {:induction false} BoundaryIsNear(es: seq<Event>, b: int)
    requires b >= ZERO_TIME && forall i | 0 <= i < |es| :: es[i].t <= b
    ensures After(es).newTime <= b + 1_000_000_000
  {
    if es != [] {
      BoundaryIsNear(es[..|es| - 1], b);
      assert es[..|es| - 1] + [es[|es| - 1]] == es;
      BoundariesMove(es[..|es| - 1], es[|es| - 1]);
    }
  }
}
