/** What the operations of a PMap do, read off the raw bytes of the timestamps they carry. */
module Timestamps {
  import opened ByteStrings
  import opened TimedMap
  import opened PMapSpec
  import opened PMapRuns
  import opened PMapHistory
  import opened Convergence

  /** Byte i of a little-endian string weighs 256^i. */
  lemma {:induction false} ByteWeight(s: Bytes, i: nat, b: byte)
    requires i < |s|
    ensures FromLE(s[i := b]) == FromLE(s) + (b - s[i]) * Pow256(i)
    decreases i
  {
    var t := s[i := b];
    if i == 0 {
      assert t[1..] == s[1..];
    } else {
      assert t[1..] == s[1..][i - 1 := b];
      ByteWeight(s[1..], i - 1, b);
      Scaled(b - s[i], Pow256(i - 1));
    }
  }

  lemma Scaled(d: int, p: nat)
    ensures 256 * (d * p) == d * (256 * p)
  {}

  /** The first 8 bytes of a value, as an unsigned word. */
  ghost function Word(v: Bytes): (n: nat)
    requires |v| >= 8
  {
    FromLE(v[..8])
  }

  /** The order of 64-bit words read as signed numbers. */
  ghost predicate Earlier(a: nat, b: nat)
  {
    a < b < TWO63 || TWO63 <= a < b || b < TWO63 <= a
  }

  /** A larger word is a later time; the words from 2^63 on are before all others. */
  lemma TimeInWords(v: Bytes, w: Bytes)
    requires |v| >= 8 && |w| >= 8
    ensures FromLE(v[..8]) < FromLE(w[..8]) < TWO63 ==> Time(v) < Time(w)
    ensures TWO63 <= FromLE(v[..8]) < FromLE(w[..8]) ==> Time(v) < Time(w)
    ensures FromLE(w[..8]) < TWO63 <= FromLE(v[..8]) ==> Time(v) < Time(w)
    ensures Time(v) < Time(w) <==> Earlier(Word(v), Word(w))
    ensures Time(v) == Time(w) <==> v[..8] == w[..8]
  {
    hide FromLE;
    U64Bound(v[..8]);
    U64Bound(w[..8]);
    FromLEInjective(v[..8], w[..8]);
  }

  // One operation, in every reachable state.

  /** A Set that is not refused replaces what is stored under its key if and only if that is absent or has an earlier word. */
  lemma SetInWords(c: Config, s: PState, k: Bytes, v: Bytes, j: Bytes)
    requires Inv(c, s) && !DoSet(c, s, k, v).out.Refused()
    ensures var m, n := Contents(s), Contents(DoSet(c, s, k, v).s);
      && (j != k ==> Lookup(n, j) == Lookup(m, j))
      && (|v| < 8 ==> n == m)
      && (|v| >= 8 ==> k in n && (k in m ==> |m[k]| >= 8)
                       && n[k] == if k in m && !Earlier(Word(m[k]), Word(v)) then m[k] else v)
  {
    hide DoSet, Inv, Contents, Time, Earlier, Word;
    SetStep(c, s, k, v);
    Stored(c, s, k);
    if |v| >= 8 && k in Contents(s) { TimeInWords(Contents(s)[k], v); }
  }

  lemma Stored(c: Config, s: PState, k: Bytes)
    requires Inv(c, s)
    ensures k in Contents(s) ==> |Contents(s)[k]| >= 8
  {
    hide GoodLog, InReplay, Roomy, Counted;
  }

  /** A Del removes what is stored under its key if and only if the stored word is not later; nothing else changes. */
  lemma DelInWords(c: Config, s: PState, k: Bytes, v: Bytes)
    requires Inv(c, s) && |v| >= 8
    ensures var m, n := Contents(s), Contents(DoDel(c, s, k, v).s);
      && (k in m ==> |m[k]| >= 8)
      && n == if k in m && !Earlier(Word(v), Word(m[k])) then m - {k} else m
  {
    hide DoDel, Inv, Contents, Time, Earlier, Word;
    DelStep(c, s, k, v);
    Stored(c, s, k);
    if k in Contents(s) { TimeInWords(v, Contents(s)[k]); }
  }

  /**
   A swap of a stored pair that is not refused succeeds if and only if it names the 8 timestamp bytes of the
   pair and the hash of the rest; a wrong timestamp is reported before a wrong hash.
   */
  lemma CasInWords(c: Config, s: PState, k: Bytes, x: Bytes)
    requires Inv(c, s) && k in Contents(s) && |x| >= 24 && !DoCas(c, s, k, x).out.Refused()
    ensures var m, r := Contents(s), DoCas(c, s, k, x);
      && |m[k]| >= 8
      && (r.out.CasTime? <==> x[..8] != m[k][..8])
      && (r.out.CasHash? <==> x[..8] == m[k][..8] && FromLE(x[8..16]) != c.hash(m[k][8..]))
      && (r.out.Ok? <==> x[..8] == m[k][..8] && FromLE(x[8..16]) == c.hash(m[k][8..]))
      && Contents(r.s) == if r.out.Ok? then m[k := x[16..]] else m
  {
    hide DoCas, Inv, Contents, Time, FromLE;
    CasStep(c, s, k, x);
    Stored(c, s, k);
    TimeInWords(Contents(s)[k], x);
  }

  // Two operations, in both orders, on runs of a PMap.

  /** Of two writes the one with the later word stays, whatever the order of arrival. */
  lemma LaterWins(c: Config, k: Bytes, v: Bytes, w: Bytes)
    requires ValidConfig(c) && Ample(c) && |v| >= 8 && |w| >= 8 && Earlier(Word(v), Word(w))
    requires 24 + 2 * |k| + |v| + |w| < c.size
    ensures var ws, us := [Op.Set(k, v), Op.Set(k, w)], [Op.Set(k, w), Op.Set(k, v)];
      && Accepted(c, ws) == ws && Accepted(c, us) == us
      && Contents(Run(c, ws)) == map[k := w] && Contents(Run(c, us)) == map[k := w]
  {
    hide ValidConfig, Ample, Run, Accepted, Contents, DictRun, Time, Earlier, Word;
    var a, b := Op.Set(k, v), Op.Set(k, w);
    TwoAreDictionary(c, a, b);
    TwoAreDictionary(c, b, a);
    TwoSteps(c.hash, a, b);
    TwoSteps(c.hash, b, a);
    TimeInWords(v, w);
  }

  /**
   A write and a deletion of the same key leave the same pairs in both orders if and only if the write is
   later; otherwise the pair is there exactly where the deletion came first, since a deletion leaves no time behind.
   */
  lemma SetDelOrder(c: Config, k: Bytes, v: Bytes, w: Bytes)
    requires ValidConfig(c) && Ample(c) && |v| >= 8 && |w| >= 8 && 24 + 2 * |k| + |v| < c.size
    ensures var ws, us := [Op.Set(k, v), Op.Del(k, w)], [Op.Del(k, w), Op.Set(k, v)];
      && Contents(Run(c, us)) == map[k := v]
      && Contents(Run(c, ws)) == (if Earlier(Word(w), Word(v)) then map[k := v] else map[])
      && (Contents(Run(c, ws)) == Contents(Run(c, us)) <==> Earlier(Word(w), Word(v)))
  {
    hide ValidConfig, Ample, Run, Accepted, Contents, DictRun, Time, Earlier, Word;
    var a, b := Op.Set(k, v), Op.Del(k, w);
    TwoAreDictionary(c, a, b);
    TwoAreDictionary(c, b, a);
    TwoSteps(c.hash, a, b);
    TwoSteps(c.hash, b, a);
    TimeInWords(w, v);
    assert map[k := v] - {k} == map[];
  }

  /** After accepted Sets, in any number and order, no write of a key has a later word than the one stored. */
  lemma LatestInWords(c: Config, ws: seq<Op>, w: Op)
    requires ValidConfig(c) && OnlySets(ws) && Accepted(c, ws) == ws && w in ws && |w.value| >= 8
    ensures var m := Contents(Run(c, ws));
      && w.key in m && Op.Set(w.key, m[w.key]) in ws && |m[w.key]| >= 8
      && !Earlier(Word(m[w.key]), Word(w.value))
      && (Word(w.value) < TWO63 ==> Word(w.value) <= Word(m[w.key]) < TWO63)
  {
    hide ValidConfig, Run, Accepted, Contents, DictRun, Time, OnlySets, Word;
    RunRefines(c, ws);
    SetsHoldLatest(c.hash, ws);
    TimeInWords(Contents(Run(c, ws))[w.key], w.value);
  }
}
