/** How the buckets of the index stand for the live pairs of the log. */
module PMapIndex {
  import opened ByteStrings
  import opened RecordLog
  import opened ProbeTable
  import opened TimedMap

  function Low32(h: nat): (n: u32)
  {
    h % TWO32
  }

  /** The hash register of a key. */
  function KeyHash(hash: Hash, k: Bytes): (h: u32)
    ensures h >= 2
  {
    HashReMap(Low32(hash(k)))
  }

  /** The two registers of each bucket, the record each non-empty bucket points to, the bucket of each live key. */
  datatype Place = Place(hs: seq<u32>, offs: seq<u32>, rec: seq<nat>, pos: map<Bytes, nat>)

  /** Every non-empty bucket, deleted ones included, holds the offset of a record with a timestamped value. */
  ghost predicate Pointers(p: Place, log: seq<Record>)
  {
    && |p.hs| == |p.offs| == |p.rec|
    && forall i | 0 <= i < |p.hs| && p.hs[i] != EMPTY_BUCKET ::
         p.rec[i] < |log| && |log[p.rec[i]].val| >= 8 && p.offs[i] == Offset(log, p.rec[i])
  }

  /** Live buckets and live keys correspond one to one. */
  ghost predicate Matches(hash: Hash, p: Place, log: seq<Record>, live: map<Bytes, nat>)
    requires Pointers(p, log)
  {
    && (forall i | 0 <= i < |p.hs| && p.hs[i] >= 2 ::
          var k := log[p.rec[i]].key;
          k in live && live[k] == p.rec[i] && k in p.pos && p.pos[k] == i && p.hs[i] == KeyHash(hash, k))
    && (forall k | k in live :: k in p.pos && p.pos[k] < |p.hs| && p.hs[p.pos[k]] >= 2 && p.rec[p.pos[k]] == live[k]
          && live[k] < |log| && log[live[k]].key == k)
  }

  ghost predicate Indexes(hash: Hash, p: Place, log: seq<Record>, live: map<Bytes, nat>)
  {
    Pointers(p, log) && Matches(hash, p, log, live)
  }

  ghost predicate IsMatch(p: Place, log: seq<Record>, h: u32, k: Bytes, i: nat)
    requires Pointers(p, log) && i < |p.hs|
  {
    p.hs[i] != EMPTY_BUCKET && p.hs[i] == h && log[p.rec[i]].key == k
  }

  /** The probe for h has passed only occupied buckets that do not match, up to bucket i. */
  ghost predicate Passed(p: Place, log: seq<Record>, h: u32, k: Bytes, i: nat)
    requires Pointers(p, log)
  {
    var n := |p.hs|;
    n > 0 && forall j | 0 <= j < n && Dist(h % n, j, n) < Dist(h % n, i, n) ::
               p.hs[j] != EMPTY_BUCKET && !IsMatch(p, log, h, k, j)
  }

  /** At its home bucket a probe has passed nothing. */
  lemma PassedNone(p: Place, log: seq<Record>, h: u32, k: Bytes)
    requires Pointers(p, log) && |p.hs| > 0
    ensures Passed(p, log, h, k, h % |p.hs|)
  {
    hide Offset, IsMatch;
  }

  lemma PassedNext(p: Place, log: seq<Record>, h: u32, k: Bytes, i: nat, e: nat)
    requires Pointers(p, log) && i < |p.hs| && e < |p.hs| && p.hs[e] == EMPTY_BUCKET
    requires Passed(p, log, h, k, i) && p.hs[i] != EMPTY_BUCKET && !IsMatch(p, log, h, k, i)
    ensures Next(i, |p.hs|) < |p.hs| && Passed(p, log, h, k, Next(i, |p.hs|))
    ensures Dist(h % |p.hs|, Next(i, |p.hs|), |p.hs|) == Dist(h % |p.hs|, i, |p.hs|) + 1 < |p.hs|
  {
    hide Offset, IsMatch;
    var n := |p.hs|;
    var home := h % n;
    ProbeNext(p.hs, home, i, e);
    ProbeBound(p.hs, home, Next(i, n), e);
    forall j | 0 <= j < n && Dist(home, j, n) < Dist(home, Next(i, n), n)
      ensures p.hs[j] != EMPTY_BUCKET && !IsMatch(p, log, h, k, j)
    {
      if Dist(home, j, n) == Dist(home, i, n) { assert j == i; }
    }
  }

  /** The probe for h stops at bucket i because it matches. */
  ghost predicate HitAt(p: Place, log: seq<Record>, h: u32, k: Bytes, i: nat)
    requires Pointers(p, log)
  {
    i < |p.hs| && IsMatch(p, log, h, k, i) && Passed(p, log, h, k, i)
  }

  /** What Get answers when it probes for h: the value of the first match before an empty bucket. */
  ghost function AnswerIn(p: Place, log: seq<Record>, h: u32, k: Bytes): (r: Option<Bytes>)
    requires Pointers(p, log)
  {
    if exists i: nat :: HitAt(p, log, h, k, i) then
      var i: nat :| HitAt(p, log, h, k, i);
      Some(log[p.rec[i]].val)
    else None
  }

  lemma HitIsUnique(p: Place, log: seq<Record>, h: u32, k: Bytes, i: nat, j: nat)
    requires Pointers(p, log) && HitAt(p, log, h, k, i) && HitAt(p, log, h, k, j)
    ensures i == j
  {
    hide Offset, IsMatch;
    var n := |p.hs|;
    assert Dist(h % n, i, n) >= Dist(h % n, j, n) && Dist(h % n, j, n) >= Dist(h % n, i, n);
  }

  lemma HitIsAnswer(p: Place, log: seq<Record>, h: u32, k: Bytes, i: nat)
    requires Pointers(p, log) && HitAt(p, log, h, k, i)
    ensures p.rec[i] < |log| && AnswerIn(p, log, h, k) == Some(log[p.rec[i]].val)
  {
    hide Passed, HitAt, Offset;
    HitPoints(p, log, h, k, i);
    forall j: nat | HitAt(p, log, h, k, j) ensures j == i { HitIsUnique(p, log, h, k, i, j); }
  }

  lemma HitPoints(p: Place, log: seq<Record>, h: u32, k: Bytes, i: nat)
    requires Pointers(p, log) && HitAt(p, log, h, k, i)
    ensures i < |p.hs| && p.rec[i] < |log|
  {
    hide Passed, Offset;
  }

  lemma MissIsNone(p: Place, log: seq<Record>, h: u32, k: Bytes, e: nat)
    requires Pointers(p, log) && e < |p.hs| && p.hs[e] == EMPTY_BUCKET && Passed(p, log, h, k, e)
    ensures AnswerIn(p, log, h, k) == None
  {
    hide Offset;
    forall i: nat ensures !HitAt(p, log, h, k, i) {}
  }

  /** A probe that ends in a match has found the live record of the key. */
  lemma FoundIsLive(hash: Hash, p: Place, log: seq<Record>, live: map<Bytes, nat>, h: u32, k: Bytes, i: nat)
    requires Indexes(hash, p, log, live) && i < |p.hs| && h >= 2 && IsMatch(p, log, h, k, i)
    ensures k in live && live[k] == p.rec[i] && p.pos[k] == i && h == KeyHash(hash, k)
  {
    hide Offset, KeyHash;
  }

  /** A probe with the hash of the key that ends in an empty bucket proves the key absent. */
  lemma MissIsAbsent(hash: Hash, p: Place, log: seq<Record>, live: map<Bytes, nat>, h: u32, k: Bytes, i: nat)
    requires Indexes(hash, p, log, live) && Reachable(p.hs) && i < |p.hs|
    requires h == KeyHash(hash, k) && p.hs[i] == EMPTY_BUCKET && Passed(p, log, h, k, i)
    ensures k !in live
  {
    hide Offset, KeyHash, Indexes, Reachable;
    if k in live {
      LiveIsReached(hash, p, log, live, k);
    }
  }

  /** Probing for a live key passes no empty bucket before its own. */
  lemma LiveIsReached(hash: Hash, p: Place, log: seq<Record>, live: map<Bytes, nat>, k: Bytes)
    requires Indexes(hash, p, log, live) && Reachable(p.hs) && k in live
    ensures k in p.pos && p.pos[k] < |p.hs| && IsMatch(p, log, KeyHash(hash, k), k, p.pos[k])
    ensures NoGap(p.hs, KeyHash(hash, k) % |p.hs|, p.pos[k])
  {
    hide Offset, KeyHash, NoGap;
    var q := p.pos[k];
    assert p.hs[q] == KeyHash(hash, log[p.rec[q]].key);
  }

  /** Probing with its own hash stops at the bucket of a live key. */
  lemma LiveIsHit(hash: Hash, p: Place, log: seq<Record>, live: map<Bytes, nat>, k: Bytes)
    requires Indexes(hash, p, log, live) && Reachable(p.hs) && k in live
    ensures k in p.pos && HitAt(p, log, KeyHash(hash, k), k, p.pos[k]) && p.rec[p.pos[k]] == live[k]
  {
    hide Offset, KeyHash, Reachable, IsMatch, Matches;
    LiveIsReached(hash, p, log, live, k);
    var q, h := p.pos[k], KeyHash(hash, k);
    FoundIsLive(hash, p, log, live, h, k, q);
    forall j | 0 <= j < |p.hs| && Dist(h % |p.hs|, j, |p.hs|) < Dist(h % |p.hs|, q, |p.hs|)
      ensures p.hs[j] != EMPTY_BUCKET && !IsMatch(p, log, h, k, j)
    {
      if IsMatch(p, log, h, k, j) { FoundIsLive(hash, p, log, live, h, k, j); }
    }
  }

  lemma LiveHasPlace(hash: Hash, p: Place, log: seq<Record>, live: map<Bytes, nat>, k: Bytes)
    requires Indexes(hash, p, log, live) && k in live
    ensures k in p.pos
  {}

  lemma EmptyIndexes(hash: Hash, p: Place, log: seq<Record>)
    requires |p.hs| == |p.offs| == |p.rec| && forall i | 0 <= i < |p.hs| :: p.hs[i] == EMPTY_BUCKET
    ensures Indexes(hash, p, log, map[])
  {}

  /** Appending a record moves nothing. */
  lemma AppendIndexes(hash: Hash, p: Place, log: seq<Record>, live: map<Bytes, nat>, r: Record)
    requires Indexes(hash, p, log, live)
    ensures Indexes(hash, p, log + [r], live)
  {
    hide Offset, KeyHash, LogLen;
    AppendRecord(log, r);
  }

  function Filled(p: Place, i: nat, h: u32, off: u32, k: Bytes, rec: nat): (q: Place)
    requires i < |p.hs| && |p.hs| == |p.offs| == |p.rec|
  {
    Place(p.hs[i := h], p.offs[i := off], p.rec[i := rec], p.pos[k := i])
  }

  /** Bucket i of the table, found empty by probing for h, has been given to key k and record n. */
  ghost predicate PlacedAt(p: Place, q: Place, i: nat, h: u32, k: Bytes, n: nat)
  {
    && i < |p.hs| == |p.rec| && p.hs[i] == EMPTY_BUCKET && NoGap(p.hs, h % |p.hs|, i)
    && q.hs == p.hs[i := h] && q.rec == p.rec[i := n] && q.pos == p.pos[k := i]
  }

  ghost predicate Placed(p: Place, q: Place, h: u32, k: Bytes, n: nat)
  {
    exists i: nat :: PlacedAt(p, q, i, h, k, n)
  }

  /** If the home bucket is empty, it is the one. */
  lemma PlacedAtHome(p: Place, q: Place, h: u32, k: Bytes, n: nat)
    requires Placed(p, q, h, k, n) && |p.hs| > 0 && p.hs[h % |p.hs|] == EMPTY_BUCKET
    ensures PlacedAt(p, q, h % |p.hs|, h, k, n)
  {
    var i: nat :| PlacedAt(p, q, i, h, k, n);
    assert Dist(h % |p.hs|, h % |p.hs|, |p.hs|) == 0;
  }

  /** Pointing an empty bucket, or the bucket of the same key, at record n. */
  lemma FillIndexes(hash: Hash, p: Place, log: seq<Record>, live: map<Bytes, nat>, i: nat, off: u32, k: Bytes, n: nat)
    requires Indexes(hash, p, log, live) && i < |p.hs| && n < |log| && log[n].key == k && |log[n].val| >= 8
    requires off == Offset(log, n)
    requires if k in live then p.pos[k] == i else p.hs[i] == EMPTY_BUCKET
    ensures Indexes(hash, Filled(p, i, KeyHash(hash, k), off, k, n), log, live[k := n])
  {
    hide Offset, KeyHash;
    var q := Filled(p, i, KeyHash(hash, k), off, k, n);
    assert Pointers(q, log);
    forall j | 0 <= j < |q.hs| && q.hs[j] >= 2
      ensures var kj := log[q.rec[j]].key;
        kj in live[k := n] && live[k := n][kj] == q.rec[j] && q.pos[kj] == j && q.hs[j] == KeyHash(hash, kj)
    {
      if j != i { assert p.hs[j] >= 2; }
    }
  }

  function Marked(p: Place, i: nat): (q: Place)
    requires i < |p.hs|
  {
    p.(hs := p.hs[i := DELETED_BUCKET])
  }

  lemma MarkIndexes(hash: Hash, p: Place, log: seq<Record>, live: map<Bytes, nat>, i: nat, k: Bytes)
    requires Indexes(hash, p, log, live) && k in live && i < |p.hs| && p.pos[k] == i
    ensures Indexes(hash, Marked(p, i), log, live - {k})
  {
    hide Offset, KeyHash;
    var q := Marked(p, i);
    assert Pointers(q, log);
    forall j | 0 <= j < |q.hs| && q.hs[j] >= 2
      ensures var kj := log[q.rec[j]].key;
        kj in live - {k} && (live - {k})[kj] == q.rec[j] && q.pos[kj] == j && q.hs[j] == KeyHash(hash, kj)
    {
      assert p.hs[j] >= 2 && j != i;
    }
  }

  /** The placement after the table has doubled. */
  function Rehashed(p: Place, hs: seq<u32>, offs: seq<u32>, src: seq<nat>, dst: seq<nat>): (q: Place)
    requires |p.rec| == |p.hs| && |src| == |hs| && |dst| == |p.hs|
  {
    Place(hs, offs,
          seq(|hs|, j requires 0 <= j < |hs| => if src[j] < |p.rec| then p.rec[src[j]] else 0),
          map k | k in p.pos && p.pos[k] < |dst| :: dst[p.pos[k]])
  }

  lemma RehashPointers(p: Place, log: seq<Record>, hs: seq<u32>, offs: seq<u32>, src: seq<nat>, dst: seq<nat>)
    requires Pointers(p, log) && Moved(p.hs, p.offs, hs, offs, src, dst)
    ensures Pointers(Rehashed(p, hs, offs, src, dst), log)
  {
    hide Offset;
    var q := Rehashed(p, hs, offs, src, dst);
    forall j | 0 <= j < |q.hs| && q.hs[j] != EMPTY_BUCKET
      ensures q.rec[j] < |log| && |log[q.rec[j]].val| >= 8 && q.offs[j] == Offset(log, q.rec[j])
    {
      var i := src[j];
      assert dst[i] == j && p.hs[i] >= 2;
    }
  }

  lemma RehashIndexes(hash: Hash, p: Place, log: seq<Record>, live: map<Bytes, nat>,
                      hs: seq<u32>, offs: seq<u32>, src: seq<nat>, dst: seq<nat>)
    requires Indexes(hash, p, log, live) && Moved(p.hs, p.offs, hs, offs, src, dst)
    ensures Indexes(hash, Rehashed(p, hs, offs, src, dst), log, live)
  {
    hide Offset, KeyHash;
    var q := Rehashed(p, hs, offs, src, dst);
    RehashPointers(p, log, hs, offs, src, dst);
    forall j | 0 <= j < |q.hs| && q.hs[j] >= 2
      ensures var k := log[q.rec[j]].key;
        k in live && live[k] == q.rec[j] && k in q.pos && q.pos[k] == j && q.hs[j] == KeyHash(hash, k)
    {
      var i := src[j];
      assert dst[i] == j && p.hs[i] >= 2;
    }
    forall k | k in live
      ensures k in q.pos && q.pos[k] < |q.hs| && q.hs[q.pos[k]] >= 2 && q.rec[q.pos[k]] == live[k]
    {
      var i := p.pos[k];
      assert p.hs[i] >= 2 && src[dst[i]] == i;
    }
  }
}
