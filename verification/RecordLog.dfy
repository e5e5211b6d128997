/** The append-only record log of a store: its byte image, its offsets and its replay. */
module RecordLog {
  import opened ByteStrings

  /** One stored pair; an empty value is a tombstone. */
  datatype Record = Record(key: Bytes, val: Bytes)

  function RecLen(r: Record): (n: nat)
    ensures n >= 12
  {
    12 + |r.key| + |r.val|
  }

  /** Key length, value length, key, value, then the footer that lets the log be walked backwards. */
  function Encode(r: Record): (s: Bytes)
    ensures |s| == RecLen(r)
  {
    PutU32(|r.key|) + PutU32(|r.val|) + r.key + r.val + PutU32(|r.key| + |r.val|)
  }

  function LogLen(log: seq<Record>): (n: nat)
    ensures n >= 12 * |log|
  {
    if log == [] then 0 else LogLen(log[..|log| - 1]) + RecLen(log[|log| - 1])
  }

  function Image(log: seq<Record>): (s: Bytes)
    ensures |s| == LogLen(log)
  {
    if log == [] then [] else Image(log[..|log| - 1]) + Encode(log[|log| - 1])
  }

  /** The byte offset of record i. */
  function Offset(log: seq<Record>, i: nat): (o: nat)
    requires i <= |log|
  {
    LogLen(log[..i])
  }

  lemma AppendRecord(log: seq<Record>, r: Record)
    ensures LogLen(log + [r]) == LogLen(log) + RecLen(r)
    ensures Image(log + [r]) == Image(log) + Encode(r)
    ensures Offset(log + [r], |log|) == LogLen(log)
    ensures forall i | 0 <= i <= |log| :: Offset(log + [r], i) == Offset(log, i)
  {
    assert (log + [r])[..|log|] == log;
    forall i | 0 <= i <= |log| ensures (log + [r])[..i] == log[..i] {}
  }

  lemma OffsetStep(log: seq<Record>, i: nat)
    requires i < |log|
    ensures Offset(log, i + 1) == Offset(log, i) + RecLen(log[i])
    ensures Image(log[..i + 1]) == Image(log[..i]) + Encode(log[i])
  {
    assert log[..i + 1][..i] == log[..i];
  }

  lemma {:induction false} OffsetMonotone(log: seq<Record>, i: nat, j: nat)
    requires i <= j <= |log|
    ensures Offset(log, i) + 12 * (j - i) <= Offset(log, j)
    decreases j
  {
    if i < j {
      OffsetMonotone(log, i, j - 1);
      OffsetStep(log, j - 1);
    }
  }

  lemma OffsetEnd(log: seq<Record>)
    ensures Offset(log, |log|) == LogLen(log)
    ensures Offset(log, 0) == 0
  {
    assert log[..|log|] == log;
    assert log[..0] == [];
  }

  lemma {:induction false} ImagePrefix(log: seq<Record>, i: nat)
    requires i <= |log|
    ensures Offset(log, i) <= LogLen(log)
    ensures Image(log)[..Offset(log, i)] == Image(log[..i])
    decreases |log|
  {
    var n := |log|;
    if i == n {
      assert log[..i] == log;
    } else {
      var init := log[..n - 1];
      ImagePrefix(init, i);
      assert init[..i] == log[..i];
      assert Image(log)[..LogLen(init)] == Image(init);
      assert Image(log)[..Offset(log, i)] == Image(log)[..LogLen(init)][..Offset(log, i)];
    }
  }

  /** Record i occupies its own slice of the image. */
  lemma ImageAt(log: seq<Record>, i: nat)
    requires i < |log|
    ensures Offset(log, i) + RecLen(log[i]) <= LogLen(log)
    ensures Image(log)[Offset(log, i)..Offset(log, i) + RecLen(log[i])] == Encode(log[i])
  {
    hide Encode, Image, LogLen;
    OffsetStep(log, i);
    ImagePrefix(log, i + 1);
    CutTail(Image(log), Image(log[..i]), Encode(log[i]));
  }

  lemma CutTail(f: Bytes, a: Bytes, b: Bytes)
    requires |a| + |b| <= |f|
    requires f[..|a| + |b|] == a + b
    ensures f[|a|..|a| + |b|] == b
  {
    assert f[|a|..|a| + |b|] == f[..|a| + |b|][|a|..];
  }

  lemma SubSlice(f: Bytes, o: nat, e: Bytes, a: nat, b: nat)
    requires o + |e| <= |f| && f[o..o + |e|] == e
    requires a <= b <= |e|
    ensures f[o + a..o + b] == e[a..b]
  {
    forall k | 0 <= k < b - a ensures f[o + a..o + b][k] == e[a..b][k] {
      assert f[o..o + |e|][a + k] == f[o + a + k];
    }
  }

  lemma EncodeParts(r: Record)
    ensures Encode(r)[0..4] == PutU32(|r.key|)
    ensures Encode(r)[4..8] == PutU32(|r.val|)
    ensures Encode(r)[8..8 + |r.key|] == r.key
    ensures Encode(r)[8 + |r.key|..8 + |r.key| + |r.val|] == r.val
    ensures Encode(r)[8 + |r.key| + |r.val|..RecLen(r)] == PutU32(|r.key| + |r.val|)
  {}

  /** What a reader finds at the offset of a record: the accessors of the store. */
  lemma ReadRecord(f: Bytes, o: nat, r: Record)
    requires RecLen(r) < TWO32
    requires o + RecLen(r) <= |f|
    requires f[o..o + RecLen(r)] == Encode(r)
    ensures FromLE(f[o..o + 4]) == |r.key|
    ensures FromLE(f[o + 4..o + 8]) == |r.val|
    ensures f[o + 8..o + 8 + |r.key|] == r.key
    ensures f[o + 8 + |r.key|..o + 8 + |r.key| + |r.val|] == r.val
  {
    hide Encode, FromLE, ToLE;
    EncodeParts(r);
    SubSlice(f, o, Encode(r), 0, 4);
    SubSlice(f, o, Encode(r), 4, 8);
    SubSlice(f, o, Encode(r), 8, 8 + |r.key|);
    SubSlice(f, o, Encode(r), 8 + |r.key|, 8 + |r.key| + |r.val|);
    U32RoundTrip(|r.key|);
    U32RoundTrip(|r.val|);
  }

  /** The footer, just before the next record, holds the length that leads back to this one. */
  lemma ReadFooter(f: Bytes, o: nat, r: Record)
    requires RecLen(r) < TWO32
    requires o + RecLen(r) <= |f|
    requires f[o..o + RecLen(r)] == Encode(r)
    ensures f[o + RecLen(r) - 4..o + RecLen(r)] == PutU32(|r.key| + |r.val|)
    ensures FromLE(f[o + RecLen(r) - 4..o + RecLen(r)]) == |r.key| + |r.val|
  {
    hide Encode, FromLE, ToLE;
    EncodeParts(r);
    SubSlice(f, o, Encode(r), RecLen(r) - 4, RecLen(r));
    U32RoundTrip(|r.key| + |r.val|);
  }

  /** The last record of each key, unless that record is a tombstone. */
  function Replay(log: seq<Record>): (m: map<Bytes, nat>)
    ensures forall k | k in m :: m[k] < |log| && log[m[k]].key == k && |log[m[k]].val| > 0
  {
    if log == [] then map[]
    else
      var n := |log| - 1;
      var m := Replay(log[..n]);
      if |log[n].val| == 0 then m - {log[n].key} else m[log[n].key := n]
  }

  lemma ReplayAppend(log: seq<Record>, r: Record)
    ensures Replay(log + [r])
         == if |r.val| == 0 then Replay(log) - {r.key} else Replay(log)[r.key := |log|]
  {
    assert (log + [r])[..|log|] == log;
  }

  ghost predicate LastOf(log: seq<Record>, k: Bytes, i: nat)
  {
    i < |log| && log[i].key == k && forall j | i < j < |log| :: log[j].key != k
  }

  /** Replay holds exactly the keys whose last record is not a tombstone, at that record. */
  lemma {:induction false} ReplayIsLast(log: seq<Record>, k: Bytes, i: nat)
    ensures k in Replay(log) && Replay(log)[k] == i <==> LastOf(log, k, i) && |log[i].val| > 0
  {
    if log != [] {
      var n := |log| - 1;
      ReplayIsLast(log[..n], k, i);
      if log[n].key == k {
        assert LastOf(log, k, i) ==> i == n;
      } else {
        assert LastOf(log, k, i) <==> LastOf(log[..n], k, i);
      }
    }
  }
}
