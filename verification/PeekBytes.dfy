/** The 8 bytes the store shows at the value of a record, tombstones included. */
module PeekBytes {
  import opened ByteStrings
  import opened RecordLog
  import opened LogStore
  import opened Recovery

  /** The walk of `Open` ends where the log ends: a key length 0 can be read there. */
  ghost predicate EndsAt(f: Bytes, log: seq<Record>)
  {
    LogLen(log) + 4 <= |f| && KeyLenIn(f, LogLen(log)) == 0
  }

  /** The next record is in the log, or the walk ends behind this one. */
  ghost predicate Followed(f: Bytes, log: seq<Record>, i: nat)
  {
    i + 1 < |log| || EndsAt(f, log)
  }

  lemma ZeroWord(f: Bytes, n: nat)
    requires ZeroFrom(f, n) && n + 4 <= |f|
    ensures KeyLenIn(f, n) == 0
  {
    assert f[n..n + 4] == [f[n], f[n + 1], f[n + 2], f[n + 3]] == [0, 0, 0, 0];
    ZeroLE(4);
    U32RoundTrip(0);
    assert PutU32(0) == [0, 0, 0, 0];
  }

  lemma {:induction false} ZeroLE(k: nat)
    ensures forall i | 0 <= i < k :: ToLE(0, k)[i] == 0
  {
    if k > 0 { ZeroLE(k - 1); }
  }

  /** The header of the record after record i, or the key length 0 behind the log. */
  lemma NextKeyLen(f: Bytes, log: seq<Record>, i: nat)
    requires Stores(f, log) && i < |log| && Followed(f, log, i)
    ensures Offset(log, i) + RecLen(log[i]) + 4 <= |f|
    ensures f[Offset(log, i) + RecLen(log[i])..Offset(log, i) + RecLen(log[i]) + 4]
         == PutU32(if i + 1 < |log| then |log[i + 1].key| else 0)
  {
    hide LogLen, Offset, Image, Encode, PutU32, FromLE;
    OffsetStep(log, i);
    OffsetEnd(log);
    if i + 1 < |log| {
      var o := Offset(log, i + 1);
      RecordSlice(f, log, i + 1);
      SubSlice(f, o, Encode(log[i + 1]), 0, 4);
      EncodeParts(log[i + 1]);
    } else {
      U32RoundTrip(0);
      FromLEInjective(f[LogLen(log)..LogLen(log) + 4], PutU32(0));
    }
  }

  lemma JoinWords(f: Bytes, a: nat, s: Bytes, t: Bytes)
    requires a + 8 <= |f| && |s| == 4 && |t| == 4 && f[a..a + 4] == s && f[a + 4..a + 8] == t
    ensures f[a..a + 8] == s + t
  {
    assert f[a..a + 8] == f[a..a + 4] + f[a + 4..a + 8];
  }

  lemma PeekTombstone(f: Bytes, log: seq<Record>, i: nat)
    requires Stores(f, log) && i < |log| && Followed(f, log, i) && log[i].val == []
    ensures Offset(log, i) + 8 + |log[i].key| + 8 <= |f|
    ensures FromLE(f[Offset(log, i) + 8 + |log[i].key|..Offset(log, i) + 8 + |log[i].key| + 8]) == Peek(log, i)
  {
    hide LogLen, Offset, Image, Encode, PutU32, Followed, FromLE;
    NextKeyLen(f, log, i);
    RecordSlice(f, log, i);
    ReadFooter(f, Offset(log, i), log[i]);
    JoinWords(f, Offset(log, i) + 8 + |log[i].key|, PutU32(|log[i].key|),
              PutU32(if i + 1 < |log| then |log[i + 1].key| else 0));
  }

  lemma PeekAt(f: Bytes, log: seq<Record>, i: nat)
    requires Stores(f, log) && i < |log|
    requires |log[i].val| >= 8 || (log[i].val == [] && Followed(f, log, i))
    ensures Offset(log, i) + 8 + |log[i].key| + 8 <= |f|
    ensures FromLE(f[Offset(log, i) + 8 + |log[i].key|..Offset(log, i) + 8 + |log[i].key| + 8]) == Peek(log, i)
  {
    hide LogLen, Offset, Image, Encode, PutU32, Followed, FromLE;
    if |log[i].val| >= 8 {
      var a, v := Offset(log, i) + 8 + |log[i].key|, log[i].val;
      RecordSlice(f, log, i);
      ReadRecord(f, Offset(log, i), log[i]);
      SubSlice(f, a, v, 0, 8);
    } else {
      PeekTombstone(f, log, i);
    }
  }
}
