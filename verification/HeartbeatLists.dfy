/** Which heartbeats arrive whole. */
module HeartbeatLists {
  import opened ByteStrings
  import opened Heartbeat

  /** The bytes a list of addresses takes: each with a length of two bytes. */
  function Needed(addrs: seq<Bytes>): (n: nat)
  {
    if addrs == [] then 0 else 2 + |addrs[0]| + Needed(addrs[1..])
  }

  lemma {:induction false} NeededSplit(addrs: seq<Bytes>, i: nat)
    requires i <= |addrs|
    ensures Needed(addrs) == Needed(addrs[..i]) + Needed(addrs[i..])
    decreases i
  {
    if i == 0 {
      assert addrs[..0] == [] && addrs[0..] == addrs;
    } else {
      NeededSplit(addrs[1..], i - 1);
      assert addrs[..i][1..] == addrs[1..][..i - 1] && addrs[..i][0] == addrs[0];
      assert addrs[1..][i - 1..] == addrs[i..];
    }
  }

  /** Address i is written if and only if each address up to it leaves more than the slack, two length bytes not counted. */
  lemma {:induction false} FittingExact(addrs: seq<Bytes>, room: int, slack: nat, i: nat)
    requires i < |addrs|
    ensures i < Fitting(addrs, room, slack)
       <==> forall j | 0 <= j <= i :: Needed(addrs[..j]) + |addrs[j]| + slack < room
    decreases i
  {
    var P := j requires 0 <= j < |addrs| => Needed(addrs[..j]) + |addrs[j]| + slack < room;
    assert addrs[..0] == [];
    assert P(0) <==> |addrs[0]| + slack < room;
    if i > 0 && P(0) {
      var rest, left := addrs[1..], room - 2 - |addrs[0]|;
      FittingExact(rest, left, slack, i - 1);
      forall j | 0 < j <= i ensures P(j) <==> Needed(rest[..j - 1]) + |rest[j - 1]| + slack < left {
        assert addrs[..j][1..] == rest[..j - 1] && addrs[..j][0] == addrs[0];
      }
      forall j | 0 <= j <= i - 1 ensures P(j + 1) <==> Needed(rest[..j]) + |rest[j]| + slack < left {}
    }
  }

  /** All are written if and only if the last one leaves that much. */
  lemma AllFitIff(addrs: seq<Bytes>, room: int, slack: nat)
    ensures Fitting(addrs, room, slack) == |addrs| <==> addrs == [] || Needed(addrs) + slack < room + 2
  {
    if addrs != [] {
      var n := |addrs| - 1;
      FittingExact(addrs, room, slack, n);
      forall j | 0 <= j <= n ensures Needed(addrs[..j]) + |addrs[j]| + 2 <= Needed(addrs) {
        NeededSplit(addrs, j);
        assert addrs[j..][0] == addrs[j];
      }
      NeededSplit(addrs, n);
      assert addrs[n..][0] == addrs[n] && addrs[n..][1..] == [];
    }
  }

  lemma {:induction false} UpToEmptyIff(addrs: seq<Bytes>)
    ensures UpToEmpty(addrs) <= addrs
    ensures UpToEmpty(addrs) == addrs <==> forall i | 0 <= i < |addrs| :: addrs[i] != []
  {
    if addrs != [] && addrs[0] != [] {
      UpToEmptyIff(addrs[1..]);
      assert addrs == [addrs[0]] + addrs[1..];
      assert forall i | 0 <= i < |addrs| - 1 :: addrs[1..][i] == addrs[i + 1];
    }
  }

  lemma {:induction false} Cut32Iff(cs: seq<Chunk>)
    ensures |Cut32(cs)| == |cs|
    ensures Cut32(cs) == cs <==> forall i | 0 <= i < |cs| :: cs[i].id < TWO32
  {
    if cs != [] {
      Cut32Iff(cs[1..]);
      assert cs == [cs[0]] + cs[1..];
      assert forall i | 0 <= i < |cs| - 1 :: cs[1..][i] == cs[i + 1];
    }
  }

  /**
   The chunks arrive as they were if and only if their ids have 32 bits, and the added servers if and only if none
   has an empty address and the list takes fewer than 1336 bytes less 12 for each chunk.
   */
  lemma ArrivesWholeIff(aa: AmAlive)
    requires |aa.chunks| <= MAX_CHUNKS
    ensures var r := Decode(Encode(aa));
      && r.Done?
      && (r.value.chunks == aa.chunks <==> forall i | 0 <= i < |aa.chunks| :: aa.chunks[i].id < 0x1_0000_0000)
      && (r.value.added == aa.added <==>
            && (forall i | 0 <= i < |aa.added| :: aa.added[i] != [])
            && (aa.added == [] || Needed(aa.added) < 1336 - 12 * |aa.chunks|))
  {
    hide Encode, Decode, Fitting, Needed, UpToEmpty, Cut32;
    RoundTrip(aa);
    Cut32Iff(aa.chunks);
    var n := Fitting(aa.added, AddedRoom(aa), 64);
    UpToEmptyIff(aa.added[..n]);
    AllFitIff(aa.added, AddedRoom(aa), 64);
    if n == |aa.added| {
      assert aa.added[..n] == aa.added;
    } else {
      assert |UpToEmpty(aa.added[..n])| <= n;
    }
  }

  lemma {:induction false} NeededIsLength(addrs: seq<Bytes>)
    ensures |AddrBytes(addrs)| == Needed(addrs)
  {
    if addrs != [] { NeededIsLength(addrs[1..]); }
  }

  /** The dead servers are in the datagram, right behind the terminator the decoder never steps over, if they fit there. */
  lemma DeadAreSent(aa: AmAlive)
    requires |aa.chunks| <= MAX_CHUNKS && aa.added == []
    requires Needed(aa.dead) < 1394 - 12 * |aa.chunks|
    ensures var at := 4 + 12 * |aa.chunks|;
      Encode(aa)[at..at + Needed(aa.dead)] == AddrBytes(aa.dead) && Encode(aa)[at - 2..at] == [0, 0]
  {
    hide Fitting, Needed, AddrBytes, ChunkBytes, Zeros;
    NeededIsLength(aa.dead);
    AllFitIff(aa.dead, DeadRoom(aa), 4);
    Rooms(aa);
    assert AddedBytes(aa) == [] by { NoBytes(aa); }
    assert aa.dead[..|aa.dead|] == aa.dead;
    assert PutU16(0) == [0, 0];
  }

  lemma NoBytes(aa: AmAlive)
    requires aa.added == []
    ensures AddedBytes(aa) == []
  {}
}
