/** The UDP heartbeat: one datagram of 1400 bytes. */
module Heartbeat {
  import opened ByteStrings
  import opened Buffers

  const MAX_HEARTBEAT_SIZE: nat := 1400
  // the most chunks whose 12-byte entries fit behind the count
  const MAX_CHUNKS: nat := 116

  datatype Chunk = Chunk(id: nat, checksum: u64)
  datatype AmAlive = AmAlive(chunks: seq<Chunk>, added: seq<Bytes>, dead: seq<Bytes>)

  // Encoding.

  function PutU16(n: nat): (s: Bytes)
    ensures |s| == 2
  {
    ToLE(n, 2)
  }

  /** How many of the addresses are written into `room` bytes: the first that is too long ends the list. */
  function Fitting(addrs: seq<Bytes>, room: int, slack: nat): (n: nat)
    ensures n <= |addrs|
  {
    if addrs == [] || |addrs[0]| + slack >= room then 0
    else 1 + Fitting(addrs[1..], room - 2 - |addrs[0]|, slack)
  }

  function ChunkBytes(cs: seq<Chunk>): (s: Bytes)
    ensures |s| == 12 * |cs|
  {
    if cs == [] then [] else ToLE(cs[0].id, 4) + ToLE(cs[0].checksum, 8) + ChunkBytes(cs[1..])
  }

  function AddrBytes(addrs: seq<Bytes>): (s: Bytes)
  {
    if addrs == [] then [] else PutU16(|addrs[0]|) + addrs[0] + AddrBytes(addrs[1..])
  }

  function Zeros(n: nat): (s: Bytes)
    ensures |s| == n
  {
    seq(n, _ => 0)
  }

  /** The written addresses leave more than `slack - 2` bytes of the room. */
  lemma {:induction false} FittingRoom(addrs: seq<Bytes>, room: nat, slack: nat)
    requires slack >= 2
    ensures |AddrBytes(addrs[..Fitting(addrs, room, slack)])| <= room
    ensures Fitting(addrs, room, slack) > 0 ==> |AddrBytes(addrs[..Fitting(addrs, room, slack)])| + slack - 2 < room
    decreases |addrs|
  {
    if addrs != [] && |addrs[0]| + slack < room {
      var n := Fitting(addrs[1..], room - 2 - |addrs[0]|, slack);
      FittingRoom(addrs[1..], room - 2 - |addrs[0]|, slack);
      assert addrs[..n + 1][1..] == addrs[1..][..n];
      assert addrs[..n + 1][0] == addrs[0];
    }
  }

  function AddedRoom(aa: AmAlive): (n: int)
  {
    MAX_HEARTBEAT_SIZE - 2 - 12 * |aa.chunks|
  }

  function AddedBytes(aa: AmAlive): (s: Bytes)
  {
    AddrBytes(aa.added[..Fitting(aa.added, AddedRoom(aa), 64)])
  }

  function DeadRoom(aa: AmAlive): (n: int)
  {
    AddedRoom(aa) - |AddedBytes(aa)| - 2
  }

  function DeadBytes(aa: AmAlive): (s: Bytes)
  {
    AddrBytes(aa.dead[..Fitting(aa.dead, DeadRoom(aa), 4)])
  }

  /** Everything before the trailing zeros, the first terminator included. */
  function Front(aa: AmAlive): (s: Bytes)
  {
    PutU16(|aa.chunks|) + ChunkBytes(aa.chunks) + AddedBytes(aa) + PutU16(0)
  }

  lemma Rooms(aa: AmAlive)
    requires |aa.chunks| <= MAX_CHUNKS
    ensures |AddedBytes(aa)| + 2 < AddedRoom(aa)
    ensures DeadRoom(aa) >= 4 && |DeadBytes(aa)| + 2 <= DeadRoom(aa)
    ensures |Front(aa)| + |DeadBytes(aa)| + 2 <= MAX_HEARTBEAT_SIZE
  {
    hide AddrBytes, Fitting, PutU16;
    FittingRoom(aa.added, AddedRoom(aa), 64);
    if Fitting(aa.added, AddedRoom(aa), 64) == 0 { NoAddrs(aa.added); }
    FittingRoom(aa.dead, DeadRoom(aa), 4);
    if Fitting(aa.dead, DeadRoom(aa), 4) == 0 { NoAddrs(aa.dead); }
  }

  lemma NoAddrs(addrs: seq<Bytes>)
    ensures AddrBytes(addrs[..0]) == []
  {}

  /** The datagram. */
  function Encode(aa: AmAlive): (s: Bytes)
    requires |aa.chunks| <= MAX_CHUNKS
    ensures |s| == MAX_HEARTBEAT_SIZE
  {
    Rooms(aa);
    Front(aa) + DeadBytes(aa) + PutU16(0) + Zeros(MAX_HEARTBEAT_SIZE - |Front(aa)| - |DeadBytes(aa)| - 2)
  }

  // Decoding.

  datatype Decoded<T> = Done(value: T) | Malformed | Panic

  function DecodeChunks(m: Bytes, n: nat): (r: Decoded<(seq<Chunk>, Bytes)>)
    decreases n, m
  {
    if n == 0 then Done(([], m))
    else if |m| < 16 then Malformed
    else
      U64Bound(m[4..12]);
      match DecodeChunks(m[12..], n - 1)
      case Done((cs, rest)) => Done(([Chunk(FromLE(m[..4]), FromLE(m[4..12]))] + cs, rest))
      case Malformed => Malformed
      case Panic => Panic
  }

  /** A list of addresses; the terminator that ends it is not stepped over. */
  function DecodeAddrs(m: Bytes, least: nat): (r: Decoded<(seq<Bytes>, Bytes)>)
    requires least >= 2
    decreases |m|
  {
    if |m| < least then Malformed
    else
      var n := FromLE(m[..2]);
      var to := (2 + n) % 65536;   // the sum has 16 bits
      if n == 0 then Done(([], m))
      else if to < 2 || to > |m| then Panic
      else
        match DecodeAddrs(m[to..], least)
        case Done((addrs, rest)) => Done(([m[2..to]] + addrs, rest))
        case Malformed => Malformed
        case Panic => Panic
  }

  function Decode(msg: Bytes): (r: Decoded<AmAlive>)
  {
    if |msg| < 2 then Panic
    else
      match DecodeChunks(msg[2..], FromLE(msg[..2]))
      case Malformed => Malformed
      case Panic => Panic
      case Done((chunks, m)) =>
        match DecodeAddrs(m, 4)
        case Malformed => Malformed
        case Panic => Panic
        case Done((added, rest)) =>
          match DecodeAddrs(rest, 2)
          case Malformed => Malformed
          case Panic => Panic
          case Done((dead, _)) => Done(AmAlive(chunks, added, dead))
  }

  lemma {:induction false} StopsAtTerminator(m: Bytes, least: nat)
    requires least >= 2 && DecodeAddrs(m, least).Done?
    ensures |DecodeAddrs(m, least).value.1| >= least && FromLE(DecodeAddrs(m, least).value.1[..2]) == 0
    decreases |m|
  {
    hide FromLE;
    var n := FromLE(m[..2]);
    if n != 0 { StopsAtTerminator(m[(2 + n) % 65536..], least); }
  }

  /** Whatever the datagram, no dead server is ever decoded from it. */
  lemma DeadIsNeverDecoded(msg: Bytes)
    ensures Decode(msg).Done? ==> Decode(msg).value.dead == []
  {
    hide FromLE;
    if Decode(msg).Done? {
      var m := DecodeChunks(msg[2..], FromLE(msg[..2])).value.1;
      StopsAtTerminator(m, 4);
    }
  }

  // Round trip.

  function Cut32(cs: seq<Chunk>): (r: seq<Chunk>)
  {
    if cs == [] then [] else [Chunk(cs[0].id % TWO32, cs[0].checksum)] + Cut32(cs[1..])
  }

  /** The addresses before the first empty one, which reads as the terminator. */
  function UpToEmpty(addrs: seq<Bytes>): (r: seq<Bytes>)
  {
    if addrs == [] || addrs[0] == [] then [] else [addrs[0]] + UpToEmpty(addrs[1..])
  }

  lemma {:induction false} LowBytes(n: nat, k: nat)
    ensures ToLE(n, k) == ToLE(n % Pow256(k), k)
    decreases k
  {
    if k > 0 {
      var p := Pow256(k - 1);
      var low := n % (256 * p);
      ByteMod(n, p);
      LowBytes(n / 256, k - 1);
      assert low % 256 == n % 256 && low / 256 == (n / 256) % p;
      assert Pow256(k) == 256 * p;
    }
  }

  lemma ByteMod(n: nat, p: nat)
    requires p > 0
    ensures n % (256 * p) == 256 * ((n / 256) % p) + n % 256
  {
    var q, r := n / 256 / p, (n / 256) % p;
    assert n / 256 == q * p + r;
    assert n == 256 * (q * p) + (256 * r + n % 256);
    MulAssoc(256, q, p);
    assert n == q * (256 * p) + (256 * r + n % 256) by { Shuffle(q, p); }
    ModUnique(n, 256 * p, q, 256 * r + n % 256);
  }

  lemma Shuffle(q: nat, p: nat)
    ensures 256 * (q * p) == q * (256 * p)
  {}

  lemma WordRoundTrip(n: nat)
    ensures FromLE(ToLE(n, 4)) == n % TWO32
  {
    hide ToLE, FromLE;
    LowBytes(n, 4);
    assert Pow256(4) == TWO32;
    U32RoundTrip(n % TWO32);
  }

  lemma ShortRoundTrip(n: nat)
    requires n < 65536
    ensures FromLE(PutU16(n)) == n
  {
    hide ToLE, FromLE;
    assert Pow256(2) == 65536;
    DecodeEncode(n, 2);
  }

  lemma {:induction false} ChunksRoundTrip(cs: seq<Chunk>, tail: Bytes)
    requires |tail| >= 4
    ensures DecodeChunks(ChunkBytes(cs) + tail, |cs|) == Done((Cut32(cs), tail))
    decreases |cs|
  {
    hide ToLE, FromLE;
    if cs == [] {
      assert ChunkBytes(cs) + tail == tail;
    } else {
      var a, b := ToLE(cs[0].id, 4), ToLE(cs[0].checksum, 8);
      var m := ChunkBytes(cs) + tail;
      assert m[..4] == a;
      assert m[4..12] == b;
      assert m[12..] == ChunkBytes(cs[1..]) + tail;
      WordRoundTrip(cs[0].id);
      U64RoundTrip(cs[0].checksum);
      ChunksRoundTrip(cs[1..], tail);
    }
  }

  lemma {:induction false} AddrsRoundTrip(addrs: seq<Bytes>, tail: Bytes)
    requires |tail| >= 4 && tail[..2] == PutU16(0)
    requires forall i | 0 <= i < |addrs| :: |addrs[i]| < 65534
    ensures DecodeAddrs(AddrBytes(addrs) + tail, 4).Done?
    ensures DecodeAddrs(AddrBytes(addrs) + tail, 4).value.0 == UpToEmpty(addrs)
    decreases |addrs|
  {
    hide ToLE, FromLE, PutU16;
    ShortRoundTrip(0);
    if addrs == [] {
      assert AddrBytes(addrs) + tail == tail;
    } else {
      var m := AddrBytes(addrs) + tail;
      var n := |addrs[0]|;
      assert m[..2] == PutU16(n);
      assert m[2..2 + n] == addrs[0];
      assert m[2 + n..] == AddrBytes(addrs[1..]) + tail;
      ShortRoundTrip(n);
      AddrsRoundTrip(addrs[1..], tail);
    }
  }

  lemma {:induction false} FittingShort(addrs: seq<Bytes>, room: nat, slack: nat)
    requires room <= 1400
    ensures forall i | 0 <= i < Fitting(addrs, room, slack) :: |addrs[i]| < 65534
    decreases |addrs|
  {
    if addrs != [] && |addrs[0]| + slack < room && room >= 2 + |addrs[0]| {
      FittingShort(addrs[1..], room - 2 - |addrs[0]|, slack);
    }
  }

  lemma FittedShort(addrs: seq<Bytes>, room: nat, slack: nat)
    requires room <= 1400
    ensures forall i | 0 <= i < |addrs[..Fitting(addrs, room, slack)]| :: |addrs[..Fitting(addrs, room, slack)][i]| < 65534
  {
    hide Fitting;
    FittingShort(addrs, room, slack);
  }

  /**
   Decoding an encoded heartbeat gives back every chunk, with its id cut to 32 bits, the added servers
   that fitted, up to the first empty address, and no dead server.
   */
  lemma RoundTrip(aa: AmAlive)
    requires |aa.chunks| <= MAX_CHUNKS
    ensures Decode(Encode(aa))
         == Done(AmAlive(Cut32(aa.chunks), UpToEmpty(aa.added[..Fitting(aa.added, AddedRoom(aa), 64)]), []))
  {
    hide ToLE, FromLE, PutU16, Fitting, ChunkBytes, AddrBytes, DecodeChunks, DecodeAddrs, DeadRoom, Zeros;
    Rooms(aa);
    var msg := Encode(aa);
    var fitted := aa.added[..Fitting(aa.added, AddedRoom(aa), 64)];
    var end := DeadBytes(aa) + PutU16(0) + Zeros(MAX_HEARTBEAT_SIZE - |Front(aa)| - |DeadBytes(aa)| - 2);
    var tail := PutU16(0) + end;
    var m := AddrBytes(fitted) + tail;
    assert msg == PutU16(|aa.chunks|) + (ChunkBytes(aa.chunks) + m);
    assert msg[..2] == PutU16(|aa.chunks|) && msg[2..] == ChunkBytes(aa.chunks) + m;
    ShortRoundTrip(|aa.chunks|);
    ChunksRoundTrip(aa.chunks, m);
    assert tail[..2] == PutU16(0);
    FittedShort(aa.added, AddedRoom(aa), 64);
    AddrsRoundTrip(fitted, tail);
    EndOfAdded(m);
  }

  /** After the added servers the decoder finds the same terminator again, and no dead server. */
  lemma EndOfAdded(m: Bytes)
    requires DecodeAddrs(m, 4).Done?
    ensures DecodeAddrs(DecodeAddrs(m, 4).value.1, 2) == Done(([], DecodeAddrs(m, 4).value.1))
  {
    hide FromLE;
    StopsAtTerminator(m, 4);
  }

  // The loops that write and read the datagram.

  method MarshalChunks(msg: array<byte>, cs: seq<Chunk>, start: nat) returns (at: nat)
    requires start + 12 * |cs| <= msg.Length
    modifies msg
    ensures at == start + 12 * |cs|
    ensures msg[..] == Splice(old(msg[..]), start, ChunkBytes(cs))
  {
    hide Splice, ToLE, ChunkBytes;
    at := start;
    var i := 0;
    SpliceNothing(msg[..], start);
    ChunkBytesNone(cs);
    while i < |cs|
      invariant 0 <= i <= |cs| && at == start + 12 * i
      invariant msg[..] == Splice(old(msg[..]), start, ChunkBytes(cs[..i]))
    {
      var a, b := ToLE(cs[i].id, 4), ToLE(cs[i].checksum, 8);
      CopyInto(msg, at, a);
      CopyInto(msg, at + 4, b);
      ghost var f := old(msg[..]);
      SpliceAdjacent(f, start, ChunkBytes(cs[..i]), a);
      SpliceAdjacent(f, start, ChunkBytes(cs[..i]) + a, b);
      ChunkBytesSnoc(cs, i);
      at := at + 12;
      i := i + 1;
    }
    assert cs[..i] == cs;
  }

  lemma SpliceNothing(f: Bytes, at: nat)
    requires at <= |f|
    ensures Splice(f, at, []) == f
  {}

  lemma ChunkBytesNone(cs: seq<Chunk>)
    ensures ChunkBytes(cs[..0]) == []
  {}

  lemma ChunkBytesSnoc(cs: seq<Chunk>, i: nat)
    requires i < |cs|
    ensures ChunkBytes(cs[..i + 1]) == ChunkBytes(cs[..i]) + ToLE(cs[i].id, 4) + ToLE(cs[i].checksum, 8)
  {
    ChunkBytesConcat(cs[..i], [cs[i]]);
    assert cs[..i + 1] == cs[..i] + [cs[i]];
    assert [cs[i]][1..] == [];
  }

  lemma {:induction false} ChunkBytesConcat(a: seq<Chunk>, b: seq<Chunk>)
    ensures ChunkBytes(a + b) == ChunkBytes(a) + ChunkBytes(b)
  {
    hide ToLE;
    if a == [] {
      assert a + b == b;
    } else {
      assert (a + b)[1..] == a[1..] + b;
      ChunkBytesConcat(a[1..], b);
    }
  }

  /** Writes the addresses that fit, each behind its length. */
  method MarshalAddrs(msg: array<byte>, addrs: seq<Bytes>, start: nat, slack: nat) returns (at: nat)
    requires start <= msg.Length && slack >= 2
    modifies msg
    ensures at <= msg.Length && at == start + |AddrBytes(addrs[..Fitting(addrs, msg.Length - start, slack)])|
    ensures msg[..] == Splice(old(msg[..]), start, AddrBytes(addrs[..Fitting(addrs, msg.Length - start, slack)]))
  {
    hide Splice, ToLE, AddrBytes, PutU16, Fitting;
    at := start;
    var i := 0;
    ghost var f := msg[..];
    SpliceNothing(f, start);
    NoAddrs(addrs);
    assert addrs[0..] == addrs;
    while i < |addrs|
      invariant 0 <= i <= |addrs| && start <= at <= msg.Length && at == start + |AddrBytes(addrs[..i])|
      invariant msg[..] == Splice(f, start, AddrBytes(addrs[..i]))
      invariant Fitting(addrs, msg.Length - start, slack) == i + Fitting(addrs[i..], msg.Length - at, slack)
    {
      FittingStep(addrs[i..], msg.Length - at, slack);
      if |addrs[i]| + slack >= msg.Length - at {
        break;
      }
      CopyInto(msg, at, PutU16(|addrs[i]|));
      CopyInto(msg, at + 2, addrs[i]);
      SpliceAdjacent(f, start, AddrBytes(addrs[..i]), PutU16(|addrs[i]|));
      SpliceAdjacent(f, start, AddrBytes(addrs[..i]) + PutU16(|addrs[i]|), addrs[i]);
      AddrBytesSnoc(addrs, i);
      assert addrs[i..][1..] == addrs[i + 1..];
      at := at + 2 + |addrs[i]|;
      i := i + 1;
    }
    if i == |addrs| { FittingNone(addrs, i, msg.Length - at, slack); }
  }

  lemma FittingStep(addrs: seq<Bytes>, room: int, slack: nat)
    requires addrs != []
    ensures Fitting(addrs, room, slack)
         == if |addrs[0]| + slack >= room then 0 else 1 + Fitting(addrs[1..], room - 2 - |addrs[0]|, slack)
  {}

  lemma FittingNone(addrs: seq<Bytes>, i: nat, room: int, slack: nat)
    requires i == |addrs|
    ensures Fitting(addrs[i..], room, slack) == 0
  {}

  lemma {:induction false} AddrBytesConcat(a: seq<Bytes>, b: seq<Bytes>)
    ensures AddrBytes(a + b) == AddrBytes(a) + AddrBytes(b)
  {
    hide PutU16;
    if a == [] {
      assert a + b == b;
    } else {
      assert (a + b)[1..] == a[1..] + b;
      AddrBytesConcat(a[1..], b);
    }
  }

  lemma AddrBytesSnoc(addrs: seq<Bytes>, i: nat)
    requires i < |addrs|
    ensures AddrBytes(addrs[..i + 1]) == AddrBytes(addrs[..i]) + PutU16(|addrs[i]|) + addrs[i]
  {
    hide PutU16;
    var one: seq<Bytes> := [addrs[i]];
    AddrBytesConcat(addrs[..i], one);
    assert addrs[..i + 1] == addrs[..i] + one;
    assert one[1..] == [];
  }

  /** `Marshal`; with more than 116 chunks it would write past its buffer. */
  method Marshal(aa: AmAlive) returns (msg: array<byte>)
    requires |aa.chunks| <= MAX_CHUNKS
    ensures fresh(msg) && msg[..] == Encode(aa)
  {
    hide Splice, ToLE, AddrBytes, PutU16, Fitting, ChunkBytes, AddedBytes, DeadBytes;
    Rooms(aa);
    msg := new byte[MAX_HEARTBEAT_SIZE](_ => 0);
    ghost var f := msg[..];
    assert f == Zeros(MAX_HEARTBEAT_SIZE);
    CopyInto(msg, 0, PutU16(|aa.chunks|));
    var at := MarshalChunks(msg, aa.chunks, 2);
    SpliceAdjacent(f, 0, PutU16(|aa.chunks|), ChunkBytes(aa.chunks));
    at := MarshalAddrs(msg, aa.added, at, 64);
    AddedIs(aa);
    SpliceAdjacent(f, 0, PutU16(|aa.chunks|) + ChunkBytes(aa.chunks), AddedBytes(aa));
    CopyInto(msg, at, PutU16(0));
    SpliceAdjacent(f, 0, PutU16(|aa.chunks|) + ChunkBytes(aa.chunks) + AddedBytes(aa), PutU16(0));
    at := at + 2;
    at := MarshalAddrs(msg, aa.dead, at, 4);
    DeadIs(aa);
    SpliceAdjacent(f, 0, Front(aa), DeadBytes(aa));
    CopyInto(msg, at, PutU16(0));
    SpliceAdjacent(f, 0, Front(aa) + DeadBytes(aa), PutU16(0));
    SpliceZeros(Front(aa) + DeadBytes(aa) + PutU16(0), MAX_HEARTBEAT_SIZE);
  }

  lemma AddedIs(aa: AmAlive)
    ensures AddedBytes(aa) == AddrBytes(aa.added[..Fitting(aa.added, MAX_HEARTBEAT_SIZE - 2 - 12 * |aa.chunks|, 64)])
  {}

  lemma DeadIs(aa: AmAlive)
    ensures DeadBytes(aa) == AddrBytes(aa.dead[..Fitting(aa.dead, DeadRoom(aa), 4)])
  {}

  lemma SpliceZeros(s: Bytes, n: nat)
    requires |s| <= n
    ensures Splice(Zeros(n), 0, s) == s + Zeros(n - |s|)
  {}

  /** Elements read so far, followed by those still to be read. */
  function Behind<T>(acc: seq<T>, d: Decoded<(seq<T>, Bytes)>): (r: Decoded<(seq<T>, Bytes)>)
  {
    match d
    case Done((xs, rest)) => Done((acc + xs, rest))
    case _ => d
  }

  method ReadChunks(msg: Bytes, n: nat) returns (r: Decoded<(seq<Chunk>, Bytes)>)
    ensures r == DecodeChunks(msg, n)
  {
    hide FromLE;
    var m, cs, i := msg, [], 0;
    BehindNothing(DecodeChunks(msg, n));
    while i < n
      invariant 0 <= i <= n && DecodeChunks(msg, n) == Behind(cs, DecodeChunks(m, n - i))
    {
      if |m| < 16 {
        return Malformed;
      }
      U64Bound(m[4..12]);
      var c := Chunk(FromLE(m[..4]), FromLE(m[4..12]));
      BehindOne(cs, c, DecodeChunks(m[12..], n - i - 1));
      cs := cs + [c];
      m := m[12..];
      i := i + 1;
    }
    assert cs + [] == cs;
    r := Done((cs, m));
  }

  lemma BehindNothing<T>(d: Decoded<(seq<T>, Bytes)>)
    ensures Behind([], d) == d
  {
    if d.Done? { assert [] + d.value.0 == d.value.0; }
  }

  lemma BehindOne<T>(acc: seq<T>, x: T, d: Decoded<(seq<T>, Bytes)>)
    ensures Behind(acc + [x], d) == Behind(acc, Behind([x], d))
  {
    if d.Done? { assert acc + [x] + d.value.0 == acc + ([x] + d.value.0); }
  }

  method ReadAddrs(msg: Bytes, least: nat) returns (r: Decoded<(seq<Bytes>, Bytes)>)
    requires least >= 2
    ensures r == DecodeAddrs(msg, least)
  {
    hide FromLE;
    var m, addrs: seq<Bytes> := msg, [];
    BehindNothing(DecodeAddrs(msg, least));
    while true
      invariant DecodeAddrs(msg, least) == Behind(addrs, DecodeAddrs(m, least))
      decreases |m|
    {
      if |m| < least {
        return Malformed;
      }
      var n := FromLE(m[..2]);
      if n == 0 {
        assert addrs + [] == addrs;
        return Done((addrs, m));
      }
      var to := (2 + n) % 65536;
      if to < 2 || to > |m| {
        return Panic;
      }
      var addr: Bytes := m[2..to];
      BehindOne(addrs, addr, DecodeAddrs(m[to..], least));
      addrs := addrs + [addr];
      m := m[to..];
    }
  }

  /** `AmAliveUnMarshal`: a slice past the end of the datagram would be a panic. */
  method UnMarshal(msg: Bytes) returns (r: Decoded<AmAlive>)
    ensures r == Decode(msg)
  {
    hide FromLE, DecodeChunks, DecodeAddrs;
    if |msg| < 2 {
      return Panic;
    }
    var chunks := ReadChunks(msg[2..], FromLE(msg[..2]));
    if !chunks.Done? {
      return if chunks.Malformed? then Malformed else Panic;
    }
    var added := ReadAddrs(chunks.value.1, 4);
    if !added.Done? {
      return if added.Malformed? then Malformed else Panic;
    }
    var dead := ReadAddrs(added.value.1, 2);
    if !dead.Done? {
      return if dead.Malformed? then Malformed else Panic;
    }
    r := Done(AmAlive(chunks.value.0, added.value.0, dead.value.0));
  }
}
