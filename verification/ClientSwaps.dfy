/** The compare-and-swap of the client against the one of the store: what was read can be swapped. */
module ClientSwaps {
  import opened ByteStrings
  import opened TimedMap
  import opened PMapSpec
  import opened PMapRuns
  import opened Timestamps

  /** The nanosecond counts an int64 can hold. */
  type Nanos = t: int | 0 - TWO63 <= t < TWO63

  /** `uint64(t.UnixNano())` */
  function Unsigned(t: Nanos): (n: u64)
  {
    if t < 0 then t + TWO64 else t
  }

  /** A time and a value, as the store keeps them. */
  function WithTime(t: Nanos, value: Bytes): (s: Bytes)
    ensures |s| == 8 + |value|
  {
    ToLE(Unsigned(t), 8) + value
  }

  /** What the client sends: the time and the hash of the version it read, then the new time and value. */
  function SwapRequest(hash: Hash, t: Nanos, seen: Bytes, now: Nanos, value: Bytes): (x: Bytes)
    ensures |x| == 24 + |value|
  {
    ToLE(Unsigned(t), 8) + ToLE(hash(seen), 8) + WithTime(now, value)
  }

  /** Writing a time into a value and reading it back. */
  lemma TimeRoundTrip(t: Nanos, value: Bytes)
    ensures Time(WithTime(t, value)) == t && WithTime(t, value)[8..] == value
  {
    hide FromLE, ToLE;
    assert WithTime(t, value)[..8] == ToLE(Unsigned(t), 8);
    U64RoundTrip(Unsigned(t));
  }

  /** Later times are later words. */
  lemma LaterIsLater(t: Nanos, u: Nanos, v: Bytes, w: Bytes)
    ensures t < u <==> Earlier(Word(WithTime(t, v)), Word(WithTime(u, w)))
  {
    hide Time, Word, WithTime;
    TimeRoundTrip(t, v);
    TimeRoundTrip(u, w);
    TimeInWords(WithTime(t, v), WithTime(u, w));
  }

  lemma RequestParts(hash: Hash, t: Nanos, seen: Bytes, now: Nanos, value: Bytes)
    ensures var x := SwapRequest(hash, t, seen, now, value);
      Time(x) == t && FromLE(x[8..16]) == hash(seen) && x[16..] == WithTime(now, value)
  {
    hide FromLE, ToLE, Time, WithTime;
    var x := SwapRequest(hash, t, seen, now, value);
    U64RoundTrip(hash(seen));
    assert x[8..16] == ToLE(hash(seen), 8) && x[16..] == WithTime(now, value);
    assert x == ToLE(Unsigned(t), 8) + (ToLE(hash(seen), 8) + WithTime(now, value));
    SameTime(x, t, ToLE(hash(seen), 8) + WithTime(now, value));
  }

  lemma SameTime(x: Bytes, t: Nanos, rest: Bytes)
    requires x == ToLE(Unsigned(t), 8) + rest
    ensures Time(x) == t
  {
    hide Time, ToLE;
    TimeRoundTrip(t, rest);
  }

  /**
   On every state of a PMap, a swap with the time and the value a client has seen is accepted if and only if the
   stored pair has that time and a value of the same hash; then exactly the new time and value are stored.
   */
  lemma SwapIff(c: Config, s: PState, k: Bytes, t: Nanos, seen: Bytes, now: Nanos, value: Bytes)
    requires Inv(c, s) && k in Contents(s)
    requires !DoCas(c, s, k, SwapRequest(c.hash, t, seen, now, value)).out.Refused()
    ensures var m, r := Contents(s), DoCas(c, s, k, SwapRequest(c.hash, t, seen, now, value));
      && |m[k]| >= 8
      && (r.out.Ok? <==> Time(m[k]) == t && c.hash(m[k][8..]) == c.hash(seen))
      && Contents(r.s) == if r.out.Ok? then m[k := WithTime(now, value)] else m
  {
    hide DoCas, Inv, Contents, Time, FromLE, WithTime, SwapRequest;
    var x := SwapRequest(c.hash, t, seen, now, value);
    CasInWords(c, s, k, x);
    RequestParts(c.hash, t, seen, now, value);
    TimeInWords(Contents(s)[k], x);
  }

  /** What a client read can be swapped, and a second swap of the same version fails unless the two are alike. */
  lemma ReadThenSwap(c: Config, s: PState, k: Bytes, t: Nanos, now: Nanos, value: Bytes, later: Nanos, other: Bytes)
    requires Inv(c, s) && k in Contents(s) && |Contents(s)[k]| >= 8 && t == Time(Contents(s)[k])
    requires var x := SwapRequest(c.hash, t, Contents(s)[k][8..], now, value);
      && !DoCas(c, s, k, x).out.Refused()
      && !DoCas(c, DoCas(c, s, k, x).s, k, SwapRequest(c.hash, t, Contents(s)[k][8..], later, other)).out.Refused()
    ensures var old_ := Contents(s)[k][8..];
      var r := DoCas(c, s, k, SwapRequest(c.hash, t, old_, now, value));
      var q := DoCas(c, r.s, k, SwapRequest(c.hash, t, old_, later, other));
      && r.out.Ok? && Contents(r.s)[k] == WithTime(now, value)
      && (q.out.Ok? <==> now == t && c.hash(value) == c.hash(old_))
  {
    hide DoCas, Inv, Contents, Time, WithTime, SwapRequest;
    var old_ := Contents(s)[k][8..];
    SwapIff(c, s, k, t, old_, now, value);
    CasStep(c, s, k, SwapRequest(c.hash, t, old_, now, value));
    SwapIff(c, DoCas(c, s, k, SwapRequest(c.hash, t, old_, now, value)).s, k, t, old_, later, other);
    TimeRoundTrip(now, value);
  }

  /** Under an absent key a swap is accepted if and only if it claims time 0 or to have seen a value that hashes like nothing. */
  lemma SwapAbsentIff(c: Config, s: PState, k: Bytes, t: Nanos, seen: Bytes, now: Nanos, value: Bytes)
    requires Inv(c, s) && k !in Contents(s)
    requires !DoCas(c, s, k, SwapRequest(c.hash, t, seen, now, value)).out.Refused()
    ensures var r := DoCas(c, s, k, SwapRequest(c.hash, t, seen, now, value));
      && (r.out.Ok? <==> t == 0 || c.hash(seen) == c.hash([]))
      && Contents(r.s) == if r.out.Ok? then Contents(s)[k := WithTime(now, value)] else Contents(s)
  {
    hide DoCas, Inv, Contents, Time, FromLE, WithTime, SwapRequest;
    CasStep(c, s, k, SwapRequest(c.hash, t, seen, now, value));
    RequestParts(c.hash, t, seen, now, value);
  }
}
