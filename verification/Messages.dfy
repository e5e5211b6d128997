/** The TCP message format, and the stream of frames it makes. */
module Messages {
  import opened ByteStrings
  import opened Buffers

  datatype Message = Message(typ: byte, id: u32, key: Bytes, value: Bytes)

  const HEADER_SIZE: nat := 13

  /** The size field of a frame has 32 bits. */
  predicate Fits(m: Message)
  {
    13 + |m.key| + |m.value| < TWO32
  }

  function Frame(m: Message): (s: Bytes)
    ensures |s| == 13 + |m.key| + |m.value|
  {
    PutU32(13 + |m.key| + |m.value|) + PutU32(m.id) + PutU32(|m.key|) + [m.typ] + m.key + m.value
  }

  /** `Marshal` into dest[at:], or `tooLong` if it does not fit there. */
  method Marshal(m: Message, dest: array<byte>, at: nat) returns (msgSize: nat, tooLong: bool)
    requires at <= dest.Length
    modifies dest
    ensures msgSize == |Frame(m)|
    ensures tooLong <==> msgSize > dest.Length - at
    ensures dest[..] == if tooLong then old(dest[..]) else Splice(old(dest[..]), at, Frame(m))
  {
    hide Splice, ToLE, PutU32;
    var size := |m.key| + |m.value| + 13;
    if size > dest.Length - at {
      return size, true;
    }
    CopyInto(dest, at, PutU32(size));
    CopyInto(dest, at + 4, PutU32(m.id));
    CopyInto(dest, at + 8, PutU32(|m.key|));
    CopyInto(dest, at + 12, [m.typ]);
    CopyInto(dest, at + 13, m.key);
    CopyInto(dest, at + 13 + |m.key|, m.value);
    SplicedFrame(old(dest[..]), at, m);
    return size, false;
  }

  lemma SplicedFrame(f: Bytes, at: nat, m: Message)
    requires at + |Frame(m)| <= |f|
    ensures var n := |m.key|;
      Splice(Splice(Splice(Splice(Splice(Splice(f, at, PutU32(13 + n + |m.value|)), at + 4, PutU32(m.id)),
        at + 8, PutU32(n)), at + 12, [m.typ]), at + 13, m.key), at + 13 + n, m.value)
      == Splice(f, at, Frame(m))
  {
    hide Splice, ToLE, PutU32;
    var a, b, c := PutU32(13 + |m.key| + |m.value|), PutU32(m.id), PutU32(|m.key|);
    SpliceAdjacent(f, at, a, b);
    SpliceAdjacent(f, at, a + b, c);
    SpliceAdjacent(f, at, a + b + c, [m.typ]);
    SpliceAdjacent(f, at, a + b + c + [m.typ], m.key);
    SpliceAdjacent(f, at, a + b + c + [m.typ] + m.key, m.value);
  }

  /** `Unmarshal`; slicing past the end of src would be a panic. */
  function Unmarshal(src: Bytes): (m: Message)
    requires |src| >= 13 && FromLE(src[8..12]) <= |src| - 13
  {
    U32Bound(src[4..8]);
    Message(src[12], FromLE(src[4..8]), src[13..13 + FromLE(src[8..12])], src[13 + FromLE(src[8..12])..])
  }

  lemma FrameParts(m: Message)
    ensures Frame(m)[..4] == PutU32(13 + |m.key| + |m.value|)
    ensures Frame(m)[4..8] == PutU32(m.id)
    ensures Frame(m)[8..12] == PutU32(|m.key|)
    ensures Frame(m)[12] == m.typ
    ensures Frame(m)[13..13 + |m.key|] == m.key
    ensures Frame(m)[13 + |m.key|..] == m.value
  {
    hide ToLE, PutU32;
  }

  lemma FrameSize(m: Message)
    requires Fits(m)
    ensures FromLE(Frame(m)[..4]) == |Frame(m)|
  {
    hide ToLE, PutU32, FromLE, Frame;
    FrameParts(m);
    U32RoundTrip(13 + |m.key| + |m.value|);
  }

  lemma RoundTrip(m: Message)
    requires Fits(m)
    ensures FromLE(Frame(m)[8..12]) <= |Frame(m)| - 13
    ensures Unmarshal(Frame(m)) == m
  {
    hide ToLE, PutU32, FromLE, Frame;
    FrameParts(m);
    U32RoundTrip(m.id);
    U32RoundTrip(|m.key|);
  }

  // Streams of frames.

  function Stream(ms: seq<Message>): (s: Bytes)
  {
    if ms == [] then [] else Frame(ms[0]) + Stream(ms[1..])
  }

  lemma {:induction false} StreamConcat(a: seq<Message>, b: seq<Message>)
    ensures Stream(a + b) == Stream(a) + Stream(b)
  {
    hide Frame;
    if a == [] {
      assert a + b == b;
    } else {
      assert (a + b)[1..] == a[1..] + b;
      StreamConcat(a[1..], b);
    }
  }

  lemma StreamSnoc(ms: seq<Message>, m: Message)
    ensures Stream(ms + [m]) == Stream(ms) + Frame(m)
  {
    hide Frame;
    StreamConcat(ms, [m]);
    assert [m][1..] == [];
    assert Stream([m]) == Frame(m) + [];
  }

  ghost predicate AllFit(ms: seq<Message>)
  {
    forall i | 0 <= i < |ms| :: Fits(ms[i])
  }

  /** At least 13 bytes of a stream of frames show the size of its first message. */
  lemma FirstSize(p: Bytes, ms: seq<Message>)
    requires AllFit(ms) && p <= Stream(ms) && |p| >= 13
    ensures ms != [] && FromLE(p[..4]) == |Frame(ms[0])|
  {
    hide Frame, FromLE;
    assert p[..4] == Stream(ms)[..4] == Frame(ms[0])[..4];
    FrameSize(ms[0]);
  }

  /** A stream that holds the whole of its first frame starts with it. */
  lemma FirstFrame(p: Bytes, ms: seq<Message>)
    requires ms != [] && p <= Stream(ms) && |p| >= |Frame(ms[0])|
    ensures p[..|Frame(ms[0])|] == Frame(ms[0])
    ensures p[|Frame(ms[0])|..] <= Stream(ms[1..])
  {
    hide Frame;
    var n := |Frame(ms[0])|;
    assert Stream(ms)[..n] == Frame(ms[0]) && Stream(ms)[n..] == Stream(ms[1..]);
    assert p[..n] == Stream(ms)[..n];
    assert p[n..] == Stream(ms)[n..][..|p| - n];
  }

  /** Frames decode uniquely: if the frames of a start the frames of b, then a is a prefix of b. */
  lemma {:induction false} UniqueDecoding(a: seq<Message>, b: seq<Message>)
    requires AllFit(a) && AllFit(b) && Stream(a) <= Stream(b)
    ensures a <= b
    decreases |a|
  {
    hide Frame, FromLE;
    if a != [] {
      var p := Stream(a);
      assert |p| >= 13;
      FirstSize(p, a);
      FirstSize(p, b);
      FirstFrame(p, a);
      FirstFrame(p, b);
      RoundTrip(a[0]);
      RoundTrip(b[0]);
      var n := |Frame(a[0])|;
      assert p[n..] == Stream(a[1..]);
      UniqueDecoding(a[1..], b[1..]);
      assert a == [a[0]] + a[1..] && b == [b[0]] + b[1..];
    }
  }
}
