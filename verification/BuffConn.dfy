/** The buffered connection: frames are written into, and read out of, fixed buffers. */
module BuffConn {
  import opened ByteStrings
  import opened Buffers
  import opened Messages

  const WRITE_BUFFER_SIZE: nat := 1450
  const READ_BUFFER_SIZE: nat := 2048
  const OP_SET_BUFFERED: byte := 105
  const OP_SET_NO_DELAY: byte := 106

  /** The sending half of a TCP connection: `wire` is all that has been handed to the network. */
  class TcpOut {
    var wire: Bytes
    var closed: bool

    constructor ()
      ensures wire == [] && !closed
    {
      wire, closed := [], false;
    }

    /** A write takes some of the bytes, at least one, or fails after taking some of them. */
    method Write(s: Bytes) returns (n: nat, err: bool)
      requires |s| > 0
      modifies this
      ensures n <= |s| && wire == old(wire) + s[..n] && closed == old(closed)
      ensures old(closed) ==> err && n == 0
      ensures !err ==> n > 0
    {
      if closed {
        n, err := 0, true;
        assert wire + s[..0] == wire;
        return;
      }
      n :| n <= |s|;
      err := *;
      if n == 0 { err := true; }
      wire := wire + s[..n];
    }
  }

  /** `tcpWrite`: everything, or the connection is closed after a prefix. */
  method TcpWrite(conn: TcpOut, buffer: Bytes) returns (err: bool)
    modifies conn
    ensures err ==> conn.closed && old(conn.wire) <= conn.wire <= old(conn.wire) + buffer
    ensures old(conn.closed) ==> conn.closed && conn.wire == old(conn.wire)
    ensures !err ==> conn.closed == old(conn.closed) && (buffer == [] || !conn.closed) && conn.wire == old(conn.wire) + buffer
  {
    var rest := buffer;
    ghost var done := 0;
    while |rest| > 0
      invariant 0 <= done <= |buffer| && rest == buffer[done..]
      invariant conn.wire == old(conn.wire) + buffer[..done] && conn.closed == old(conn.closed)
      invariant old(conn.closed) ==> done == 0
      decreases |rest|
    {
      var n, e := conn.Write(rest);
      assert buffer[..done] + rest[..n] == buffer[..done + n];
      done := done + n;
      if e {
        conn.closed := true;
        assert old(conn.wire) + buffer[..done] <= old(conn.wire) + buffer;
        return true;
      }
      rest := rest[n..];
    }
    assert buffer[..done] == buffer;
    err := false;
  }

  /** The writing half of a Conn. */
  class Sender {
    const tcp: TcpOut
    const writeBuffer: array<byte>
    var writeIndex: nat
    var buffering: bool
    ghost var written: seq<Message>   // every message passed to Write

    /** What is on the wire, followed by what is buffered, is what was written; a closed wire holds a prefix. */
    ghost predicate Valid()
      reads this, tcp, writeBuffer
    {
      && writeBuffer.Length == WRITE_BUFFER_SIZE && writeIndex <= WRITE_BUFFER_SIZE
      && tcp.wire <= Stream(written)
      && (!tcp.closed ==> tcp.wire + writeBuffer[..writeIndex] == Stream(written))
    }

    constructor (tcp: TcpOut)
      requires tcp.wire == [] && !tcp.closed
      ensures Valid() && this.tcp == tcp && fresh(writeBuffer) && written == [] && buffering
    {
      this.tcp := tcp;
      writeBuffer := new byte[WRITE_BUFFER_SIZE](_ => 0);
      writeIndex, buffering, written := 0, true, [];
    }

    /** Hands the buffered bytes to the network; the ticker does this too, and ignores the error. */
    method Flush() returns (err: bool)
      requires Valid()
      modifies this`writeIndex, tcp
      ensures Valid() && writeIndex == 0
      ensures err ==> tcp.closed
      ensures !tcp.closed ==> tcp.wire == Stream(written)
    {
      hide Stream;
      err := TcpWrite(tcp, writeBuffer[..writeIndex]);
      writeIndex := 0;
      assert writeBuffer[..0] == [];
    }

    method Write(m: Message) returns (err: bool)
      requires Valid()
      modifies this`writeIndex, this`buffering, this`written, tcp, writeBuffer
      ensures Valid() && written == old(written) + [m]
      ensures err ==> tcp.closed
      ensures !err && !buffering && !tcp.closed ==> tcp.wire == Stream(written)
      ensures buffering == if m.typ == OP_SET_BUFFERED then true else if m.typ == OP_SET_NO_DELAY then false else old(buffering)
    {
      hide Stream, Frame;
      if m.typ == OP_SET_BUFFERED {
        buffering := true;
      } else if m.typ == OP_SET_NO_DELAY {
        buffering := false;
      }
      // the test Marshal makes before it writes anything
      var fits := |m.key| + |m.value| + 13 <= WRITE_BUFFER_SIZE - writeIndex;
      if !fits {
        err := TcpWrite(tcp, writeBuffer[..writeIndex]);
        if err {
          StreamSnoc(written, m);
          written := written + [m];
          return;
        }
        writeIndex := 0;
        assert writeBuffer[..0] == [];
        if |m.key| + |m.value| + 13 > WRITE_BUFFER_SIZE {
          err := SendBig(m);
          return;
        }
      }
      Append(m);
      if !buffering {
        err := Flush();
      } else {
        err := false;
      }
    }

    /** Marshals a message that fits after what is already buffered. */
    method Append(m: Message)
      requires Valid() && |Frame(m)| <= WRITE_BUFFER_SIZE - writeIndex
      modifies this`writeIndex, this`written, writeBuffer
      ensures Valid() && written == old(written) + [m]
    {
      hide Stream, Frame, Splice;
      ghost var f := writeBuffer[..];
      StreamSnoc(written, m);
      SpliceTail(f, writeIndex, Frame(m), 0);
      var msgSize, tooLong := Marshal(m, writeBuffer, writeIndex);
      assert writeBuffer[..writeIndex + msgSize] == writeBuffer[..][..writeIndex + msgSize];
      assert f[..writeIndex] == old(writeBuffer[..writeIndex]);
      writeIndex := writeIndex + msgSize;
      written := written + [m];
    }

    /** Sends a message that is too big for the buffer, which is empty. */
    method SendBig(m: Message) returns (err: bool)
      requires Valid() && writeIndex == 0
      modifies this`written, tcp
      ensures Valid() && written == old(written) + [m]
      ensures err ==> tcp.closed
      ensures !err && !tcp.closed ==> tcp.wire == Stream(written)
    {
      hide Stream, Frame, Splice;
      var bigMsg := new byte[|m.key| + |m.value| + 13];
      ghost var junk := bigMsg[..];
      var msgSize, tooLong := Marshal(m, bigMsg, 0);
      SpliceAll(junk, Frame(m));
      StreamSnoc(written, m);
      assert writeBuffer[..0] == [];
      written := written + [m];
      err := TcpWrite(tcp, bigMsg[..]);
    }
  }

  lemma SpliceAll(f: Bytes, s: Bytes)
    requires |f| == |s|
    ensures Splice(f, 0, s) == s
  {}

  /**
   The receiving half of a TCP connection: `stream` is all that will ever arrive, `pos` of it has been
   read, and each call delivers at most `plan[0]` bytes. With the plan used up the connection is closed.
   */
  class TcpIn {
    const stream: Bytes
    var pos: nat
    var plan: seq<nat>

    ghost predicate Valid()
      reads this
    {
      pos <= |stream|
    }

    constructor (stream: Bytes, plan: seq<nat>)
      ensures Valid() && this.stream == stream && this.plan == plan && pos == 0
    {
      this.stream, this.plan, pos := stream, plan, 0;
    }

    /** Every call delivers something, and there are calls enough for all that has not arrived yet. */
    ghost predicate Steady()
      reads this
    {
      (forall i | 0 <= i < |plan| :: plan[i] > 0) && |plan| >= |stream| - pos
    }

    /** Reads into dst[lo:]; an empty destination reads nothing and is no error. */
    method Read(dst: array<byte>, lo: nat) returns (n: nat, err: bool)
      requires Valid() && lo <= dst.Length
      modifies this, dst
      ensures Valid() && err == (old(plan) == [])
      ensures err ==> n == 0 && plan == [] && pos == old(pos) && dst[..] == old(dst[..])
      ensures !err ==> plan == old(plan)[1..]
      ensures lo + n <= dst.Length && old(pos) + n == pos
      ensures dst[..] == Splice(old(dst[..]), lo, stream[old(pos)..pos])
      ensures !err && lo < dst.Length && old(pos) < |stream| && old(plan)[0] > 0 ==> n > 0
      ensures lo == dst.Length ==> n == 0
    {
      if plan == [] {
        assert dst[..] == Splice(dst[..], lo, stream[pos..pos]);
        return 0, true;
      }
      n := plan[0];
      if n > dst.Length - lo { n := dst.Length - lo; }
      if n > |stream| - pos { n := |stream| - pos; }
      CopyInto(dst, lo, stream[pos..pos + n]);
      pos, plan, err := pos + n, plan[1..], false;
    }

    /** Reads until dst is full; what is in dst, then what has not arrived, stays the same bytes. */
    method ReadFull(dst: array<byte>, start: nat) returns (err: bool)
      requires Valid() && start <= dst.Length
      modifies this, dst
      ensures Valid()
      ensures !err ==> dst[..] + stream[pos..] == old(dst[..start]) + old(stream[pos..])
      ensures (old(forall i | 0 <= i < |plan| :: plan[i] > 0) && old(|plan|) >= dst.Length - start
               && old(|stream| - pos) >= dst.Length - start) ==> !err
      ensures !err ==> pos == old(pos) + dst.Length - start
      ensures !err && old(Steady()) ==> Steady()
    {
      hide Splice;
      ghost var plan0, all := plan, dst[..start] + stream[pos..];
      var index := start;
      while index < dst.Length
        invariant start <= index <= dst.Length && Valid()
        invariant dst[..index] + stream[pos..] == all && pos == old(pos) + index - start
        invariant |plan| <= |plan0| && plan == plan0[|plan0| - |plan|..]
        invariant ((forall i | 0 <= i < |plan0| :: plan0[i] > 0)
                   && old(|stream| - pos) >= dst.Length - start) ==> |plan0| - |plan| <= index - start
        decreases |plan|
      {
        ghost var f, p := dst[..], pos;
        assert f[..index] == dst[..index];
        var n;
        n, err := Read(dst, index);
        if err {
          return;
        }
        SpliceArrived(f, index, stream, p, pos);
        assert dst[..index + n] == dst[..][..index + n];
        index := index + n;
      }
      assert dst[..index] == dst[..];
      err := false;
    }
  }

  /** Bytes that arrive move from the future of the stream into the buffer. */
  lemma SpliceArrived(f: Bytes, at: nat, stream: Bytes, p: nat, q: nat)
    requires p <= q <= |stream| && at + q - p <= |f|
    ensures Splice(f, at, stream[p..q])[..at + q - p] + stream[q..] == f[..at] + stream[p..]
  {
    SpliceTail(f, at, stream[p..q], 0);
    assert stream[p..] == stream[p..q] + stream[q..];
  }

  lemma CutFront(a: Bytes, b: Bytes, n: nat)
    requires n <= |a|
    ensures (a + b)[..n] == a[..n] && (a + b)[n..] == a[n..] + b
  {}

  /** Where reading a frame of the given size leaves readStart. */
  function NextStart(start: nat, size: nat): (n: nat)
  {
    if size > READ_BUFFER_SIZE - start then 0 else if start > 1400 then size else start + size
  }

  /** A frame leaves no room for the next header exactly when it ends in the last 12 bytes of an uncompacted buffer. */
  lemma StuckIff(start: nat, size: nat)
    requires start + HEADER_SIZE <= READ_BUFFER_SIZE
    ensures NextStart(start, size) + HEADER_SIZE > READ_BUFFER_SIZE
       <==> start <= 1400 && 2036 <= start + size <= 2048
  {}

  /** readStart after a run of frames, from a new connection. */
  function StartAfter(sizes: seq<nat>): (n: nat)
  {
    if sizes == [] then 0 else NextStart(StartAfter(sizes[..|sizes| - 1]), sizes[|sizes| - 1])
  }

  /** Frames of at most 635 bytes never lead there. */
  lemma {:induction false} SmallFramesNeverStick(sizes: seq<nat>)
    requires forall i | 0 <= i < |sizes| :: sizes[i] <= 635
    ensures StartAfter(sizes) + HEADER_SIZE <= READ_BUFFER_SIZE
  {
    if sizes != [] { SmallFramesNeverStick(sizes[..|sizes| - 1]); }
  }

  /** A frame of 1400 bytes and one of 640 do. */
  lemma TwoFramesStick()
    ensures StartAfter([1400, 640]) + HEADER_SIZE > READ_BUFFER_SIZE
  {
    assert [1400, 640][..1] == [1400] && [1400][..0] == [];
    assert StartAfter([1400]) == 1400;
  }

  /** The first frame among the pending bytes is the next message, and the rest continues the stream. */
  lemma FrameOf(sent: seq<Message>, returned: seq<Message>, pending: Bytes, frame: Bytes, rest: Bytes)
    requires AllFit(sent) && returned <= sent && |returned| < |sent|
    requires pending == frame + rest && pending <= Stream(sent[|returned|..])
    requires |frame| == |Frame(sent[|returned|])|
    ensures |frame| >= 13 && FromLE(frame[8..12]) <= |frame| - 13 && Unmarshal(frame) == sent[|returned|]
    ensures returned + [sent[|returned|]] <= sent
    ensures rest <= Stream(sent[|returned| + 1..])
  {
    hide Stream, Frame, FromLE, Unmarshal;
    var ms := sent[|returned|..];
    assert ms[0] == sent[|returned|] && ms[1..] == sent[|returned| + 1..];
    FirstFrame(pending, ms);
    RoundTrip(ms[0]);
    CutFront(frame, rest, |frame|);
  }

  /** The reading half of a Conn. */
  class Receiver {
    const tcp: TcpIn
    const readBuffer: array<byte>
    var readStart: nat
    var readEnd: nat
    ghost const sent: seq<Message>      // the messages whose frames the stream carries
    ghost var returned: seq<Message>    // the messages returned by Read

    /** The bytes still to be turned into messages: those in the buffer, then those not yet received. */
    ghost function Pending(): (p: Bytes)
      requires readStart <= readEnd <= readBuffer.Length && tcp.Valid()
      reads this, readBuffer, tcp
    {
      readBuffer[readStart..readEnd] + tcp.stream[tcp.pos..]
    }

    ghost predicate Valid()
      reads this, readBuffer, tcp
    {
      && readBuffer.Length == READ_BUFFER_SIZE && readStart <= readEnd <= READ_BUFFER_SIZE
      && tcp.Valid() && AllFit(sent)
      && returned <= sent
      && Pending() <= Stream(sent[|returned|..])
    }

    constructor (tcp: TcpIn, ghost sent: seq<Message>)
      requires tcp.Valid() && tcp.pos == 0 && AllFit(sent) && tcp.stream <= Stream(sent)
      ensures Valid() && this.tcp == tcp && this.sent == sent && returned == [] && fresh(readBuffer)
      ensures readStart == readEnd == 0
    {
      this.tcp, this.sent := tcp, sent;
      readBuffer := new byte[READ_BUFFER_SIZE](_ => 0);
      readStart, readEnd, returned := 0, 0, [];
      new;
      assert Pending() == tcp.stream;
      assert sent[0..] == sent;
    }

    /** One socket read into the free end of the buffer: nothing is lost or reordered. */
    method Receive() returns (err: bool)
      requires Valid()
      modifies tcp, readBuffer, this`readEnd
      ensures Valid() && Pending() == old(Pending()) && err == (old(tcp.plan) == [])
      ensures readEnd >= old(readEnd) && (err ==> readEnd == old(readEnd))
      ensures !err ==> tcp.plan == old(tcp.plan)[1..]
      ensures !err && old(readEnd) < READ_BUFFER_SIZE && old(tcp.pos) < |tcp.stream| && old(tcp.plan)[0] > 0 ==> readEnd > old(readEnd)
      ensures readEnd - old(readEnd) == tcp.pos - old(tcp.pos)
    {
      hide Stream, Splice;
      ghost var f, p := readBuffer[..], tcp.pos;
      var n;
      n, err := tcp.Read(readBuffer, readEnd);
      SpliceTail(f, readEnd, tcp.stream[p..tcp.pos], readStart);
      assert readBuffer[readStart..readEnd + n] == readBuffer[..][readStart..readEnd + n];
      assert f[readStart..readEnd] == old(readBuffer[readStart..readEnd]);
      assert tcp.stream[p..] == tcp.stream[p..tcp.pos] + tcp.stream[tcp.pos..];
      readEnd := readEnd + n;
    }

    /** Every call delivers something, and the bytes asked for will arrive. */
    ghost predicate Plentiful(size: nat)
      requires Valid()
      reads this, readBuffer, tcp
    {
      && (forall i | 0 <= i < |tcp.plan| :: tcp.plan[i] > 0)
      && |Pending()| >= size && |tcp.plan| >= size - (readEnd - readStart)
    }

    /** All that was sent and not returned is still pending, and will arrive. */
    ghost predicate Complete()
      requires Valid()
      reads this, readBuffer, tcp
    {
      Pending() == Stream(sent[|returned|..]) && tcp.Steady()
    }

    /** Reads until `size` bytes are buffered; within the buffer's room, plentiful input always suffices. */
    method FillTo(size: nat) returns (err: bool)
      requires Valid()
      modifies tcp, readBuffer, this`readEnd
      ensures Valid() && Pending() == old(Pending())
      ensures err <==> readEnd - readStart < size
      ensures old(Plentiful(size)) && readStart + size <= READ_BUFFER_SIZE ==> !err
      ensures forall n: nat | n >= size && old(Plentiful(n)) && readStart + size <= READ_BUFFER_SIZE :: Plentiful(n)
      ensures !err && old(tcp.Steady()) && readStart + size <= READ_BUFFER_SIZE ==> tcp.Steady()
    {
      hide Stream;
      ghost var plan, end := tcp.plan, readEnd;
      while readEnd - readStart < size
        invariant Valid() && Pending() == old(Pending()) && readEnd >= end && readEnd - end == tcp.pos - old(tcp.pos)
        invariant |tcp.plan| <= |plan| && tcp.plan == plan[|plan| - |tcp.plan|..]
        invariant ((forall i | 0 <= i < |plan| :: plan[i] > 0) && |Pending()| >= size
                   && readStart + size <= READ_BUFFER_SIZE) ==> |plan| - |tcp.plan| <= readEnd - end
        decreases |tcp.plan|
      {
        assert |Pending()| == readEnd - readStart + |tcp.stream| - tcp.pos;
        err := Receive();
        if err {
          return;
        }
      }
      err := false;
    }

    /** At least 13 bytes are buffered: they show the size of the next message. */
    lemma NextMessage()
      requires Valid() && readEnd - readStart >= HEADER_SIZE
      ensures |returned| < |sent|
      ensures FromLE(readBuffer[readStart..readStart + 4]) == |Frame(sent[|returned|])|
    {
      hide Stream, Frame, FromLE;
      FirstSize(Pending(), sent[|returned|..]);
      assert Pending()[..4] == readBuffer[readStart..readStart + 4];
    }

    /** Returns the next message out of the buffer, compacting it first when little room is left. */
    method TakeSmall(messageSize: nat) returns (m: Message)
      requires Valid() && HEADER_SIZE <= messageSize <= readEnd - readStart
      requires |returned| < |sent| && messageSize == |Frame(sent[|returned|])|
      modifies readBuffer, this`readStart, this`readEnd, this`returned
      ensures Valid() && returned == old(returned) + [m] && m == sent[|old(returned)|]
      ensures readStart == if old(readStart) > 1400 then messageSize else old(readStart) + messageSize
      ensures Pending() == old(Pending())[messageSize..]
    {
      hide Stream, Frame, FromLE;
      if readStart > 1400 {
        Compact();
      }
      m := Emit(messageSize);
    }

    method Emit(messageSize: nat) returns (m: Message)
      requires Valid() && HEADER_SIZE <= messageSize <= readEnd - readStart
      requires |returned| < |sent| && messageSize == |Frame(sent[|returned|])|
      modifies this`readStart, this`returned
      ensures Valid() && returned == old(returned) + [m] && m == sent[|old(returned)|]
      ensures readStart == old(readStart) + messageSize && Pending() == old(Pending())[messageSize..]
    {
      hide Stream, Frame, FromLE, Unmarshal;
      ghost var frame, rest := readBuffer[readStart..readStart + messageSize], readBuffer[readStart + messageSize..readEnd];
      assert readBuffer[readStart..readEnd] == frame + rest;
      assert Pending() == frame + (rest + tcp.stream[tcp.pos..]);
      CutFront(frame, rest + tcp.stream[tcp.pos..], messageSize);
      FrameOf(sent, returned, Pending(), frame, rest + tcp.stream[tcp.pos..]);
      readStart := readStart + messageSize;
      m := Unmarshal(readBuffer[readStart - messageSize..readStart]);
      returned := returned + [m];
    }

    /** Moves the unread bytes to the front of the buffer. */
    method Compact()
      requires Valid()
      modifies readBuffer, this`readStart, this`readEnd
      ensures Valid() && readStart == 0 && readEnd == old(readEnd - readStart) && Pending() == old(Pending())
    {
      hide Stream, Splice;
      ghost var f := readBuffer[..];
      var unread := readBuffer[readStart..readEnd];
      CopyInto(readBuffer, 0, unread);
      SpliceTail(f, 0, unread, 0);
      readEnd := readEnd - readStart;
      readStart := 0;
      assert readBuffer[0..readEnd] == readBuffer[..][0..readEnd];
    }

    /** Reads a message that does not fit behind readStart through a buffer of its own. */
    method TakeBig(messageSize: nat) returns (m: Message, err: bool)
      requires Valid() && readEnd - readStart >= HEADER_SIZE && messageSize > READ_BUFFER_SIZE - readStart
      requires |returned| < |sent| && messageSize == |Frame(sent[|returned|])|
      modifies tcp, this`readStart, this`readEnd, this`returned
      ensures !err ==> Valid() && returned == old(returned) + [m] && m == sent[|old(returned)|] && readStart == 0
      ensures err ==> returned == old(returned)
      ensures old(Plentiful(messageSize)) ==> !err
      ensures !err ==> old(|Pending()|) >= messageSize && Pending() == old(Pending())[messageSize..] && (old(tcp.Steady()) ==> tcp.Steady())
    {
      hide Stream, Frame, FromLE, Splice, Unmarshal;
      ghost var p := Pending();
      var bigBuffer := new byte[messageSize];
      ghost var junk := bigBuffer[..];
      CopyInto(bigBuffer, 0, readBuffer[readStart..readEnd]);
      SpliceTail(junk, 0, readBuffer[readStart..readEnd], 0);
      var index := readEnd - readStart;
      assert bigBuffer[..index] == bigBuffer[..][0..index];
      err := tcp.ReadFull(bigBuffer, index);
      if err {
        m := Message(0, 0, [], []);
        return;
      }
      assert p == bigBuffer[..] + tcp.stream[tcp.pos..];
      FrameOf(sent, returned, p, bigBuffer[..], tcp.stream[tcp.pos..]);
      CutFront(bigBuffer[..], tcp.stream[tcp.pos..], messageSize);
      m := Unmarshal(bigBuffer[..]);
      readStart, readEnd := 0, 0;
      returned := returned + [m];
      assert Pending() == tcp.stream[tcp.pos..];
    }

    /** With everything pending and steady input the next message is plentiful. */
    lemma CompleteIsPlentiful()
      requires Valid() && Complete() && |returned| < |sent|
      ensures Plentiful(|Frame(sent[|returned|])|)
    {
      hide Stream, Frame;
      StreamTail(sent, |returned|);
    }

    /**
     `Read`: the next message sent, or an error. After an error the connection is closed and must not be
     read again. With plentiful input it fails exactly when the header cannot fit behind readStart: then
     the socket is asked for an empty slice for ever.
     */
    method Read() returns (m: Message, err: bool)
      requires Valid()
      modifies tcp, readBuffer, this`readStart, this`readEnd, this`returned
      ensures returned <= sent
      ensures !err ==> Valid() && returned == old(returned) + [m] && readStart == NextStart(old(readStart), |Frame(m)|)
      ensures err ==> returned == old(returned)
      ensures old(|returned| < |sent| && Plentiful(|Frame(sent[|returned|])|)) ==>
        (!err <==> old(readStart) + HEADER_SIZE <= READ_BUFFER_SIZE)
      ensures !err ==> old(|Pending()|) >= |Frame(m)| && Pending() == old(Pending())[|Frame(m)|..]
      ensures !err && old(tcp.Steady()) ==> tcp.Steady()
    {
      hide Stream, Frame, FromLE;
      m := Message(0, 0, [], []);
      err := FillTo(HEADER_SIZE);
      if err {
        return;
      }
      NextMessage();
      var messageSize := FromLE(readBuffer[readStart..readStart + 4]);
      if messageSize > READ_BUFFER_SIZE - readStart {
        m, err := TakeBig(messageSize);
        return;
      }
      err := FillTo(messageSize);
      if err {
        return;
      }
      m := TakeSmall(messageSize);
    }
  }

  // Whole exchanges.

  function FrameSizes(ms: seq<Message>): (sizes: seq<nat>)
    ensures |sizes| == |ms|
  {
    seq(|ms|, i requires 0 <= i < |ms| => |Frame(ms[i])|)
  }

  /** After the first j messages no header fits behind readStart. */
  predicate StuckAt(ms: seq<Message>, j: nat)
    requires j <= |ms|
  {
    StartAfter(FrameSizes(ms[..j])) + HEADER_SIZE > READ_BUFFER_SIZE
  }

  /** How many of the first n messages can be read before the reader is stuck. */
  function Readable(ms: seq<Message>, n: nat): (p: nat)
    requires n <= |ms|
    ensures p <= n && (forall j | 0 <= j < p :: !StuckAt(ms, j)) && (p < n ==> StuckAt(ms, p))
  {
    if n == 0 then 0
    else
      var p := Readable(ms, n - 1);
      if p < n - 1 || StuckAt(ms, n - 1) then p else n
  }

  lemma StartStep(ms: seq<Message>, j: nat)
    requires j < |ms|
    ensures StartAfter(FrameSizes(ms[..j + 1])) == NextStart(StartAfter(FrameSizes(ms[..j])), |Frame(ms[j])|)
  {
    hide NextStart, Frame;
    var sizes := FrameSizes(ms[..j + 1]);
    assert sizes[..j] == FrameSizes(ms[..j]);
  }

  /** Frames of at most 635 bytes can all be read. */
  lemma SmallFramesReadable(ms: seq<Message>)
    requires forall i | 0 <= i < |ms| :: |Frame(ms[i])| <= 635
    ensures Readable(ms, |ms|) == |ms|
  {
    hide Frame, StartAfter;
    forall j | 0 <= j < |ms| ensures !StuckAt(ms, j) {
      SmallFramesNeverStick(FrameSizes(ms[..j]));
    }
  }

  /** Of messages that begin with frames of 1400 and 640 bytes only these two can be read. */
  lemma ThirdIsNeverRead(ms: seq<Message>)
    requires |ms| >= 3 && |Frame(ms[0])| == 1400 && |Frame(ms[1])| == 640
    ensures Readable(ms, |ms|) == 2
  {
    hide Frame;
    assert ms[..0] == [] && FrameSizes([]) == [];
    StartStep(ms, 0);
    StartStep(ms, 1);
    assert !StuckAt(ms, 0) && !StuckAt(ms, 1) && StuckAt(ms, 2);
  }

  /**
   End to end: messages are written in order, with the ticker flushing whenever it likes, the network
   delivers any prefix of the wire in pieces of any size, and the peer reads until an error. What it gets
   is a prefix of what was written. If the wire stayed open, all of it arrives and no read is empty, it
   gets exactly the readable messages: all of them if and only if no proper prefix of them gets it stuck.
   */
  method Exchange(ms: seq<Message>, ticks: seq<nat>, arrives: nat, plan: seq<nat>) returns (got: seq<Message>, open: bool)
    requires AllFit(ms)
    ensures got <= ms
    ensures (open && arrives >= |Stream(ms)| && |plan| >= |Stream(ms)| && forall i | 0 <= i < |plan| :: plan[i] > 0) ==>
      && got == ms[..Readable(ms, |ms|)]
      && (got == ms <==> forall j | 0 <= j < |ms| :: !StuckAt(ms, j))
  {
    hide Stream, Readable, StuckAt;
    var out := new TcpOut();
    var s := new Sender(out);
    SendAll(s, ms, ticks);
    assert s.written == ms;
    open := !out.closed;
    var n := if arrives <= |out.wire| then arrives else |out.wire|;
    var tcp := new TcpIn(out.wire[..n], plan);
    var r := new Receiver(tcp, ms);
    assert ms[0..] == ms;
    assert r.Pending() == tcp.stream;
    got := ReceiveAll(r);
    assert ms[..|ms|] == ms;
  }

  /** Three messages, the first two of 1400 and 640 bytes: though everything arrives, the third is never returned. */
  method LostThird(ms: seq<Message>, ticks: seq<nat>, arrives: nat, plan: seq<nat>) returns (got: seq<Message>, open: bool)
    requires AllFit(ms) && |ms| == 3 && |Frame(ms[0])| == 1400 && |Frame(ms[1])| == 640
    ensures (open && arrives >= |Stream(ms)| && |plan| >= |Stream(ms)| && forall i | 0 <= i < |plan| :: plan[i] > 0) ==>
      got == ms[..2]
  {
    hide Stream, Readable, StuckAt, Frame;
    got, open := Exchange(ms, ticks, arrives, plan);
    ThirdIsNeverRead(ms);
  }

  /** Writes every message; before message i the ticker flushes if i is among the ticks. */
  method SendAll(s: Sender, ms: seq<Message>, ticks: seq<nat>)
    requires s.Valid() && s.written == []
    modifies s, s.tcp, s.writeBuffer
    ensures s.Valid() && s.written == ms
    ensures !s.tcp.closed ==> s.tcp.wire == Stream(ms)
  {
    hide Stream;
    var i := 0;
    while i < |ms|
      invariant 0 <= i <= |ms| && s.Valid() && s.written == ms[..i]
    {
      if i in ticks {
        var e := s.Flush();
      }
      var err := s.Write(ms[i]);
      i := i + 1;
    }
    var e := s.Flush();
  }

  /** Reads until the first error. */
  method ReceiveAll(r: Receiver) returns (got: seq<Message>)
    requires r.Valid() && r.returned == [] && r.readStart == 0
    modifies r, r.tcp, r.readBuffer
    ensures got <= r.sent
    ensures old(r.Complete()) ==> got == r.sent[..Readable(r.sent, |r.sent|)]
  {
    hide Stream, Frame, StartAfter, NextStart, FrameSizes;
    got := [];
    ghost var ms := r.sent;
    NothingRead(ms);
    while true
      invariant r.Valid() && got == r.returned && |got| <= |ms|
      invariant r.readStart == StartAfter(FrameSizes(ms[..|got|]))
      invariant old(r.Complete()) ==> r.Complete() && forall j | 0 <= j < |got| :: !StuckAt(ms, j)
      decreases |ms| - |got|
    {
      if old(r.Complete()) && |got| < |ms| { r.CompleteIsPlentiful(); }
      var m, err := r.Read();
      if err {
        assert old(r.Complete()) && |got| < |ms| ==> StuckAt(ms, |got|);
        return;
      }
      assert m == ms[|got|];
      StartStep(ms, |got|);
      if old(r.Complete()) { StreamTail(ms, |got|); }
      got := got + [m];
    }
  }

  lemma NothingRead(ms: seq<Message>)
    ensures StartAfter(FrameSizes(ms[..0])) == 0
  {}

  lemma StreamTail(ms: seq<Message>, i: nat)
    requires i < |ms|
    ensures |Stream(ms[i..])| >= |Frame(ms[i])| && Stream(ms[i..])[|Frame(ms[i])|..] == Stream(ms[i + 1..])
  {
    hide Frame;
    assert ms[i..][0] == ms[i] && ms[i..][1..] == ms[i + 1..];
  }
}
