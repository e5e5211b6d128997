/** The store: a byte array that holds the image of the log, followed by zeros unless it was cut short on opening. */
module LogStore {
  import opened ByteStrings
  import opened RecordLog
  import opened Buffers

  // The accessors of the store, on the content of the file.

  function KeyLenIn(f: Bytes, index: nat): (n: u32)
    requires index + 4 <= |f|
  {
    U32Bound(f[index..index + 4]);
    FromLE(f[index..index + 4])
  }

  function ValLenIn(f: Bytes, index: nat): (n: u32)
    requires index + 8 <= |f|
  {
    U32Bound(f[index + 4..index + 8]);
    FromLE(f[index + 4..index + 8])
  }

  function TotalLenIn(f: Bytes, index: nat): (n: u32)
    requires index + 8 <= |f|
  {
    (KeyLenIn(f, index) + ValLenIn(f, index)) % TWO32
  }

  function KeyIn(f: Bytes, index: nat): (k: Bytes)
    requires index + 8 <= |f| && index + 8 + KeyLenIn(f, index) <= |f|
  {
    f[index + 8..index + 8 + KeyLenIn(f, index)]
  }

  function ValIn(f: Bytes, index: nat): (v: Bytes)
    requires index + 8 <= |f|
    requires KeyLenIn(f, index) <= TotalLenIn(f, index) && index + 8 + TotalLenIn(f, index) <= |f|
  {
    f[index + 8 + KeyLenIn(f, index)..index + 8 + TotalLenIn(f, index)]
  }

  /** The offset of the record that ends at `index`, or -1 at the start of the log. */
  function PrevIn(f: Bytes, index: nat): (p: int)
    requires index > 4 ==> index <= |f|
  {
    if index > 4 then index - 12 - FromLE(f[index - 4..index]) else -1
  }

  /** The file content f starts with the image of the log. */
  ghost predicate Stores(f: Bytes, log: seq<Record>)
  {
    && |f| < TWO32
    && LogLen(log) <= |f|
    && f[..LogLen(log)] == Image(log)
  }

  ghost predicate ZeroFrom(f: Bytes, n: nat)
  {
    forall i | n <= i < |f| :: f[i] == 0
  }

  lemma PrefixSlice(f: Bytes, p: Bytes, a: nat, b: nat)
    requires |p| <= |f| && f[..|p|] == p
    requires a <= b <= |p|
    ensures f[a..b] == p[a..b]
  {
    forall k | 0 <= k < b - a ensures f[a..b][k] == p[a..b][k] {
      assert f[..|p|][a + k] == f[a + k];
    }
  }

  lemma RecordSlice(f: Bytes, log: seq<Record>, i: nat)
    requires LogLen(log) <= |f| && f[..LogLen(log)] == Image(log)
    requires i < |log|
    ensures Offset(log, i) + RecLen(log[i]) <= LogLen(log)
    ensures f[Offset(log, i)..Offset(log, i) + RecLen(log[i])] == Encode(log[i])
  {
    hide *;
    ImageAt(log, i);
    PrefixSlice(f, Image(log), Offset(log, i), Offset(log, i) + RecLen(log[i]));
  }

  /** Reading at the offset of record i gives record i. */
  lemma ReadAt(f: Bytes, log: seq<Record>, i: nat)
    requires Stores(f, log) && i < |log|
    ensures Offset(log, i) + RecLen(log[i]) <= LogLen(log) <= |f|
    ensures KeyLenIn(f, Offset(log, i)) == |log[i].key|
    ensures TotalLenIn(f, Offset(log, i)) == |log[i].key| + |log[i].val|
    ensures KeyIn(f, Offset(log, i)) == log[i].key
    ensures ValIn(f, Offset(log, i)) == log[i].val
  {
    hide FromLE, Encode, Image, LogLen, Offset;
    RecordSlice(f, log, i);
    ReadRecord(f, Offset(log, i), log[i]);
  }

  lemma FooterAt(f: Bytes, log: seq<Record>, i: nat)
    requires Stores(f, log) && i < |log|
    ensures var end := Offset(log, i) + RecLen(log[i]);
      12 <= end <= |f| && FromLE(f[end - 4..end]) == RecLen(log[i]) - 12
  {
    hide FromLE, Encode, Image, LogLen, Offset, PutU32;
    RecordSlice(f, log, i);
    ReadFooter(f, Offset(log, i), log[i]);
  }

  /** The footers chain the records backwards, from the end of the log to its start. */
  lemma PrevAt(f: Bytes, log: seq<Record>, i: nat)
    requires Stores(f, log) && i <= |log|
    ensures Offset(log, i) <= LogLen(log) <= |f|
    ensures PrevIn(f, Offset(log, i)) == if i == 0 then -1 else Offset(log, i - 1)
  {
    hide FromLE, Encode, Image, LogLen, Offset, ToLE, PutU32;
    OffsetEnd(log);
    OffsetMonotone(log, i, |log|);
    if i > 0 {
      OffsetStep(log, i - 1);
      FooterAt(f, log, i - 1);
    }
  }

  lemma StoresAppend(f: Bytes, log: seq<Record>, r: Record)
    requires Stores(f, log) && LogLen(log) + RecLen(r) <= |f|
    ensures Stores(Splice(f, LogLen(log), Encode(r)), log + [r])
    ensures ZeroFrom(f, LogLen(log)) ==> ZeroFrom(Splice(f, LogLen(log), Encode(r)), LogLen(log + [r]))
  {
    AppendRecord(log, r);
    var g := Splice(f, LogLen(log), Encode(r));
    assert g[..LogLen(log) + RecLen(r)] == f[..LogLen(log)] + Encode(r);
    assert forall i | LogLen(log) + RecLen(r) <= i < |g| :: g[i] == f[i];
  }

  class Store {
    var file: array<byte>
    var length: nat
    var deleted: nat
    ghost var log: seq<Record>
    ghost const zeroed: bool   // nothing was ever written behind the log

    ghost predicate Valid()
      reads this`file, this`length, this`log, file
    {
      && length == LogLen(log)
      && (length == 0 || length < file.Length)
      && Stores(file[..], log)
      && (zeroed ==> ZeroFrom(file[..], length))
    }

    lemma Facts()
      requires Valid()
      ensures length == LogLen(log) && Stores(file[..], log) && (zeroed ==> ZeroFrom(file[..], LogLen(log)))
    {}

    /** A new, zero-filled store. An offset must fit the 32-bit register of a bucket. */
    constructor (size: nat)
      requires size < TWO32
      ensures Valid() && fresh(file)
      ensures file.Length == size && log == [] && deleted == 0 && zeroed
    {
      zeroed := true;
      file := new byte[size](_ => 0);
      length, deleted, log := 0, 0, [];
    }

    /** An existing file; its length is not known until the records have been walked. */
    constructor Mapped(image: Bytes, ghost log: seq<Record>)
      requires Stores(image, log)
      ensures fresh(file) && file[..] == image && this.log == log
      ensures length == 0 && deleted == 0 && zeroed == ZeroFrom(image, LogLen(log))
    {
      zeroed := ZeroFrom(image, LogLen(log));
      file := new byte[|image|](i requires 0 <= i < |image| => image[i]);
      length, deleted := 0, 0;
      this.log := log;
    }

    function KeyLen(index: nat): (n: u32)
      requires index + 4 <= file.Length
      reads this`file, file
    {
      KeyLenIn(file[..], index)
    }

    function TotalLen(index: nat): (n: u32)
      requires index + 8 <= file.Length
      reads this`file, file
    {
      TotalLenIn(file[..], index)
    }

    function Key(index: nat): (k: Bytes)
      requires index + 8 <= file.Length && index + 8 + KeyLen(index) <= file.Length
      reads this`file, file
    {
      KeyIn(file[..], index)
    }

    function Val(index: nat): (v: Bytes)
      requires index + 8 <= file.Length
      requires KeyLen(index) <= TotalLen(index) && index + 8 + TotalLen(index) <= file.Length
      reads this`file, file
    {
      ValIn(file[..], index)
    }

    function Prev(index: nat): (p: int)
      requires index > 4 ==> index <= file.Length
      reads this`file, file
    {
      PrevIn(file[..], index)
    }

    /** Writes a whole record at `index`: both lengths, the key, the value and the footer. */
    method WriteRecord(index: nat, key: Bytes, val: Bytes)
      requires index + RecLen(Record(key, val)) <= file.Length
      modifies file
      ensures file[..] == Splice(old(file[..]), index, Encode(Record(key, val)))
    {
      hide Splice, ToLE;
      CopyInto(file, index, PutU32(|key|));
      CopyInto(file, index + 4, PutU32(|val|));
      CopyInto(file, index + 8, key);
      CopyInto(file, index + 8 + |key|, val);
      CopyInto(file, index + 8 + |key| + |val|, PutU32(|key| + |val|));
      SplicedRecord(old(file[..]), index, Record(key, val));
    }

    /** Appends a record, or refuses it and changes nothing. */
    method Put(key: Bytes, val: Bytes) returns (index: u32, ok: bool)
      requires Valid()
      modifies this`length, this`log, file
      ensures Valid()
      ensures ok <==> old(length) + RecLen(Record(key, val)) < file.Length
      ensures ok ==> index == old(length) && log == old(log) + [Record(key, val)]
      ensures !ok ==> log == old(log) && length == old(length) && file[..] == old(file[..])
    {
      var size := 4 + 4 + 4 + |key| + |val|;
      if length + size >= file.Length {
        return 0, false;
      }
      index, ok := length, true;
      length := length + size;
      WriteRecord(index, key, val);
      StoresAppend(old(file[..]), log, Record(key, val));
      AppendRecord(log, Record(key, val));
      log := log + [Record(key, val)];
    }
  }

  lemma SplicedRecord(f: Bytes, o: nat, r: Record)
    requires o + RecLen(r) <= |f|
    ensures var n, m := |r.key|, |r.val|;
      Splice(Splice(Splice(Splice(Splice(f, o, PutU32(n)), o + 4, PutU32(m)), o + 8, r.key), o + 8 + n, r.val),
             o + 8 + n + m, PutU32(n + m))
      == Splice(f, o, Encode(r))
  {
    var n, m := |r.key|, |r.val|;
    var a, b := PutU32(n), PutU32(m);
    SpliceAdjacent(f, o, a, b);
    SpliceAdjacent(f, o, a + b, r.key);
    SpliceAdjacent(f, o, a + b + r.key, r.val);
    SpliceAdjacent(f, o, a + b + r.key + r.val, PutU32(n + m));
  }
}
