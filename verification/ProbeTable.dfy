/** The open-addressed index: linear probing over buckets of two 32-bit registers. */
module ProbeTable {
  import opened ByteStrings

  // Bucket marks; any other hash register belongs to a live bucket.
  const EMPTY_BUCKET: u32 := 0
  const DELETED_BUCKET: u32 := 1

  /** Hashes 0 and 1 are marks, so they are moved out of the way. */
  function HashReMap(h: u32): (r: u32)
    ensures r >= 2
    ensures h >= 2 ==> r == h
  {
    if h < 2 then h + 2 else h
  }

  /** How many steps the probe takes from `home` to bucket i in a table of n buckets. */
  function Dist(home: nat, i: nat, n: nat): (d: int)
  {
    if i >= home then i - home else i - home + n
  }

  function Next(i: nat, n: nat): (j: nat)
  {
    if i + 1 == n then 0 else i + 1
  }

  /** No empty bucket on the way from home to i. */
  ghost predicate NoGap(hs: seq<u32>, home: nat, i: nat)
  {
    forall j | 0 <= j < |hs| && Dist(home, j, |hs|) < Dist(home, i, |hs|) :: hs[j] != EMPTY_BUCKET
  }

  /** Every live bucket is reachable by probing from its home bucket. */
  ghost predicate Reachable(hs: seq<u32>)
  {
    forall i | 0 <= i < |hs| && hs[i] >= 2 :: NoGap(hs, hs[i] % |hs|, i)
  }

  function Used(hs: seq<u32>): (n: nat)
    ensures n <= |hs|
  {
    if hs == [] then 0 else Used(hs[..|hs| - 1]) + if hs[|hs| - 1] != EMPTY_BUCKET then 1 else 0
  }

  function Alive(hs: seq<u32>): (n: nat)
    ensures n <= |hs|
  {
    if hs == [] then 0 else Alive(hs[..|hs| - 1]) + if hs[|hs| - 1] >= 2 then 1 else 0
  }

  lemma {:induction false} AliveUsed(hs: seq<u32>)
    ensures Alive(hs) <= Used(hs)
  {
    if hs != [] { AliveUsed(hs[..|hs| - 1]); }
  }

  /** With as many live buckets as used ones, none is marked deleted. */
  lemma {:induction false} AllAlive(hs: seq<u32>, i: nat)
    requires Used(hs) == Alive(hs) && i < |hs| && hs[i] != EMPTY_BUCKET
    ensures hs[i] >= 2
    decreases |hs|
  {
    var n := |hs| - 1;
    AliveUsed(hs[..n]);
    if i < n { AllAlive(hs[..n], i); }
  }

  /** A table that is not full has an empty bucket, so every probe ends. */
  lemma {:induction false} SomeEmpty(hs: seq<u32>) returns (e: nat)
    requires Used(hs) < |hs|
    ensures e < |hs| && hs[e] == EMPTY_BUCKET
  {
    var n := |hs| - 1;
    if hs[n] == EMPTY_BUCKET {
      e := n;
    } else {
      e := SomeEmpty(hs[..n]);
    }
  }

  lemma {:induction false} CountPut(hs: seq<u32>, i: nat, h: u32)
    requires i < |hs|
    ensures Used(hs[i := h]) == Used(hs) + (if h != 0 then 1 else 0) - if hs[i] != 0 then 1 else 0
    ensures Alive(hs[i := h]) == Alive(hs) + (if h >= 2 then 1 else 0) - if hs[i] >= 2 then 1 else 0
    decreases |hs|
  {
    var n := |hs| - 1;
    if i < n {
      assert hs[i := h][..n] == hs[..n][i := h];
      CountPut(hs[..n], i, h);
    } else {
      assert hs[i := h][..n] == hs[..n];
    }
  }

  lemma {:induction false} CountZeros(hs: seq<u32>)
    requires forall i | 0 <= i < |hs| :: hs[i] == EMPTY_BUCKET
    ensures Used(hs) == 0 && Alive(hs) == 0
  {
    if hs != [] { CountZeros(hs[..|hs| - 1]); }
  }

  lemma AlivePrefix(hs: seq<u32>, i: nat)
    requires i < |hs|
    ensures Alive(hs[..i + 1]) == Alive(hs[..i]) + if hs[i] >= 2 then 1 else 0
  {
    assert hs[..i + 1][..i] == hs[..i];
  }

  lemma {:induction false} AliveMonotone(hs: seq<u32>, i: nat)
    requires i <= |hs|
    ensures Alive(hs[..i]) <= Alive(hs)
    decreases |hs| - i
  {
    if i == |hs| {
      assert hs[..i] == hs;
    } else {
      AliveMonotone(hs, i + 1);
      AlivePrefix(hs, i);
    }
  }

  /** Filling the first empty bucket of a probe keeps every bucket reachable. */
  lemma FillKeepsReachable(hs: seq<u32>, i: nat, h: u32)
    requires Reachable(hs) && i < |hs| && h >= 2
    requires hs[i] == EMPTY_BUCKET && NoGap(hs, h % |hs|, i)
    ensures Reachable(hs[i := h])
  {
    var t := hs[i := h];
    forall k | 0 <= k < |t| && t[k] >= 2 ensures NoGap(t, t[k] % |t|, k) {
      if k != i { assert NoGap(hs, hs[k] % |hs|, k); }
    }
  }

  /** A live bucket may be marked deleted: it still is not empty. */
  lemma MarkKeepsReachable(hs: seq<u32>, i: nat)
    requires Reachable(hs) && i < |hs| && hs[i] >= 2
    ensures Reachable(hs[i := DELETED_BUCKET])
  {
    var t := hs[i := DELETED_BUCKET];
    forall k | 0 <= k < |t| && t[k] >= 2 ensures NoGap(t, t[k] % |t|, k) {
      assert NoGap(hs, hs[k] % |hs|, k);
    }
  }

  /** A probe that has seen no empty bucket has not come around to an empty bucket e. */
  lemma ProbeBound(hs: seq<u32>, home: nat, i: nat, e: nat)
    requires home < |hs| && i < |hs| && e < |hs| && hs[e] == EMPTY_BUCKET
    requires NoGap(hs, home, i)
    ensures Dist(home, i, |hs|) <= Dist(home, e, |hs|) < |hs|
  {}

  lemma ProbeNext(hs: seq<u32>, home: nat, i: nat, e: nat)
    requires home < |hs| && i < |hs| && e < |hs| && hs[e] == EMPTY_BUCKET
    requires NoGap(hs, home, i) && hs[i] != EMPTY_BUCKET
    ensures Next(i, |hs|) < |hs| && Dist(home, Next(i, |hs|), |hs|) == Dist(home, i, |hs|) + 1
    ensures NoGap(hs, home, Next(i, |hs|))
  {
    ProbeBound(hs, home, i, e);
  }

  lemma MaskNext(i: nat, k: nat)
    requires i < Pow2(k) && k <= 32
    ensures AndBits(i + 1, Pow2(k) - 1, 32) == Next(i, Pow2(k))
  {
    hide AndBits, Pow2;
    MaskIsMod(i + 1, k, 32);
    ModNext(i, Pow2(k));
  }

  lemma ModNext(i: nat, n: nat)
    requires i < n
    ensures (i + 1) % n == Next(i, n)
  {
    if i + 1 == n { ModUnique(i + 1, n, 1, 0); } else { ModUnique(i + 1, n, 0, i + 1); }
  }

  class HashMap {
    var sizeLimit: u32
    var size: u32
    var sizeMask: u32
    var sizelog2: nat
    var numKeysToExpand: u32
    var numStoredKeys: nat
    var mem: array<u32>
    ghost var hs: seq<u32>     // the hash register of each bucket
    ghost var offs: seq<u32>   // the store-index register of each bucket

    ghost predicate Shape()
      reads this
    {
      && size == Pow2(sizelog2) <= sizeLimit <= 0x1000_0000
      && sizeMask == size - 1
      && numKeysToExpand == size * 7 / 10
      && sizelog2 <= 32
      && |hs| == |offs| == size
    }

    ghost predicate Mirrors()
      reads this`size, this`mem, this`hs, this`offs, mem
    {
      && mem.Length == size * 8 && |hs| == |offs| == size
      && forall i | 0 <= i < size :: mem[2 * i] == hs[i] && mem[2 * i + 1] == offs[i]
    }

    ghost predicate Valid()
      reads this, mem
    {
      && Shape() && Mirrors() && Reachable(hs)
      && numStoredKeys == Used(hs) <= numKeysToExpand
    }

    lemma Facts()
      requires Valid()
      ensures |hs| == |offs| == size == Pow2(sizelog2)
      ensures numKeysToExpand == Pow2(sizelog2) * 7 / 10 && numStoredKeys == Used(hs)
      ensures Mirrors() && Reachable(hs)
    {}

    constructor (initialLog2Size: nat, limit: u32)
      requires Pow2(initialLog2Size) <= limit <= 0x1000_0000
      ensures Valid() && fresh(mem)
      ensures sizeLimit == limit && sizelog2 == initialLog2Size && numStoredKeys == 0
      ensures forall i | 0 <= i < |hs| :: hs[i] == EMPTY_BUCKET
    {
      sizeLimit := limit;
      size, sizeMask, sizelog2, numKeysToExpand := 1, 0, initialLog2Size, 0;
      numStoredKeys := 0;
      mem := new u32[0];
      new;
      Log2Small(initialLog2Size);
      Alloc();
      CountZeros(hs);
    }

    method Alloc()
      requires Pow2(sizelog2) <= 0x1000_0000 && sizelog2 <= 32
      modifies this`sizelog2, this`size, this`sizeMask, this`numKeysToExpand, this`mem, this`hs, this`offs
      ensures sizelog2 == old(sizelog2) && size == Pow2(sizelog2)
      ensures sizeMask == size - 1 && numKeysToExpand == size * 7 / 10
      ensures Mirrors() && fresh(mem) && forall i | 0 <= i < |hs| :: hs[i] == EMPTY_BUCKET
    {
      SetSize(sizelog2);
      mem := new u32[size * 8](_ => 0);
      hs, offs := seq(size, _ => 0), seq(size, _ => 0);
    }

    /** Sets the size and what depends on it; the mask is built one bit at a time. */
    method SetSize(log2Size: nat)
      requires Pow2(log2Size) <= 0x1000_0000 && log2Size <= 32
      modifies this`sizelog2, this`size, this`sizeMask, this`numKeysToExpand
      ensures sizelog2 == log2Size && size == Pow2(log2Size)
      ensures sizeMask == size - 1 && numKeysToExpand == size * 7 / 10
    {
      sizelog2 := log2Size;
      size := Pow2(log2Size);
      var mask, i := 0, 0;
      while i < log2Size
        invariant 0 <= i <= log2Size
        invariant mask == Pow2(i) - 1
      {
        mask := mask + Pow2(i);
        i := i + 1;
      }
      sizeMask := mask;
      numKeysToExpand := size * 7 / 10;
    }

    function GetHash(index: nat): (h: u32)
      requires Mirrors() && index < size
      reads this, mem
      ensures h == hs[index]
    {
      mem[2 * index]
    }

    function GetStoreIndex(index: nat): (i: u32)
      requires Mirrors() && index < size
      reads this, mem
      ensures i == offs[index]
    {
      mem[2 * index + 1]
    }

    method SetBucket(index: nat, h: u32, storeIndex: u32)
      requires Mirrors() && index < size
      modifies mem, this`hs, this`offs
      ensures Mirrors()
      ensures hs == old(hs)[index := h] && offs == old(offs)[index := storeIndex]
    {
      mem[2 * index] := h;
      mem[2 * index + 1] := storeIndex;
      hs, offs := hs[index := h], offs[index := storeIndex];
    }

    /** Fills an empty bucket found by probing for h. */
    method Fill(index: nat, h: u32, storeIndex: u32)
      requires Valid() && index < size && h >= 2
      requires hs[index] == EMPTY_BUCKET && NoGap(hs, h % size, index)
      requires numStoredKeys < numKeysToExpand
      modifies mem, this`hs, this`offs, this`numStoredKeys
      ensures Valid() && numStoredKeys == old(numStoredKeys) + 1
      ensures hs == old(hs)[index := h] && offs == old(offs)[index := storeIndex]
    {
      hide Pow2, Used, Reachable, Mirrors;
      FillKeepsReachable(hs, index, h);
      CountPut(hs, index, h);
      SetBucket(index, h, storeIndex);
      numStoredKeys := numStoredKeys + 1;
    }

    /** Points a bucket that already holds hash h elsewhere. */
    method Refill(index: nat, h: u32, storeIndex: u32)
      requires Valid() && index < size && hs[index] == h
      modifies mem, this`hs, this`offs
      ensures Valid() && hs == old(hs) && offs == old(offs)[index := storeIndex]
    {
      hide Pow2, Used, Reachable, Mirrors;
      assert hs[index := h] == hs;
      SetBucket(index, h, storeIndex);
    }

    /** Marks a live bucket deleted; it stays in use until the table is doubled. */
    method Mark(index: nat)
      requires Valid() && index < size && hs[index] >= 2
      modifies mem, this`hs, this`offs
      ensures Valid() && hs == old(hs)[index := DELETED_BUCKET] && offs == old(offs)
    {
      hide Pow2, Used, Reachable, Mirrors;
      MarkKeepsReachable(hs, index);
      CountPut(hs, index, DELETED_BUCKET);
      assert offs[index := offs[index]] == offs;
      SetBucket(index, DELETED_BUCKET, GetStoreIndex(index));
    }

    /** Whether the probe for h meets a bucket with that hash before an empty one. */
    method Meets(h: u32) returns (hit: bool)
      requires Valid()
      ensures hit <==> exists i :: 0 <= i < |hs| && hs[i] == h && h != EMPTY_BUCKET && NoGap(hs, h % |hs|, i)
    {
      hide AndBits, Pow2, Used, Reachable;
      ghost var e := SomeEmpty(hs);
      MaskIsMod(h, sizelog2, 32);
      var index: nat := AndBits(h, sizeMask, 32);
      ghost var home := index;
      hit := false;
      while GetHash(index) != EMPTY_BUCKET
        invariant index < size && NoGap(hs, home, index)
        invariant forall j | 0 <= j < |hs| && Dist(home, j, |hs|) < Dist(home, index, |hs|) :: hs[j] != h
        decreases size - Dist(home, index, size)
      {
        if GetHash(index) == h {
          return true;
        }
        ProbeNext(hs, home, index, e);
        MaskNext(index, sizelog2);
        index := AndBits(index + 1, sizeMask, 32);
      }
      forall i | 0 <= i < |hs| && hs[i] == h && h != EMPTY_BUCKET ensures !NoGap(hs, home, i) {
        assert Dist(home, i, |hs|) != Dist(home, index, |hs|);
      }
    }

    /** The first empty bucket on the probe for h. */
    method FindEmpty(h: u32) returns (index: nat)
      requires Valid()
      ensures index < size && hs[index] == EMPTY_BUCKET && NoGap(hs, h % size, index)
    {
      ghost var e := SomeEmpty(hs);
      MaskIsMod(h, sizelog2, 32);
      index := AndBits(h, sizeMask, 32);
      ghost var home := index;
      while GetHash(index) != EMPTY_BUCKET
        invariant index < size && NoGap(hs, home, index)
        decreases size - Dist(home, index, size)
      {
        hide AndBits, Pow2, Used, Reachable;
        ProbeNext(hs, home, index, e);
        MaskNext(index, sizelog2);
        index := AndBits(index + 1, sizeMask, 32);
      }
    }

    /**
     Doubles the table and moves the live buckets, or refuses and changes nothing. `dst` says where
     each live bucket went and `src` where each new one came from.
     */
    method Expand() returns (ok: bool, ghost src: seq<nat>, ghost dst: seq<nat>)
      requires Valid()
      modifies this
      ensures ok <==> 2 * old(size) <= sizeLimit
      ensures Valid() && sizeLimit == old(sizeLimit)
      ensures !ok ==> unchanged(this)
      ensures ok ==> fresh(mem) && sizelog2 == old(sizelog2) + 1 && numStoredKeys == Alive(old(hs)) == Alive(hs)
      ensures ok ==> numStoredKeys < numKeysToExpand
      ensures ok ==> Moved(old(hs), old(offs), hs, offs, src, dst)
    {
      hide Used, Alive, Reachable, NoGap, Moved, Pow2, Mirrors;
      src, dst := [], [];
      Pow2Double(sizelog2);
      if size * 2 > sizeLimit {
        return false, src, dst;
      }
      var newHM := new HashMap(sizelog2 + 1, sizeLimit);
      src, dst := MoveInto(newHM);
      ok := true;
      AliveUsed(hs);
      LoadGrows(sizelog2);
      Adopt(newHM);
    }

    /** `*m = *newHM` */
    method Adopt(newHM: HashMap)
      requires newHM.Valid()
      modifies this
      ensures Valid() && mem == newHM.mem && hs == newHM.hs && offs == newHM.offs
      ensures sizeLimit == newHM.sizeLimit && sizelog2 == newHM.sizelog2 && numStoredKeys == newHM.numStoredKeys
    {
      hide Used, Alive, Reachable, Pow2;
      sizeLimit, size, sizeMask, sizelog2 := newHM.sizeLimit, newHM.size, newHM.sizeMask, newHM.sizelog2;
      numKeysToExpand, numStoredKeys, mem := newHM.numKeysToExpand, newHM.numStoredKeys, newHM.mem;
      hs, offs := newHM.hs, newHM.offs;
    }

    /** Puts every live bucket into a new, empty table of twice the size. */
    method MoveInto(newHM: HashMap) returns (ghost src: seq<nat>, ghost dst: seq<nat>)
      requires Valid() && newHM.Valid() && newHM != this && newHM.mem != mem
      requires newHM.sizelog2 == sizelog2 + 1
      requires forall j | 0 <= j < |newHM.hs| :: newHM.hs[j] == EMPTY_BUCKET
      modifies newHM`hs, newHM`offs, newHM`numStoredKeys, newHM.mem
      ensures newHM.Valid() && newHM.numStoredKeys == Alive(hs) == Alive(newHM.hs)
      ensures Moved(hs, offs, newHM.hs, newHM.offs, src, dst)
    {
      hide Pow2, Used, Alive, Reachable, NoGap, MovedUpto, Mirrors;
      src, dst := seq(newHM.size, _ => 0), [];
      MovedStart(hs, offs, newHM.hs, newHM.offs, src);
      CountZeros(newHM.hs);
      AlivePrefixZero(hs);
      var i := 0;
      while i < size
        invariant 0 <= i <= size
        invariant newHM.Valid()
        invariant |src| == |newHM.hs| && |dst| == i && MovedUpto(hs, offs, newHM.hs, newHM.offs, src, dst)
        invariant newHM.numStoredKeys == Alive(hs[..i]) == Alive(newHM.hs)
      {
        var h := GetHash(i);
        AlivePrefix(hs, i);
        if h > DELETED_BUCKET {
          var storeIndex := GetStoreIndex(i);
          RoomToMove(hs, i, sizelog2);
          var index := newHM.FindEmpty(h);
          MovedStep(hs, offs, newHM.hs, newHM.offs, src, dst, index);
          CountPut(newHM.hs, index, h);
          newHM.Fill(index, h, storeIndex);
          src, dst := src[index := i], dst + [index];
        } else {
          MovedSkip(hs, offs, newHM.hs, newHM.offs, src, dst);
          dst := dst + [0];
        }
        i := i + 1;
      }
      assert hs[..i] == hs;
    }
  }

  /** The first |dst| buckets of the old table have been moved; nothing else is in the new one. */
  ghost predicate MovedUpto(oh: seq<u32>, oo: seq<u32>, nh: seq<u32>, no: seq<u32>, src: seq<nat>, dst: seq<nat>)
  {
    && |oo| == |oh| && |no| == |nh| == |src| && |dst| <= |oh|
    && (forall a | 0 <= a < |dst| && oh[a] >= 2 ::
          dst[a] < |nh| && nh[dst[a]] == oh[a] && no[dst[a]] == oo[a] && src[dst[a]] == a)
    && (forall j | 0 <= j < |nh| && nh[j] != EMPTY_BUCKET ::
          nh[j] >= 2 && src[j] < |dst| && oh[src[j]] >= 2 && dst[src[j]] == j)
  }

  /** The live buckets of the old table and the buckets of the new one correspond one to one. */
  ghost predicate Moved(oh: seq<u32>, oo: seq<u32>, nh: seq<u32>, no: seq<u32>, src: seq<nat>, dst: seq<nat>)
  {
    |dst| == |oh| && MovedUpto(oh, oo, nh, no, src, dst)
  }

  lemma MovedStart(oh: seq<u32>, oo: seq<u32>, nh: seq<u32>, no: seq<u32>, src: seq<nat>)
    requires |oo| == |oh| && |no| == |nh| == |src|
    requires forall j | 0 <= j < |nh| :: nh[j] == EMPTY_BUCKET
    ensures MovedUpto(oh, oo, nh, no, src, [])
    ensures Alive(nh) == 0
  {
    CountZeros(nh);
  }

  lemma MovedStep(oh: seq<u32>, oo: seq<u32>, nh: seq<u32>, no: seq<u32>, src: seq<nat>, dst: seq<nat>, j: nat)
    requires MovedUpto(oh, oo, nh, no, src, dst) && |dst| < |oh| && oh[|dst|] >= 2
    requires j < |nh| && nh[j] == EMPTY_BUCKET
    ensures MovedUpto(oh, oo, nh[j := oh[|dst|]], no[j := oo[|dst|]], src[j := |dst|], dst + [j])
  {}

  lemma MovedSkip(oh: seq<u32>, oo: seq<u32>, nh: seq<u32>, no: seq<u32>, src: seq<nat>, dst: seq<nat>)
    requires MovedUpto(oh, oo, nh, no, src, dst) && |dst| < |oh| && oh[|dst|] < 2
    ensures MovedUpto(oh, oo, nh, no, src, dst + [0])
  {}

  lemma AlivePrefixZero(hs: seq<u32>)
    ensures Alive(hs[..0]) == 0
  {}

  lemma Pow2Double(k: nat)
    ensures Pow2(k + 1) == 2 * Pow2(k)
  {}

  lemma LoadGrows(log2: nat)
    ensures Pow2(log2) * 7 / 10 < Pow2(log2 + 1) * 7 / 10
  {}

  /** While live buckets remain to be moved, the doubled table is below its load limit. */
  lemma RoomToMove(hs: seq<u32>, i: nat, log2: nat)
    requires i < |hs| && Used(hs) <= Pow2(log2) * 7 / 10
    ensures Alive(hs[..i]) < Pow2(log2 + 1) * 7 / 10
  {
    AliveMonotone(hs, i);
    AliveUsed(hs);
    LoadGrows(log2);
  }

  lemma {:induction false} Log2Small(k: nat)
    requires Pow2(k) <= 0x1000_0000
    ensures k <= 32
  {
    if k > 32 {
      Pow2Of16();
      Pow2Add(16, 16);
      Pow2Monotone(32, k);
    }
  }
}
