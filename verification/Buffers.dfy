/** Byte arrays that are written in place. */
module Buffers {
  import opened ByteStrings

  /** f with the bytes from `at` on overwritten by s. */
  ghost function Splice(f: Bytes, at: nat, s: Bytes): (g: Bytes)
    requires at + |s| <= |f|
    ensures |g| == |f|
  {
    f[..at] + s + f[at + |s|..]
  }

  lemma SpliceAdjacent(f: Bytes, at: nat, s: Bytes, t: Bytes)
    requires at + |s| + |t| <= |f|
    ensures Splice(Splice(f, at, s), at + |s|, t) == Splice(f, at, s + t)
  {
    var g := Splice(f, at, s);
    assert g[..at + |s|] == f[..at] + s;
    assert g[at + |s| + |t|..] == f[at + |s| + |t|..];
    assert f[..at] + s + t == f[..at] + (s + t);
  }

  /** `copy(dst[at:], src)` for a source that fits. */
  method CopyInto(dst: array<byte>, at: nat, src: Bytes)
    requires at + |src| <= dst.Length
    modifies dst
    ensures dst[..] == Splice(old(dst[..]), at, src)
  {
    var i := 0;
    while i < |src|
      invariant 0 <= i <= |src|
      invariant forall j | 0 <= j < dst.Length ::
          dst[j] == if at <= j < at + i then src[j - at] else old(dst[j])
    {
      dst[at + i] := src[i];
      i := i + 1;
    }
  }

  /** What a prefix that ends with the written bytes looks like afterwards. */
  lemma SpliceTail(f: Bytes, at: nat, s: Bytes, from: nat)
    requires from <= at && at + |s| <= |f|
    ensures Splice(f, at, s)[from..at + |s|] == f[from..at] + s
  {}
}
