/** Exclusive or on 64-bit words, and what the checksum weight of a pair tells about it. */
module PairWeights {
  import opened ByteStrings
  import opened TimedMap
  import opened PMapSpec
  import opened PMapChecksum

  /** Bit i of a word. */
  function Bit(a: nat, i: nat): (b: bool)
  {
    if i == 0 then a % 2 == 1 else Bit(a / 2, i - 1)
  }

  lemma {:induction false} XorBitsAt(a: nat, b: nat, k: nat, i: nat)
    requires i < k
    ensures Bit(XorBits(a, b, k), i) <==> Bit(a, i) != Bit(b, i)
    decreases k
  {
    var r := XorBits(a / 2, b / 2, k - 1);
    if i > 0 {
      assert XorBits(a, b, k) / 2 == r;
      XorBitsAt(a / 2, b / 2, k - 1, i - 1);
    } else {
      assert XorBits(a, b, k) % 2 == 1 <==> a % 2 != b % 2;
    }
  }

  /** A bit of the result is set if and only if it is set in exactly one of the two words. */
  lemma XorAt(a: u64, b: u64, i: nat)
    requires i < 64
    ensures Bit(Xor64(a, b), i) <==> Bit(a, i) != Bit(b, i)
  {
    XorBitsAt(a, b, 64, i);
  }

  lemma {:induction false} XorBitsUndoes(a: nat, b: nat, k: nat)
    requires a < Pow2(k)
    ensures XorBits(XorBits(a, b, k), b, k) == a
    decreases k
  {
    if k > 0 {
      var x := XorBits(a, b, k);
      assert x / 2 == XorBits(a / 2, b / 2, k - 1) && x % 2 == if a % 2 != b % 2 then 1 else 0;
      XorBitsUndoes(a / 2, b / 2, k - 1);
    }
  }

  lemma {:induction false} XorBitsCommutes(a: nat, b: nat, k: nat)
    ensures XorBits(a, b, k) == XorBits(b, a, k)
    decreases k
  {
    if k > 0 { XorBitsCommutes(a / 2, b / 2, k - 1); }
  }

  lemma {:induction false} XorBitsUnit(a: nat, k: nat)
    requires a < Pow2(k)
    ensures XorBits(a, 0, k) == a
    decreases k
  {
    if k > 0 { XorBitsUnit(a / 2, k - 1); }
  }

  /** Exclusive or undoes itself, is commutative and has 0 as its unit. */
  lemma XorLaws(a: u64, b: u64)
    ensures Xor64(Xor64(a, b), b) == a && Xor64(a, b) == Xor64(b, a) && Xor64(a, 0) == a
  {
    var k := 64;
    Pow2Of64(k);
    XorBitsUndoes(a, b, k);
    XorBitsCommutes(a, b, k);
    XorBitsUnit(a, k);
  }

  /** Weight and timestamp bytes give the hash of the key, weight and hash the timestamp bytes. */
  lemma WeightLaws(hash: Hash, k: Bytes, v: Bytes)
    requires |v| >= 8
    ensures FromLE(v[..8]) < TWO64
    ensures Xor64(Mix(hash, k, v), FromLE(v[..8])) == hash(k)
    ensures Xor64(Mix(hash, k, v), hash(k)) == FromLE(v[..8])
  {
    hide Xor64, FromLE;
    U64Bound(v[..8]);
    XorLaws(hash(k), FromLE(v[..8]));
    XorLaws(FromLE(v[..8]), hash(k));
  }

  /** Replacing the value of a key changes the sum over the pairs if and only if it changes the timestamp bytes. */
  lemma SumSeesTimes(hash: Hash, m: Dict, k: Bytes, v: Bytes)
    requires k in m && |m[k]| >= 8 && |v| >= 8
    ensures PairSum(hash, m[k := v]) % TWO64 == PairSum(hash, m) % TWO64 <==> m[k][..8] == v[..8]
  {
    hide PairSum, FromLE, Xor64, Mix;
    PairSumPut(hash, m, k, v);
    PairSumRemove(hash, m, k);
    WeightLaws(hash, k, v);
    WeightLaws(hash, k, m[k]);
    FromLEInjective(v[..8], m[k][..8]);
    SameMod(PairSum(hash, m - {k}), Mix(hash, k, v), Mix(hash, k, m[k]));
    if m[k][..8] == v[..8] {
      XorLaws(Mix(hash, k, v), FromLE(v[..8]));
      XorLaws(Mix(hash, k, m[k]), FromLE(v[..8]));
    }
  }

  lemma SameMod(n: int, a: u64, b: u64)
    ensures (n + a) % TWO64 == (n + b) % TWO64 <==> a == b
  {}
}
