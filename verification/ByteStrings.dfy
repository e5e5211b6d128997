/** Bytes, little-endian integers and the fixed-width arithmetic the store and the wire format use. */
module ByteStrings {

  type byte = b: int | 0 <= b < 256
  type Bytes = seq<byte>

  const TWO28: nat := 0x1000_0000
  const TWO32: nat := 0x1_0000_0000
  const TWO63: nat := 0x8000_0000_0000_0000
  const TWO64: nat := 0x1_0000_0000_0000_0000

  type u32 = n: int | 0 <= n < TWO32
  type u64 = n: int | 0 <= n < TWO64

  /** FNV-1a is used only as a deterministic function: every result holds for any hash of this type. */
  type Hash = Bytes -> u64

  function Pow256(k: nat): (p: nat)
    ensures p > 0
  {
    if k == 0 then 1 else 256 * Pow256(k - 1)
  }

  /** The value of a little-endian byte string. */
  function FromLE(s: Bytes): (n: nat)
  {
    if s == [] then 0 else s[0] + 256 * FromLE(s[1..])
  }

  /** The k low bytes of n, least significant first (higher bytes are cut off). */
  function ToLE(n: nat, k: nat): (s: Bytes)
    ensures |s| == k
    decreases k, n
  {
    if k == 0 then [] else [n % 256] + ToLE(n / 256, k - 1)
  }

  function PutU32(n: nat): (s: Bytes)
    ensures |s| == 4
  {
    ToLE(n, 4)
  }

  lemma {:induction false} FromLEBound(s: Bytes)
    ensures FromLE(s) < Pow256(|s|)
  {
    if s != [] { FromLEBound(s[1..]); }
  }

  lemma {:induction false} DecodeEncode(n: nat, k: nat)
    requires n < Pow256(k)
    ensures FromLE(ToLE(n, k)) == n
    decreases k
  {
    if k > 0 {
      assert ToLE(n, k)[1..] == ToLE(n / 256, k - 1);
      DecodeEncode(n / 256, k - 1);
    }
  }

  lemma {:induction false} EncodeDecode(s: Bytes)
    ensures ToLE(FromLE(s), |s|) == s
  {
    if s != [] {
      EncodeDecode(s[1..]);
      assert s == [s[0]] + s[1..];
    }
  }

  /** Equal-length byte strings are equal exactly when they encode the same number. */
  lemma FromLEInjective(s: Bytes, t: Bytes)
    requires |s| == |t|
    ensures FromLE(s) == FromLE(t) <==> s == t
  {
    EncodeDecode(s);
    EncodeDecode(t);
  }

  lemma {:induction false} FromLEConcat(s: Bytes, t: Bytes)
    ensures FromLE(s + t) == FromLE(s) + Pow256(|s|) * FromLE(t)
  {
    if s == [] {
      assert s + t == t;
    } else {
      assert (s + t)[1..] == s[1..] + t;
      FromLEConcat(s[1..], t);
      MulAssoc(256, Pow256(|s| - 1), FromLE(t));
    }
  }

  lemma MulAssoc(a: nat, b: nat, c: nat)
    ensures a * (b * c) == (a * b) * c
  {}

  lemma U32RoundTrip(n: u32)
    ensures FromLE(PutU32(n)) == n
  {
    DecodeEncode(n, 4);
  }

  lemma U64Bound(s: Bytes)
    requires |s| == 8
    ensures FromLE(s) < TWO64
  {
    FromLEBound(s);
  }

  lemma U32Bound(s: Bytes)
    requires |s| == 4
    ensures FromLE(s) < TWO32
  {
    FromLEBound(s);
  }

  lemma U64RoundTrip(n: u64)
    ensures FromLE(ToLE(n, 8)) == n
  {
    DecodeEncode(n, 8);
  }

  /** Two's complement reading of a 64-bit word: `int64(x)`. */
  function Signed(x: nat): (i: int)
  {
    if x < TWO63 then x else x - TWO64
  }

  /** The bitwise exclusive or of the k low bits. */
  function XorBits(a: nat, b: nat, k: nat): (r: nat)
    decreases k, a, b
  {
    if k == 0 then 0
    else (if a % 2 != b % 2 then 1 else 0) + 2 * XorBits(a / 2, b / 2, k - 1)
  }

  function Pow2(k: nat): (p: nat)
    ensures p > 0
  {
    if k == 0 then 1 else 2 * Pow2(k - 1)
  }

  lemma {:induction false} XorBitsBound(a: nat, b: nat, k: nat)
    ensures XorBits(a, b, k) < Pow2(k)
    decreases k
  {
    if k > 0 { XorBitsBound(a / 2, b / 2, k - 1); }
  }

  lemma XorBits64(a: nat, b: nat, k: nat)
    requires k == 64
    ensures XorBits(a, b, k) < TWO64
  {
    XorBitsBound(a, b, k);
    Pow2Of64(k);
  }

  lemma Pow2Of16()
    ensures Pow2(16) == 0x1_0000
  {
    assert Pow2(8) == 256;
    Pow2Add(8, 8);
  }

  lemma Pow2Of64(k: nat)
    requires k == 64
    ensures Pow2(k) == TWO64
  {
    var j := k - 48;
    Pow2Of16();
    Pow2Add(j, j);
    Pow2Add(j, j + j);
    Pow2Add(j, j + j + j);
  }

  function Xor64(a: nat, b: nat): (r: u64)
  {
    XorBits64(a, b, 64);
    XorBits(a, b, 64)
  }

  lemma {:induction false} Pow2Add(a: nat, b: nat)
    ensures Pow2(a + b) == Pow2(a) * Pow2(b)
    decreases a
  {
    if a > 0 {
      Pow2Add(a - 1, b);
      MulAssoc(2, Pow2(a - 1), Pow2(b));
    }
  }

  lemma {:induction false} Pow2Monotone(a: nat, b: nat)
    requires a <= b
    ensures Pow2(a) <= Pow2(b)
    decreases b
  {
    if a < b { Pow2Monotone(a, b - 1); }
  }

  /** The bitwise and of the k low bits. */
  function AndBits(a: nat, b: nat, k: nat): (r: nat)
    decreases k, a, b
  {
    if k == 0 then 0
    else (if a % 2 == 1 && b % 2 == 1 then 1 else 0) + 2 * AndBits(a / 2, b / 2, k - 1)
  }

  /** Masking with 2^k - 1, as the index does with `sizeMask`, keeps the remainder by 2^k. */
  lemma {:induction false} MaskIsMod(h: nat, k: nat, w: nat)
    requires k <= w
    ensures AndBits(h, Pow2(k) - 1, w) == h % Pow2(k)
    decreases w
  {
    if k == 0 {
      AndZero(h, w);
    } else {
      var p := Pow2(k - 1);
      MaskIsMod(h / 2, k - 1, w - 1);
      assert Pow2(k) == 2 * p;
      MaskStep(h, p, w);
      HalfMod(h, p);
    }
  }

  lemma {:induction false} AndZero(h: nat, w: nat)
    ensures AndBits(h, 0, w) == 0
    decreases w
  {
    if w > 0 { AndZero(h / 2, w - 1); }
  }

  lemma MaskStep(h: nat, p: nat, w: nat)
    requires p > 0 && w > 0
    ensures AndBits(h, 2 * p - 1, w) == h % 2 + 2 * AndBits(h / 2, p - 1, w - 1)
  {
    assert (2 * p - 1) / 2 == p - 1;
    assert (2 * p - 1) % 2 == 1;
  }

  lemma HalfMod(h: nat, p: nat)
    requires p > 0
    ensures h % (2 * p) == h % 2 + 2 * ((h / 2) % p)
  {
    var q, r := h / 2 / p, (h / 2) % p;
    assert h / 2 == q * p + r;
    assert h == 2 * (q * p + r) + h % 2;
    assert h == q * (2 * p) + (2 * r + h % 2) by { assert q * (2 * p) == 2 * (q * p); }
    ModUnique(h, 2 * p, q, 2 * r + h % 2);
  }

  lemma ModUnique(h: nat, n: nat, q: nat, r: nat)
    requires n > 0 && r < n && h == q * n + r
    ensures h % n == r
  {
    var q', r' := h / n, h % n;
    assert h == q' * n + r';
    if q < q' {
      MulStep(q, q', n);
    } else if q' < q {
      MulStep(q', q, n);
    }
  }

  lemma MulStep(q: nat, p: nat, n: nat)
    requires q < p
    ensures q * n + n <= p * n
  {
    assert (p - q) * n == p * n - q * n;
    assert (p - q - 1) * n >= 0;
    assert (p - q - 1) * n == (p - q) * n - n;
  }
}
