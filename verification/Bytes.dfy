/** Bytes, little-endian words, splices and bitmaps: what the on-disk formats are made of. */
module Bytes {

  type byte = x: int | 0 <= x < 0x100
  type u16 = x: int | 0 <= x < 0x1_0000
  type u32 = x: int | 0 <= x < 0x1_0000_0000
  type u64 = x: int | 0 <= x < 0x1_0000_0000_0000_0000

  const BLOCK_SIZE: nat := 512

  type Block = b: seq<byte> | |b| == 512 witness Zeros(512)

  /** Past this many bytes the block index of a position no longer fits in 32 bits. */
  const INDEX_LIMIT: nat := 0x1_0000_0000 * BLOCK_SIZE

  /** Where a position of a file leads, since block indices have 32 bits: to itself, up to the limit. */
  function Base(offset: nat): (r: nat)
    ensures r <= offset && r < INDEX_LIMIT
  {
    offset % INDEX_LIMIT
  }

  lemma BaseIs(offset: nat)
    requires offset < INDEX_LIMIT
    ensures Base(offset) == offset
  {}

  /** Where the position `i` bytes on from `offset` leads. */
  function Place(offset: nat, i: nat): (r: nat)
    ensures r <= offset + i
  {
    Base(offset + i)
  }

  lemma PlaceIs(offset: nat, i: nat)
    ensures offset + i < INDEX_LIMIT ==> Place(offset, i) == offset + i
  {}

  /** Up to this size the number of a file's blocks fits in 32 bits, which truncation counts on. */
  const CUT_LIMIT: nat := INDEX_LIMIT - BLOCK_SIZE

  /** What is left of a number in 32 bits, also of one below zero. */
  function AsU32(x: int): (r: u32)
    ensures x >= 0 ==> r <= x
    ensures 0 <= x < 0x1_0000_0000 ==> r == x
  {
    x % 0x1_0000_0000
  }

  function Min(a: int, b: int): int { if a <= b then a else b }

  function Zeros(n: nat): (r: seq<byte>)
    ensures |r| == n && forall i :: 0 <= i < n ==> r[i] == 0
  {
    seq(n, i => 0)
  }

  predicate NulFree(s: seq<byte>) { forall i :: 0 <= i < |s| ==> s[i] != 0 }

  // ---------------------------------------------------------------- words

  function LE16(x: u16): (r: seq<byte>) ensures |r| == 2 { [x % 0x100, x / 0x100] }

  function FromLE16(b: seq<byte>): u16 requires |b| == 2 { b[0] as int + 0x100 * b[1] as int }

  function LE32(x: u32): (r: seq<byte>)
    ensures |r| == 4
  {
    [x % 0x100, x / 0x100 % 0x100, x / 0x1_0000 % 0x100, x / 0x100_0000]
  }

  function FromLE32(b: seq<byte>): u32
    requires |b| == 4
  {
    b[0] as int + 0x100 * b[1] as int + 0x1_0000 * b[2] as int + 0x100_0000 * b[3] as int
  }

  function LE64(x: u64): (r: seq<byte>)
    ensures |r| == 8
  {
    LE32(x % 0x1_0000_0000) + LE32(x / 0x1_0000_0000)
  }

  function FromLE64(b: seq<byte>): u64
    requires |b| == 8
  {
    FromLE32(b[..4]) + 0x1_0000_0000 * FromLE32(b[4..])
  }

  /** The lowest byte comes first. */
  lemma WordFormat()
    ensures LE16(0x0201) == [1, 2] && LE32(0x0403_0201) == [1, 2, 3, 4]
    ensures forall x: u64 :: LE64(x) == LE32(x % 0x1_0000_0000) + LE32(x / 0x1_0000_0000)
  {}

  lemma LE16RoundTrip(x: u16)
    ensures FromLE16(LE16(x)) == x
  {}

  lemma LE32RoundTrip(x: u32)
    ensures FromLE32(LE32(x)) == x
  {
    var q := x / 0x100;
    var r := q / 0x100;
    assert x == 0x100 * q + x % 0x100 && q == 0x100 * r + q % 0x100;
    assert x / 0x1_0000 == r && x / 0x100_0000 == r / 0x100 < 0x100;
    assert r == 0x100 * (r / 0x100) + r % 0x100;
  }

  lemma LE64RoundTrip(x: u64)
    ensures FromLE64(LE64(x)) == x
  {
    LE32RoundTrip(x % 0x1_0000_0000);
    LE32RoundTrip(x / 0x1_0000_0000);
    assert LE64(x)[..4] == LE32(x % 0x1_0000_0000);
    assert LE64(x)[4..] == LE32(x / 0x1_0000_0000);
  }

  /** A table of 32-bit words, least significant byte first. */
  function PackU32(xs: seq<u32>): (r: seq<byte>)
    ensures |r| == 4 * |xs|
    ensures forall i :: 0 <= i < |xs| ==> r[4 * i..4 * i + 4] == LE32(xs[i])
  {
    var r := seq(4 * |xs|, k requires 0 <= k < 4 * |xs| => LE32(xs[k / 4])[k % 4]);
    assert forall i :: 0 <= i < |xs| ==> r[4 * i..4 * i + 4] == LE32(xs[i]) by {
      forall i | 0 <= i < |xs| ensures r[4 * i..4 * i + 4] == LE32(xs[i]) {
        forall d | 0 <= d < 4 ensures r[4 * i + d] == LE32(xs[i])[d] {
          assert (4 * i + d) / 4 == i && (4 * i + d) % 4 == d;
        }
      }
    }
    r
  }

  function UnpackU32(b: seq<byte>): (r: seq<u32>)
    ensures |r| == |b| / 4
    ensures forall i :: 0 <= i < |r| ==> r[i] == FromLE32(b[4 * i..4 * i + 4])
  {
    seq(|b| / 4, i requires 0 <= i < |b| / 4 => FromLE32(b[4 * i..4 * i + 4]))
  }

  lemma UnpackPack(xs: seq<u32>)
    ensures UnpackU32(PackU32(xs)) == xs
  {
    forall i | 0 <= i < |xs| ensures UnpackU32(PackU32(xs))[i] == xs[i] {
      LE32RoundTrip(xs[i]);
    }
  }

  // ---------------------------------------------------------------- splices

  /** `b` with the bytes at `off` replaced by `d`: the effect of `b[off..off+n].copy_from_slice(d)`. */
  function Splice(b: seq<byte>, off: nat, d: seq<byte>): (r: seq<byte>)
    requires off + |d| <= |b|
    ensures |r| == |b|
    ensures forall i :: 0 <= i < |b| ==> r[i] == if off <= i < off + |d| then d[i - off] else b[i]
  {
    b[..off] + d + b[off + |d|..]
  }

  lemma {:induction false} RecordsApart(w: nat, j: nat, k: nat)
    requires j < k
    ensures w * j + w <= w * k
    decreases k
  {
    assert w * k == w * (k - 1) + w;
    if j < k - 1 { RecordsApart(w, j, k - 1); }
  }

  /** A splice shows what it put in, and elsewhere what was there. */
  lemma SpliceWindow(b: seq<byte>, y: nat, d: seq<byte>, x: nat)
    requires y + |d| <= |b| && x + |d| <= |b| && (x == y || x + |d| <= y || y + |d| <= x)
    ensures Splice(b, y, d)[x..x + |d|] == if x == y then d else b[x..x + |d|]
  {}

  /** Splicing one record of a table of `w`-byte records replaces that record and no other. */
  lemma SpliceRecord(b: seq<byte>, w: nat, k: nat, d: seq<byte>, j: nat)
    requires |d| == w && w * k + w <= |b| && w * j + w <= |b|
    ensures Splice(b, w * k, d)[w * j..w * j + w] == if j == k then d else b[w * j..w * j + w]
  {
    hide Splice;
    if j < k {
      RecordsApart(w, j, k);
    } else if k < j {
      RecordsApart(w, k, j);
    }
    SpliceWindow(b, w * k, d, w * j);
    if w == 0 { assert Splice(b, w * k, d)[w * j..w * j + w] == [] == d; }
  }

  lemma UnpackSplice(b: seq<byte>, j: nat, v: u32)
    requires 4 * j + 4 <= |b|
    ensures UnpackU32(Splice(b, 4 * j, LE32(v))) == UnpackU32(b)[j := v]
  {
    var c := Splice(b, 4 * j, LE32(v));
    forall i | 0 <= i < |b| / 4 ensures UnpackU32(c)[i] == UnpackU32(b)[j := v][i] {
      SpliceRecord(b, 4, j, LE32(v), i);
      LE32RoundTrip(v);
    }
  }

  lemma UnpackZeros(n: nat)
    ensures forall i :: 0 <= i < n / 4 ==> UnpackU32(Zeros(n))[i] == 0
  {}

  // ---------------------------------------------------------------- bits

  function Pow2(k: nat): (p: nat)
    ensures p >= 1
  {
    if k == 0 then 1 else 2 * Pow2(k - 1)
  }

  /** `b & (1 << s) != 0` */
  predicate Bit(b: nat, s: nat)
  {
    if s == 0 then b % 2 == 1 else Bit(b / 2, s - 1)
  }

  function Set(b: nat, s: nat): (r: nat)
  {
    if s == 0 then b - b % 2 + 1 else 2 * Set(b / 2, s - 1) + b % 2
  }

  function Clear(b: nat, s: nat): (r: nat)
    ensures r <= b
  {
    if s == 0 then b - b % 2 else 2 * Clear(b / 2, s - 1) + b % 2
  }

  lemma {:induction false} SetBits(b: nat, s: nat, t: nat)
    ensures Bit(Set(b, s), t) <==> t == s || Bit(b, t)
  {
    if s > 0 && t > 0 { SetBits(b / 2, s - 1, t - 1); }
  }

  lemma {:induction false} ClearBits(b: nat, s: nat, t: nat)
    ensures Bit(Clear(b, s), t) <==> t != s && Bit(b, t)
  {
    if s > 0 && t > 0 { ClearBits(b / 2, s - 1, t - 1); }
  }

  lemma {:induction false} SetBound(b: nat, s: nat, k: nat)
    requires s < k && b < Pow2(k)
    ensures Set(b, s) < Pow2(k)
  {
    assert Pow2(k) == 2 * Pow2(k - 1);
    if s > 0 {
      assert b / 2 < Pow2(k - 1);
      SetBound(b / 2, s - 1, k - 1);
      assert Set(b, s) == 2 * Set(b / 2, s - 1) + b % 2;
    }
  }

  lemma {:induction false} FromBits(a: nat, b: nat, k: nat)
    requires a < Pow2(k) && b < Pow2(k)
    requires forall t :: 0 <= t < k ==> (Bit(a, t) <==> Bit(b, t))
    ensures a == b
  {
    if k > 0 {
      assert Bit(a, 0) <==> Bit(b, 0);
      forall t | 0 <= t < k - 1 ensures Bit(a / 2, t) <==> Bit(b / 2, t) {
        assert Bit(a, t + 1) <==> Bit(b, t + 1);
      }
      FromBits(a / 2, b / 2, k - 1);
    }
  }

  lemma EightBits()
    ensures Pow2(8) == 0x100
  {
    assert Pow2(4) == 16;
    assert Pow2(6) == 64;
  }

  /** `b | (1 << s)` */
  function SetBit(b: byte, s: nat): (r: byte)
    requires s < 8
    ensures forall t: nat :: Bit(r, t) <==> t == s || Bit(b, t)
  {
    EightBits();
    SetBound(b, s, 8);
    assert forall t: nat :: Bit(Set(b, s), t) <==> t == s || Bit(b, t) by {
      forall t: nat { SetBits(b, s, t); }
    }
    Set(b, s)
  }

  /** `b & !(1 << s)` */
  function ClearBit(b: byte, s: nat): (r: byte)
    requires s < 8
    ensures forall t: nat :: Bit(r, t) <==> t != s && Bit(b, t)
  {
    assert forall t: nat :: Bit(Clear(b, s), t) <==> t != s && Bit(b, t) by {
      forall t: nat { ClearBits(b, s, t); }
    }
    Clear(b, s)
  }

  /** Bit `n` of a bitmap, least significant bit of each byte first. */
  predicate BitAt(bm: seq<byte>, n: nat)
    requires n < 8 * |bm|
  {
    Bit(bm[n / 8], n % 8)
  }

  lemma TwiceProduct(p: nat, m: nat)
    ensures 2 * p * m == 2 * (p * m)
  {}

  /** Bit `t` is the binary digit that stands for 2 to the power of `t`: the first bit of a byte is its lowest. */
  lemma {:induction false} BitIsDigit(hi: nat, digit: nat, lo: nat, t: nat)
    requires digit < 2 && lo < Pow2(t)
    ensures Bit(Pow2(t) * (2 * hi + digit) + lo, t) <==> digit == 1
  {
    if t > 0 {
      var x := Pow2(t - 1) * (2 * hi + digit);
      TwiceProduct(Pow2(t - 1), 2 * hi + digit);
      assert (2 * x + lo) / 2 == x + lo / 2;
      BitIsDigit(hi, digit, lo / 2, t - 1);
    }
  }

  function WithBit(bm: seq<byte>, n: nat): (r: seq<byte>)
    requires n < 8 * |bm|
    ensures |r| == |bm|
    ensures forall m :: 0 <= m < 8 * |bm| ==> (BitAt(r, m) <==> m == n || BitAt(bm, m))
  {
    bm[n / 8 := SetBit(bm[n / 8], n % 8)]
  }

  function WithoutBit(bm: seq<byte>, n: nat): (r: seq<byte>)
    requires n < 8 * |bm|
    ensures |r| == |bm|
    ensures forall m :: 0 <= m < 8 * |bm| ==> (BitAt(r, m) <==> m != n && BitAt(bm, m))
  {
    bm[n / 8 := ClearBit(bm[n / 8], n % 8)]
  }

  /** A bitmap is determined by its bits. */
  lemma BitmapFromBits(a: seq<byte>, b: seq<byte>)
    requires |a| == |b|
    requires forall n :: 0 <= n < 8 * |a| ==> (BitAt(a, n) <==> BitAt(b, n))
    ensures a == b
  {
    forall i | 0 <= i < |a| ensures a[i] == b[i] {
      forall t | 0 <= t < 8 ensures Bit(a[i], t) <==> Bit(b[i], t) {
        assert BitAt(a, 8 * i + t) <==> BitAt(b, 8 * i + t);
      }
      EightBits();
      FromBits(a[i], b[i], 8);
    }
  }
}
