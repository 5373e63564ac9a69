/**
 * Bit and byte primitives of the codec (lib/lz4kd/lz4kd_private.h):
 * power-of-two masks and rounding, little-endian reads, window equality,
 * the 5-byte multiplicative hash, and the chunked copy loops that both the
 * encoder and the decoder use.
 *
 * Pointers are indices. `m_copy` is a snapshot copy: the whole source chunk
 * is read before any byte is written, which is what a `memcpy` of a small
 * fixed size does in practice even on overlapping ranges.
 */
module Primitives {

  type uint8 = x: int | 0 <= x < 0x100
  type uint16 = x: int | 0 <= x < 0x1_0000

  const BYTE_MAX: nat := 255
  const REPEAT_MIN: nat := 4
  const TAG_BYTES_MAX: nat := 3
  const TAG_BITS_MAX: nat := 24
  const BLOCK_4KB_LOG2: nat := 12
  const NR_4KB_LOG2: nat := 6
  const PATTERN_BYTES_MAX: nat := 8
  const U32: nat := 0x1_0000_0000
  const U64: nat := 0x1_0000_0000_0000_0000

  function Pow2(k: nat): (r: nat)
    ensures r >= 1
  {
    if k == 0 then 1 else 2 * Pow2(k - 1)
  }

  lemma {:induction false} Pow2Add(a: nat, b: nat)
    ensures Pow2(a + b) == Pow2(a) * Pow2(b)
  {
    if a > 0 {
      Pow2Add(a - 1, b);
      assert Pow2(a + b) == 2 * Pow2(a - 1 + b);
    }
  }

  /** `mask(k)`: the value whose k low bits are all ones. */
  function Mask(k: nat): (r: nat)
    ensures r + 1 == Pow2(k)
  {
    if k == 0 then 0 else 2 * Mask(k - 1) + 1
  }

  function Min(a: int, b: int): (r: int)
    ensures r <= a && r <= b && (r == a || r == b)
  {
    if a < b then a else b
  }

  function Max(a: int, b: int): (r: int)
    ensures r >= a && r >= b && (r == a || r == b)
  {
    if a > b then a else b
  }

  /** `round_down_to_log2`: `u & ~mask(k)`, i.e. u with its k low bits cleared. */
  function RoundDownToLog2(u: nat, k: nat): (r: nat)
    ensures r % Pow2(k) == 0
    ensures r <= u < r + Pow2(k)
  {
    RoundDown(u, Pow2(k));
    u - u % Pow2(k)
  }

  /** Clearing the remainder modulo p leaves the largest multiple of p not above u. */
  lemma RoundDown(u: nat, p: nat)
    requires p > 0
    ensures u % p <= u && (u - u % p) % p == 0 && u - u % p <= u < u - u % p + p
  {
    var q := u / p;
    assert u == q * p + u % p;
    MulMod(q, p);
  }

  /** `round_up_to_log2`: `(u + mask(k)) & ~mask(k)`. */
  function RoundUpToLog2(u: nat, k: nat): (r: nat)
    ensures r % Pow2(k) == 0
    ensures u <= r < u + Pow2(k)
  {
    RoundDownToLog2(u + Mask(k), k)
  }

  lemma MulNonneg(a: int, b: int)
    requires a >= 0 && b >= 0
    ensures a * b >= 0
  {
  }

  /** Euclidean division is determined by any quotient/remainder pair. */
  lemma DivModUnique(x: int, p: int, q: int, r: int)
    requires p > 0 && 0 <= r < p && x == q * p + r
    ensures x / p == q && x % p == r
  {
    var q', r' := x / p, x % p;
    assert x == q' * p + r';
    if q > q' {
      MulNonneg(q - q' - 1, p);
      assert false;
    } else if q < q' {
      MulNonneg(q' - q - 1, p);
      assert false;
    }
  }

  lemma MulMod(q: nat, p: nat)
    requires p > 0
    ensures (q * p) % p == 0 && (q * p) / p == q
  {
    DivModUnique(q * p, p, q, 0);
  }

  /** Adding a multiple of p does not change the remainder modulo p. */
  lemma ModShift(x: nat, d: nat, p: nat)
    requires p > 0 && d % p == 0
    ensures (x + d) % p == x % p
  {
    var a, b := x / p, d / p;
    assert d == b * p;
    assert x == a * p + x % p;
    assert x + d == (a + b) * p + x % p;
    DivModUnique(x + d, p, a + b, x % p);
  }

  /** Round-down is the greatest multiple of 2^k not above u. */
  lemma RoundDownIsGreatest(u: nat, k: nat, m: nat)
    requires m % Pow2(k) == 0 && m <= u
    ensures m <= RoundDownToLog2(u, k)
  {
    var p := Pow2(k);
    var r := RoundDownToLog2(u, k);
    if m > r {
      DistinctMultiplesApart(m, r, p);
      assert false;
    }
  }

  /** Round-up is the least multiple of 2^k not below u. */
  lemma RoundUpIsLeast(u: nat, k: nat, m: nat)
    requires m % Pow2(k) == 0 && u <= m
    ensures RoundUpToLog2(u, k) <= m
  {
    var p := Pow2(k);
    var r := RoundUpToLog2(u, k);
    if r > m {
      DistinctMultiplesApart(r, m, p);
      assert false;
    }
  }

  /** Two different multiples of p are at least p apart. */
  lemma DistinctMultiplesApart(a: nat, b: nat, p: nat)
    requires p > 0 && a % p == 0 && b % p == 0 && a > b
    ensures a - b >= p
  {
    var qa, qb := a / p, b / p;
    assert a == qa * p && b == qb * p;
    MulNonneg(qa - qb - 1, p);
    assert a - b == (qa - qb - 1) * p + p;
  }

  // ---------------------------------------------------------------------
  // Little-endian reads

  /** The little-endian value of a byte string. */
  function LeValue(bs: seq<uint8>): (v: nat)
  {
    if bs == [] then 0 else bs[0] + 256 * LeValue(bs[1..])
  }

  /** The bytes of the little-endian representation of v, n bytes wide. */
  function LeBytes(v: nat, n: nat): (bs: seq<uint8>)
    ensures |bs| == n
  {
    if n == 0 then [] else [v % 256] + LeBytes(v / 256, n - 1)
  }

  function Pow256(n: nat): (r: nat)
    ensures r >= 1
  {
    if n == 0 then 1 else 256 * Pow256(n - 1)
  }

  lemma {:induction false} LeValueBound(bs: seq<uint8>)
    ensures LeValue(bs) < Pow256(|bs|)
  {
    if bs != [] {
      LeValueBound(bs[1..]);
    }
  }

  /** Writing v in n little-endian bytes and reading them back gives v. */
  lemma {:induction false} LeRoundTrip(v: nat, n: nat)
    requires v < Pow256(n)
    ensures LeValue(LeBytes(v, n)) == v
  {
    if n > 0 {
      assert v == 256 * (v / 256) + v % 256;
      LeRoundTrip(v / 256, n - 1);
      assert LeBytes(v, n)[1..] == LeBytes(v / 256, n - 1);
    }
  }

  /** Two byte strings of one length are equal iff their little-endian values are. */
  lemma {:induction false} LeValueInjective(a: seq<uint8>, b: seq<uint8>)
    requires |a| == |b|
    ensures LeValue(a) == LeValue(b) <==> a == b
  {
    if a != [] && LeValue(a) == LeValue(b) {
      assert LeValue(a) == a[0] as int + 256 * LeValue(a[1..]);
      assert LeValue(b) == b[0] as int + 256 * LeValue(b[1..]);
      assert LeValue(a[1..]) == LeValue(a) / 256 && LeValue(b[1..]) == LeValue(b) / 256;
      LeValueInjective(a[1..], b[1..]);
      assert a == [a[0]] + a[1..] && b == [b[0]] + b[1..];
    }
  }

  /** `read3_at`: three bytes, zero-extended to 32 bits. */
  function Read3At(s: seq<uint8>, i: nat): (v: nat)
    requires i + 3 <= |s|
    ensures v < 0x100_0000
  {
    LeValueBound(s[i..i + 3]);
    assert Pow256(3) == 0x100_0000;
    LeValue(s[i..i + 3])
  }

  /** The value `read3_at` gives, byte by byte. */
  lemma Read3AtBytes(s: seq<uint8>, i: nat)
    requires i + 3 <= |s|
    ensures Read3At(s, i) == s[i] as int + 0x100 * s[i + 1] as int + 0x1_0000 * s[i + 2] as int
  {
    var w := s[i..i + 3];
    assert w[1..][1..][1..] == [];
    assert LeValue(w[1..][1..]) == s[i + 2] as int;
    assert LeValue(w[1..]) == s[i + 1] as int + 256 * s[i + 2] as int;
  }

  /** `read4_at`: four bytes, little-endian. */
  function Read4At(s: seq<uint8>, i: nat): (v: nat)
    requires i + 4 <= |s|
    ensures v < U32
  {
    LeValueBound(s[i..i + 4]);
    assert Pow256(4) == U32;
    LeValue(s[i..i + 4])
  }

  /** `read8_at`: eight bytes, little-endian. */
  function Read8At(s: seq<uint8>, i: nat): (v: nat)
    requires i + 8 <= |s|
    ensures v < U64
  {
    LeValueBound(s[i..i + 8]);
    assert Pow256(8) == U64;
    LeValue(s[i..i + 8])
  }

  /** `equal4`: the 4-byte windows at q and r are equal. */
  function Equal4(s: seq<uint8>, q: nat, r: nat): (b: bool)
    requires q + 4 <= |s| && r + 4 <= |s|
    ensures b <==> s[q..q + 4] == s[r..r + 4]
  {
    LeValueInjective(s[q..q + 4], s[r..r + 4]);
    Read4At(s, q) == Read4At(s, r)
  }

  /** `equal8`: the 8-byte windows at q and r are equal. */
  function Equal8(s: seq<uint8>, q: nat, r: nat): (b: bool)
    requires q + 8 <= |s| && r + 8 <= |s|
    ensures b <==> s[q..q + 8] == s[r..r + 8]
  {
    LeValueInjective(s[q..q + 8], s[r..r + 8]);
    Read8At(s, q) == Read8At(s, r)
  }

  /**
   * `equal3`: both 4-byte reads shifted left by 8 inside 32 bits, so the top
   * byte drops out and only the 3 low bytes are compared.
   */
  function Equal3(s: seq<uint8>, q: nat, r: nat): (b: bool)
    requires q + 4 <= |s| && r + 4 <= |s|
    ensures b <==> s[q..q + 3] == s[r..r + 3]
  {
    ShiftDropsTopByte(s[q..q + 4]);
    ShiftDropsTopByte(s[r..r + 4]);
    LeValueInjective(s[q..q + 3], s[r..r + 3]);
    assert s[q..q + 4][..3] == s[q..q + 3] && s[r..r + 4][..3] == s[r..r + 3];
    (Read4At(s, q) * 256) % U32 == (Read4At(s, r) * 256) % U32
  }

  lemma ShiftDropsTopByte(w: seq<uint8>)
    requires |w| == 4
    ensures (LeValue(w) * 256) % U32 == LeValue(w[..3]) * 256
  {
    assert w[1..][1..][1..][1..] == [] && w[..3][1..][1..][1..] == [];
    var lo := w[0] as int + 256 * w[1] as int + 0x1_0000 * w[2] as int;
    assert LeValue(w[1..][1..][1..]) == w[3] as int;
    assert LeValue(w[1..][1..]) == w[2] as int + 256 * w[3] as int;
    assert LeValue(w[1..]) == w[1] as int + 256 * w[2] as int + 0x1_0000 * w[3] as int;
    assert LeValue(w[..3][1..][1..]) == w[2] as int;
    assert LeValue(w[..3][1..]) == w[1] as int + 256 * w[2] as int;
    assert LeValue(w[..3]) == lo;
    assert LeValue(w) == lo + 0x100_0000 * w[3] as int;
    assert LeValue(w) * 256 == lo * 256 + w[3] as int * U32;
    DivModUnique(LeValue(w) * 256, U32, w[3] as int, lo * 256);
  }

  // ---------------------------------------------------------------------
  // Hashing

  /**
   * `hash64v_5b(x, shift)`: `((x << 24) * m) >> (64 - shift)` in 64-bit
   * unsigned arithmetic, then truncated to 32 bits.
   */
  const HASH_5B_FACTOR: nat := 889523592379

  function Hash64v5b(x: nat, shift: nat): (h: nat)
    requires x < U64 && 1 <= shift <= 32
    ensures h < Pow2(shift)
  {
    var up := (x * 0x100_0000) % U64;
    var prod := (up * HASH_5B_FACTOR) % U64;
    HashShiftBound(prod, shift);
    (prod / Pow2(64 - shift)) % U32
  }

  lemma HashShiftBound(prod: nat, shift: nat)
    requires prod < U64 && 1 <= shift <= 32
    ensures (prod / Pow2(64 - shift)) % U32 == prod / Pow2(64 - shift) < Pow2(shift)
  {
    var d, p := Pow2(64 - shift), Pow2(shift);
    assert d * p == U64 by {
      Pow2Add(64 - shift, shift);
      Pow2Of64();
    }
    DivBelow(prod, d, p);
    assert p <= U32 by {
      Pow2Monotone(shift, 32);
      Pow2Of32();
    }
  }

  lemma DivBelow(x: nat, d: nat, p: nat)
    requires d > 0 && x < d * p
    ensures x / d < p
  {
    var q := x / d;
    assert x == q * d + x % d;
    if q >= p {
      MulNonneg(q - p, d);
      assert false;
    }
  }

  lemma Pow2Of64()
    ensures Pow2(64) == U64
  {
    Pow2Add(32, 32);
    Pow2Of32();
  }

  lemma Pow2Of32()
    ensures Pow2(32) == U32
  {
    assert Pow2(4) == 16;
    Pow2Add(4, 4);
    assert Pow2(8) == 0x100;
    Pow2Add(8, 8);
    assert Pow2(16) == 0x1_0000;
    Pow2Add(16, 16);
  }

  lemma {:induction false} Pow2Monotone(a: nat, b: nat)
    requires a <= b
    ensures Pow2(a) <= Pow2(b)
  {
    if a < b {
      Pow2Monotone(a, b - 1);
    }
  }

  /** The 5-byte hash sees only the 5 low bytes of its argument (the `<< 24` drops the rest). */
  lemma Hash64v5bLowFiveBytes(x: nat, y: nat, shift: nat)
    requires x < U64 && y < U64 && 1 <= shift <= 32
    requires x % 0x100_0000_0000 == y % 0x100_0000_0000
    ensures Hash64v5b(x, shift) == Hash64v5b(y, shift)
  {
    var m := 0x100_0000_0000;
    ShiftedModOnlyLow(x, m);
    ShiftedModOnlyLow(y, m);
  }

  lemma ShiftedModOnlyLow(x: nat, m: nat)
    requires m == 0x100_0000_0000
    ensures (x * 0x100_0000) % U64 == ((x % m) * 0x100_0000) % U64
  {
    var q, r := x / m, x % m;
    assert x == q * m + r;
    assert x * 0x100_0000 == q * U64 + r * 0x100_0000;
  }

  /** `hash64_5b`: the 5-byte hash of the 8 bytes at position i. */
  function Hash64_5b(s: seq<uint8>, i: nat, shift: nat): (h: nat)
    requires i + 8 <= |s| && 1 <= shift <= 32
    ensures h < Pow2(shift)
  {
    Hash64v5b(Read8At(s, i), shift)
  }

  // ---------------------------------------------------------------------
  // Buffers and copies
  //
  // Every copy is specified byte by byte: what each written byte holds, and
  // that every other byte of the array keeps its value.

  /** `m_copy` from a source buffer into the array a. */
  method MCopyFrom(a: array<uint8>, dst: nat, src: seq<uint8>, s: nat, n: nat)
    requires dst + n <= a.Length && s + n <= |src|
    modifies a
    ensures forall k | 0 <= k < a.Length :: a[k] == if dst <= k < dst + n then src[s + (k - dst)] else old(a[k])
  {
    forall k | 0 <= k < n {
      a[dst + k] := src[s + k];
    }
  }

  /** `m_copy` inside one array: the chunk is read first, then written. */
  method MCopyWithin(a: array<uint8>, dst: nat, src: nat, n: nat)
    requires dst + n <= a.Length && src + n <= a.Length
    modifies a
    ensures forall k | 0 <= k < a.Length :: a[k] == if dst <= k < dst + n then old(a[src + (k - dst)]) else old(a[k])
  {
    var chunk := a[src..src + n];
    forall k | 0 <= k < n {
      a[dst + k] := chunk[k];
    }
  }

  /** `m_set`: n copies of value from dst on. */
  method MSet(a: array<uint8>, dst: nat, value: uint8, n: nat)
    requires dst + n <= a.Length
    modifies a
    ensures forall k | 0 <= k < a.Length :: a[k] == if dst <= k < dst + n then value else old(a[k])
  {
    forall k | 0 <= k < n {
      a[dst + k] := value;
    }
  }

  /**
   * The number of bytes a chunked copy writes for a run of `total` bytes:
   * one chunk always, then one more while bytes remain.
   */
  function ChunkedLength(total: nat, copyMin: nat): (w: nat)
    requires copyMin > 0
    ensures w >= total && w >= copyMin
    ensures total > 0 ==> w < total + copyMin
    decreases total
  {
    if total <= copyMin then copyMin else copyMin + ChunkedLength(total - copyMin, copyMin)
  }

  lemma ChunkedLengthStep(total: nat, copyMin: nat)
    requires 0 < copyMin < total
    ensures ChunkedLength(total, copyMin) == copyMin + ChunkedLength(total - copyMin, copyMin)
  {
  }

  /** For a power-of-two chunk the written length is `max(copy_min, round_up(total, log2))`. */
  lemma {:induction false} ChunkedLengthIsRoundUp(total: nat, k: nat)
    ensures ChunkedLength(total, Pow2(k)) == Max(Pow2(k), RoundUpToLog2(total, k))
    decreases total
  {
    var p := Pow2(k);
    var w := ChunkedLength(total, p);
    ChunkedLengthMultiple(total, p);
    if total <= p {
      RoundUpIsLeast(total, k, p);
    } else {
      RoundUpIsLeast(total, k, w);
      var r := RoundUpToLog2(total, k);
      if r < w {
        DistinctMultiplesApart(w, r, p);
        assert false;
      }
    }
  }

  lemma {:induction false} ChunkedLengthMultiple(total: nat, p: nat)
    requires p > 0
    ensures ChunkedLength(total, p) % p == 0
    decreases total
  {
    if total > p {
      ChunkedLengthMultiple(total - p, p);
      var w := ChunkedLength(total - p, p);
      MulMod(1, p);
      ModShift(w, p, p);
    }
  }

  /**
   * The number of bytes a `while_lt` chunked loop writes to cover `total`
   * bytes: nothing when there is nothing to cover.
   */
  function LoopedLength(total: int, copyMin: nat): (w: nat)
    requires copyMin > 0
    ensures total <= 0 ==> w == 0
    ensures total > 0 ==> total <= w < total + copyMin
  {
    if total <= 0 then 0 else ChunkedLength(total, copyMin)
  }

  lemma LoopedLengthStep(total: int, copyMin: nat)
    requires copyMin > 0 && total > 0
    ensures LoopedLength(total, copyMin) == copyMin + LoopedLength(total - copyMin, copyMin)
  {
  }

  /**
   * `copy_x_while_total`: copies `copy_min` bytes, then another `copy_min`
   * while more than `copy_min` of `total` remain. It always writes at least
   * one chunk and may write past `total`.
   */
  method CopyXWhileTotal(a: array<uint8>, dst: nat, src: seq<uint8>, s: nat, total: nat, copyMin: nat)
    requires copyMin > 0
    requires dst + ChunkedLength(total, copyMin) <= a.Length
    requires s + ChunkedLength(total, copyMin) <= |src|
    modifies a
    ensures forall k | 0 <= k < a.Length ::
      a[k] == if dst <= k < dst + ChunkedLength(total, copyMin) then src[s + (k - dst)] else old(a[k])
  {
    var d: nat, i: nat, t: nat := dst, s, total;
    MCopyFrom(a, d, src, i, copyMin);
    ghost var rest := ChunkedLength(total, copyMin);
    while t > copyMin
      invariant d - dst == i - s && d >= dst
      invariant rest == ChunkedLength(t, copyMin) && d - dst + rest == ChunkedLength(total, copyMin)
      invariant forall k | 0 <= k < a.Length :: a[k] == if dst <= k < d + copyMin then src[s + (k - dst)] else old(a[k])
    {
      ChunkedLengthStep(t, copyMin);
      MCopyFrom(a, d + copyMin, src, i + copyMin, copyMin);
      t, d, i := t - copyMin, d + copyMin, i + copyMin;
      rest := rest - copyMin;
    }
  }

  /**
   * `copy_x_while_lt`: copies `copy_min` bytes, then another `copy_min`
   * while `dst + copy_min < dst_end`; the source advances with dst.
   */
  method CopyXWhileLt(a: array<uint8>, dst: nat, src: seq<uint8>, s: nat, dstEnd: nat, copyMin: nat)
    requires copyMin > 0
    requires dst + ChunkedLength(Max(dstEnd - dst, 0), copyMin) <= a.Length
    requires s + ChunkedLength(Max(dstEnd - dst, 0), copyMin) <= |src|
    modifies a
    ensures forall k | 0 <= k < a.Length ::
      a[k] == if dst <= k < dst + ChunkedLength(Max(dstEnd - dst, 0), copyMin) then src[s + (k - dst)] else old(a[k])
  {
    ghost var total := Max(dstEnd - dst, 0);
    var d: nat, i: nat := dst, s;
    MCopyFrom(a, d, src, i, copyMin);
    ghost var rest := ChunkedLength(total, copyMin);
    while d + copyMin < dstEnd
      invariant d - dst == i - s && d >= dst
      invariant rest == ChunkedLength(Max(dstEnd - d, 0), copyMin) && d - dst + rest == ChunkedLength(total, copyMin)
      invariant forall k | 0 <= k < a.Length :: a[k] == if dst <= k < d + copyMin then src[s + (k - dst)] else old(a[k])
      decreases dstEnd - d
    {
      ChunkedLengthStep(dstEnd - d, copyMin);
      MCopyFrom(a, d + copyMin, src, i + copyMin, copyMin);
      d, i := d + copyMin, i + copyMin;
      rest := rest - copyMin;
    }
  }

  // Copies inside one array, from src to dst = src + D with a chunk of at
  // most D bytes: every chunk reads bytes that are already final, so each
  // written byte equals the byte D positions before it. This is how the
  // decoder expands a back-reference.

  /** `while_lt_copy_x`: chunks of `copy_min` while dst < dst_end. */
  method WhileLtCopyX(a: array<uint8>, dst: nat, src: nat, dstEnd: nat, copyMin: nat)
    requires src < dst && 0 < copyMin <= dst - src
    requires dst + LoopedLength(dstEnd - dst, copyMin) <= a.Length
    modifies a
    ensures forall k | dst <= k < dst + LoopedLength(dstEnd - dst, copyMin) :: a[k] == a[k - (dst - src)]
    ensures forall k | 0 <= k < a.Length && !(dst <= k < dst + LoopedLength(dstEnd - dst, copyMin)) :: a[k] == old(a[k])
  {
    ghost var w := LoopedLength(dstEnd - dst, copyMin);
    var d: nat, i: nat := dst, src;
    ghost var rest := w;
    while d < dstEnd
      invariant dst <= d && d - i == dst - src
      invariant rest == LoopedLength(dstEnd - d, copyMin) && d - dst + rest == w
      invariant forall k | dst <= k < d :: a[k] == a[k - (dst - src)]
      invariant forall k | 0 <= k < a.Length && !(dst <= k < d) :: a[k] == old(a[k])
      decreases dstEnd - d
    {
      LoopedLengthStep(dstEnd - d, copyMin);
      MCopyWithin(a, d, i, copyMin);
      d, i := d + copyMin, i + copyMin;
      rest := rest - copyMin;
    }
  }

  /** `copy_2x`: two chunks of `copy_min`. */
  method Copy2x(a: array<uint8>, dst: nat, src: nat, copyMin: nat)
    requires src < dst && copyMin <= dst - src
    requires dst + 2 * copyMin <= a.Length
    modifies a
    ensures forall k | dst <= k < dst + 2 * copyMin :: a[k] == a[k - (dst - src)]
    ensures forall k | 0 <= k < a.Length && !(dst <= k < dst + 2 * copyMin) :: a[k] == old(a[k])
  {
    MCopyWithin(a, dst, src, copyMin);
    MCopyWithin(a, dst + copyMin, src + copyMin, copyMin);
  }

  /** `copy_2x_as_x2_while_lt`: one `copy_2x`, then more while dst + 2 copy_min < dst_end. */
  method Copy2xAsX2WhileLt(a: array<uint8>, dst: nat, src: nat, dstEnd: nat, copyMin: nat)
    requires src < dst && 0 < copyMin <= dst - src
    requires dst + ChunkedLength(Max(dstEnd - dst, 0), 2 * copyMin) <= a.Length
    modifies a
    ensures forall k | dst <= k < dst + ChunkedLength(Max(dstEnd - dst, 0), 2 * copyMin) :: a[k] == a[k - (dst - src)]
    ensures forall k | 0 <= k < a.Length && !(dst <= k < dst + ChunkedLength(Max(dstEnd - dst, 0), 2 * copyMin)) ::
      a[k] == old(a[k])
  {
    ghost var w := ChunkedLength(Max(dstEnd - dst, 0), 2 * copyMin);
    var d: nat, i: nat := dst, src;
    Copy2x(a, d, i, copyMin);
    ghost var rest := w;
    while d + 2 * copyMin < dstEnd
      invariant dst <= d && d - i == dst - src
      invariant rest == ChunkedLength(Max(dstEnd - d, 0), 2 * copyMin) && d - dst + rest == w
      invariant forall k | dst <= k < d + 2 * copyMin :: a[k] == a[k - (dst - src)]
      invariant forall k | 0 <= k < a.Length && !(dst <= k < d + 2 * copyMin) :: a[k] == old(a[k])
      decreases dstEnd - d
    {
      ChunkedLengthStep(dstEnd - d, 2 * copyMin);
      Copy2x(a, d + 2 * copyMin, i + 2 * copyMin, copyMin);
      d, i := d + 2 * copyMin, i + 2 * copyMin;
      rest := rest - 2 * copyMin;
    }
  }

  /** `while_lt_copy_2x_as_x2`: `copy_2x` while dst < dst_end. */
  method WhileLtCopy2xAsX2(a: array<uint8>, dst: nat, src: nat, dstEnd: nat, copyMin: nat)
    requires src < dst && 0 < copyMin <= dst - src
    requires dst + LoopedLength(dstEnd - dst, 2 * copyMin) <= a.Length
    modifies a
    ensures forall k | dst <= k < dst + LoopedLength(dstEnd - dst, 2 * copyMin) :: a[k] == a[k - (dst - src)]
    ensures forall k | 0 <= k < a.Length && !(dst <= k < dst + LoopedLength(dstEnd - dst, 2 * copyMin)) :: a[k] == old(a[k])
  {
    ghost var w := LoopedLength(dstEnd - dst, 2 * copyMin);
    var d: nat, i: nat := dst, src;
    ghost var rest := w;
    while d < dstEnd
      invariant dst <= d && d - i == dst - src
      invariant rest == LoopedLength(dstEnd - d, 2 * copyMin) && d - dst + rest == w
      invariant forall k | dst <= k < d :: a[k] == a[k - (dst - src)]
      invariant forall k | 0 <= k < a.Length && !(dst <= k < d) :: a[k] == old(a[k])
      decreases dstEnd - d
    {
      LoopedLengthStep(dstEnd - d, 2 * copyMin);
      Copy2x(a, d, i, copyMin);
      d, i := d + 2 * copyMin, i + 2 * copyMin;
      rest := rest - 2 * copyMin;
    }
  }
}
