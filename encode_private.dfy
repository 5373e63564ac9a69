/**
 * The encoder's private helpers (lib/lz4kd/lz4kd_encode_private.h): the
 * worst-case size bounds, the hash-table probe, and the two match checks
 * (backwards extension and first-and-last window comparison).
 */
module EncodePrivate {
  import opened Primitives
  import opened Format

  const GAIN_BYTES_LOG2: nat := 6
  const GAIN_BYTES_MAX: nat := 64
  const NR_COPY_LOG2: nat := 4
  const NR_COPY_MIN: nat := 16

  /** `u_32`: a pointer difference cast to uint32_t, i.e. taken modulo 2^32. */
  function U32Of(i: int): (v: nat)
    ensures v < U32
    ensures 0 <= i < U32 ==> v == i
    ensures (i - v) % U32 == 0
  {
    i % U32
  }

  // ---------------------------------------------------------------------
  // Size bounds

  /** `size_bytes_count`: ((u + 255) >> 8) + 1. */
  function SizeBytesCount(u: nat): (c: nat)
    ensures c >= 1
  {
    (u + BYTE_MAX) / 256 + 1
  }

  /**
   * The count covers the escape `out_size_bytes` writes for u (u / 255 + 1
   * bytes) whenever u / 255 <= 255; a 4 KB block never needs more than
   * 4033.
   */
  lemma SizeBytesCountCovers(u: nat)
    requires u < 255 * 256
    ensures |SizeBytes(u)| <= SizeBytesCount(u)
  {
    var q := u / 255;
    assert u == 255 * q + u % 255;
    assert q <= 255;
    MulLeDiv(q, 256, u + BYTE_MAX);
  }

  /** From u = 255 * 256 on the count is short: the escape has one byte more. */
  lemma SizeBytesCountShort()
    ensures SizeBytesCount(255 * 256) + 1 == |SizeBytes(255 * 256)|
  {
  }

  /**
   * `nr_encoded_bytes_max`: the header, a tag, the literals rounded up to
   * whole 16-byte chunks (as a 32-bit value), and the escape count of the
   * excess over the nr mask.
   */
  function NrEncodedBytesMax(nrMax: nat, nrLog2: nat): (m: nat)
    requires nrLog2 < 32
    ensures nrMax + NR_COPY_MIN <= U32 ==> m >= nrMax + 1 + TAG_BYTES_MAX
  {
    var r := 1 + TAG_BYTES_MAX + RoundUpToLog2(nrMax, NR_COPY_LOG2) % U32;
    assert Pow2(NR_COPY_LOG2) == NR_COPY_MIN;
    if nrMax < Mask(nrLog2) then r else r + SizeBytesCount(nrMax - Mask(nrLog2))
  }

  /**
   * For a 4 KB block the bound covers the header, one tag and every input
   * byte sent as a literal together with the escape of the literal count.
   */
  lemma NrEncodedBytesMaxCovers(n: nat)
    requires n <= OFF_SPAN
    ensures 1 + TAG_BYTES_MAX + n + NrEscapeLength(n) <= NrEncodedBytesMax(n, NR_LOG2)
  {
    FieldWidths();
    assert Pow2(NR_COPY_LOG2) == NR_COPY_MIN;
    var ru := RoundUpToLog2(n, NR_COPY_LOG2);
    assert n <= ru < U32;
    assert ru % U32 == ru;
    if n >= NR_MASK {
      SizeBytesCountCovers(n - NR_MASK);
      assert NrEscapeLength(n) == |SizeBytes(n - NR_MASK)|;
    }
  }

  // ---------------------------------------------------------------------
  // Match search

  /**
   * `hashed`: returns the position last stored in slot h and stores r there
   * instead (as a uint16_t); no other slot changes.
   */
  method Hashed(ht: array<uint16>, h: nat, r: nat) returns (q: nat)
    requires h < ht.Length
    modifies ht
    ensures q == old(ht[h])
    ensures ht[h] == r % 0x1_0000 && forall i | 0 <= i < ht.Length && i != h :: ht[i] == old(ht[i])
  {
    q := ht[h];
    ht[h] := r % 0x1_0000;
  }

  /**
   * `repeat_start`: moves a candidate match (q, r) back while the bytes just
   * before q and r agree, stopping at nr0 or at the start of the input. The
   * result is where the match starts; q moves back by the same amount.
   */
  method RepeatStart(s: seq<uint8>, q: nat, r: nat, nr0: nat) returns (start: nat)
    requires q < r <= |s| && nr0 <= r
    ensures nr0 <= start <= r && r - q <= start
    ensures forall p | start <= p < r :: s[p] == s[p - (r - q)]
    ensures start == nr0 || start == r - q || s[start - 1] != s[start - 1 - (r - q)]
  {
    var qq, rr := q, r;
    while rr > nr0 && qq > 0 && s[qq - 1] == s[rr - 1]
      invariant nr0 <= rr <= r && r - q <= rr && qq == rr - (r - q)
      invariant forall p | rr <= p < r :: s[p] == s[p - (r - q)]
      decreases rr
    {
      qq, rr := qq - 1, rr - 1;
    }
    start := rr;
  }

  /**
   * `match_max`: the first four and the last four bytes of the two
   * rMax-byte windows at q and r agree.
   */
  function MatchMax(s: seq<uint8>, q: nat, r: nat, rMax: nat): (b: bool)
    requires REPEAT_MIN <= rMax && q + rMax <= |s| && r + rMax <= |s|
    ensures b <==> (s[q..q + REPEAT_MIN] == s[r..r + REPEAT_MIN]
      && s[q + rMax - REPEAT_MIN..q + rMax] == s[r + rMax - REPEAT_MIN..r + rMax])
  {
    Equal4(s, q + rMax - REPEAT_MIN, r + rMax - REPEAT_MIN) && Equal4(s, q, r)
  }

  /** Equal windows always pass `match_max`: it can only reject a non-match. */
  lemma MatchMaxOfEqual(s: seq<uint8>, q: nat, r: nat, rMax: nat)
    requires REPEAT_MIN <= rMax && q + rMax <= |s| && r + rMax <= |s|
    requires s[q..q + rMax] == s[r..r + rMax]
    ensures MatchMax(s, q, r, rMax)
  {
    assert s[q..q + REPEAT_MIN] == s[q..q + rMax][..REPEAT_MIN];
    assert s[r..r + REPEAT_MIN] == s[r..r + rMax][..REPEAT_MIN];
    assert s[q + rMax - REPEAT_MIN..q + rMax] == s[q..q + rMax][rMax - REPEAT_MIN..];
    assert s[r + rMax - REPEAT_MIN..r + rMax] == s[r..r + rMax][rMax - REPEAT_MIN..];
  }
}
