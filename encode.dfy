/**
 * The fast encoder (lib/lz4kd/lz4kd_encode.c): a greedy single pass that
 * probes a 4096-slot table of last-seen positions with an accelerating
 * step, extends each match forwards, and writes tokens into the output
 * array; the block ends with a literal tail token, or with nothing when the
 * last match ends exactly at the end of the input.
 *
 * Every writer is specified by the bytes of `Format`: a token written at
 * outAt is `TokenBytes(offset, literals, r)`. `EncodeAny` keeps the
 * invariant `Reaches(out[..outAt], s[..nr0], n)`: the bytes written so far
 * decode to the input up to nr0, so the finished block decodes to the whole
 * input. All parameters `nr_log2`/`off_log2` of the source are the 4 KB
 * values 6 and 12 here, as `encode_any` passes them.
 */
module Encoder {
  import opened Primitives
  import opened Lz4kdStatus
  import opened Format
  import opened EncodePrivate

  const HT_LOG2: nat := 12
  const STEP_LOG2: nat := 5
  /** 1 << STEP_LOG2: the probe step starts at one position per round, in units of 1/32. */
  const STEP_START: nat := 32

  /** `encode_state_bytes_min`: one uint16_t slot per hash value. */
  function EncodeStateBytesMin(): (n: nat)
    ensures n == 2 * Pow2(HT_LOG2) && n == 2 * OFF_SPAN
  {
    FieldWidths();
    Pow2(HT_LOG2 + 1)
  }

  /**
   * `encoded_bytes_min`: the size of a tail token for in_max literals, with
   * the escape counted by `size_bytes_count`.
   */
  function EncodedBytesMin(nrLog2: nat, inMax: nat): (m: nat)
    requires nrLog2 < 32
    ensures m >= TAG_BYTES_MAX + inMax
  {
    if inMax < Mask(nrLog2) then TAG_BYTES_MAX + inMax
    else TAG_BYTES_MAX + SizeBytesCount(inMax - Mask(nrLog2)) + inMax
  }

  /** For a 4 KB block it covers the tail token the encoder writes. */
  lemma EncodedBytesMinCovers(lits: seq<uint8>)
    requires 0 < |lits| <= OFF_SPAN
    ensures |TokenBytes(0, lits, REPEAT_MIN)| <= EncodedBytesMin(NR_LOG2, |lits|)
  {
    FieldWidths();
    if |lits| >= NR_MASK {
      SizeBytesCountCovers(|lits| - NR_MASK);
    }
  }

  /**
   * With a soft limit of at most n, the tail token for all n input bytes
   * right after the header never passes `out_tail`'s room check: a block
   * in which no match is found is incompressible.
   */
  lemma WholeTailIncompressible(n: nat, limit: nat)
    requires 1 <= limit <= n < U32
    ensures EncodedBytesMin(NR_LOG2, n) > U32Of(limit - 1)
  {
  }

  // ---------------------------------------------------------------------
  // Writing tokens

  /** out is `before` with the bytes from `at` on replaced by `bytes`. */
  ghost predicate Holds(out: seq<uint8>, before: seq<uint8>, at: nat, bytes: seq<uint8>)
  {
    at + |bytes| <= |before| && out == before[..at] + bytes + before[at + |bytes|..]
  }

  /** An element-by-element copy of n bytes of src to `at` holds them there. */
  lemma HoldsOfCopy(out: seq<uint8>, before: seq<uint8>, at: nat, src: seq<uint8>, from: nat, n: nat)
    requires |out| == |before| && at + n <= |out| && from + n <= |src|
    requires forall k | 0 <= k < |out| :: out[k] == if at <= k < at + n then src[from + (k - at)] else before[k]
    ensures Holds(out, before, at, src[from..from + n])
  {
    assert out == before[..at] + src[from..from + n] + before[at + n..];
  }

  /** A state that holds A at `at` extends the first `at` bytes of `before` by A, up to next. */
  lemma HoldsStart(out: seq<uint8>, before: seq<uint8>, at: nat, a: seq<uint8>, next: nat)
    requires Holds(out, before, at, a) && next == at + |a|
    ensures next <= |out| && out[..next] == before[..at] + a
  {
    assert out == (before[..at] + a) + before[at + |a|..];
  }

  /** A state that holds A + B at `at` extends the first `at` bytes of `before` by A, up to next. */
  lemma HoldsPrefix(out: seq<uint8>, before: seq<uint8>, at: nat, a: seq<uint8>, b: seq<uint8>, next: nat)
    requires Holds(out, before, at, a + b) && next == at + |a|
    ensures next <= |out| && out[..next] == before[..at] + a
  {
    assert out == (before[..at] + a) + (b + before[at + |a| + |b|..]);
  }

  /** A state that holds w holds every sequence equal to w. */
  lemma HoldsEqual(out: seq<uint8>, before: seq<uint8>, at: nat, w: seq<uint8>, w': seq<uint8>)
    requires Holds(out, before, at, w) && w == w'
    ensures Holds(out, before, at, w')
  {
  }

  /** A state that holds w, with the byte after w then set to b, holds w + [b]. */
  lemma HoldsAppend(out: seq<uint8>, mid: seq<uint8>, before: seq<uint8>, at: nat, w: seq<uint8>, b: uint8)
    requires Holds(mid, before, at, w) && at + |w| < |before| && out == mid[at + |w| := b]
    ensures Holds(out, before, at, w + [b])
  {
    assert out == before[..at] + (w + [b]) + before[at + |w| + 1..];
  }

  /** `m_copy` of n bytes of src, from `from` on, to `at`, stated as the bytes it leaves there. */
  method CopyIn(out: array<uint8>, at: nat, src: seq<uint8>, from: nat, n: nat)
    requires at + n <= out.Length && from + n <= |src|
    modifies out
    ensures Holds(out[..], old(out[..]), at, src[from..from + n])
  {
    MCopyFrom(out, at, src, from, n);
    HoldsOfCopy(out[..], old(out[..]), at, src, from, n);
  }

  /** `copy_x_while_total` with 16-byte chunks, stated as the bytes it leaves at `at`. */
  method CopyChunksIn(out: array<uint8>, at: nat, src: seq<uint8>, from: nat, total: nat, ghost n: nat)
    requires n == ChunkedLength(total, NR_COPY_MIN) && at + n <= out.Length && from + n <= |src|
    modifies out
    ensures Holds(out[..], old(out[..]), at, src[from..from + n])
  {
    CopyXWhileTotal(out, at, src, from, total, NR_COPY_MIN);
    HoldsOfCopy(out[..], old(out[..]), at, src, from, n);
  }

  /**
   * `update_utag`: ors the r field, min(r - 4, 63), into a tag that holds
   * only an offset.
   */
  function UpdateUtag(rBytesMax: nat, utag: nat): (v: nat)
    requires rBytesMax >= REPEAT_MIN && utag < OFF_SPAN
    ensures v < 0x4_0000 && TagOf(v) == Tag(utag, Min(rBytesMax - REPEAT_MIN, R_MASK), 0)
  {
    var field := if rBytesMax - REPEAT_MIN < R_MASK then rBytesMax - REPEAT_MIN else R_MASK;
    TagOfValue(Tag(utag, field, 0));
    utag + field * 0x1000
  }

  /** Writing one 255 moves an escape of v on to the escape of v - 255. */
  lemma SizeBytesSplit(w: seq<uint8>, v: nat, u: nat)
    requires w + SizeBytes(v) == SizeBytes(u) && v >= BYTE_MAX
    ensures (w + [BYTE_MAX as uint8]) + SizeBytes(v - BYTE_MAX) == SizeBytes(u)
  {
    assert SizeBytes(v) == [BYTE_MAX as uint8] + SizeBytes(v - BYTE_MAX);
  }

  /** Below 255 the escape is the single byte v. */
  lemma SizeBytesLast(w: seq<uint8>, v: nat, u: nat)
    requires w + SizeBytes(v) == SizeBytes(u) && v < BYTE_MAX
    ensures w + [v as uint8] == SizeBytes(u)
  {
  }

  /** `out_size_bytes`: u / 255 bytes of 255, then the rest, as `SizeBytes` gives them. */
  method OutSizeBytes(out: array<uint8>, outAt: nat, u: nat) returns (next: nat)
    requires outAt + |SizeBytes(u)| <= out.Length
    modifies out
    ensures next == outAt + |SizeBytes(u)|
    ensures Holds(out[..], old(out[..]), outAt, SizeBytes(u))
  {
    var at: nat, v: nat := outAt, u;
    ghost var w: seq<uint8> := [];
    while v >= BYTE_MAX
      invariant at == outAt + |w| && w + SizeBytes(v) == SizeBytes(u)
      invariant Holds(out[..], old(out[..]), outAt, w)
      decreases v
    {
      SizeBytesSplit(w, v, u);
      ghost var mid := out[..];
      out[at] := BYTE_MAX;
      HoldsAppend(out[..], mid, old(out[..]), outAt, w, BYTE_MAX);
      at, v, w := at + 1, v - BYTE_MAX, w + [BYTE_MAX as uint8];
    }
    SizeBytesLast(w, v, u);
    ghost var mid := out[..];
    out[at] := v;
    HoldsAppend(out[..], mid, old(out[..]), outAt, w, v);
    next := at + 1;
  }

  /** `out_utag_then_bytes_left`: the three low bytes of the tag, then an escape. */
  method OutUtagThenBytesLeft(out: array<uint8>, outAt: nat, utag: nat, bytesLeft: nat) returns (next: nat)
    requires outAt + TAG_BYTES_MAX + |SizeBytes(bytesLeft)| <= out.Length
    modifies out
    ensures next == outAt + TAG_BYTES_MAX + |SizeBytes(bytesLeft)|
    ensures Holds(out[..], old(out[..]), outAt, LeBytes(utag, TAG_BYTES_MAX) + SizeBytes(bytesLeft))
  {
    ghost var before := out[..];
    CopyIn(out, outAt, LeBytes(utag, TAG_BYTES_MAX), 0, TAG_BYTES_MAX);
    HoldsEqual(out[..], before, outAt, LeBytes(utag, TAG_BYTES_MAX)[0..TAG_BYTES_MAX], LeBytes(utag, TAG_BYTES_MAX));
    ghost var mid := out[..];
    next := OutSizeBytes(out, outAt + TAG_BYTES_MAX, bytesLeft);
    HoldsThen(out[..], mid, before, outAt, LeBytes(utag, TAG_BYTES_MAX), outAt + TAG_BYTES_MAX, SizeBytes(bytesLeft));
  }

  /** Writing A at `at` and then B right after it holds A + B. */
  lemma HoldsThen(out: seq<uint8>, mid: seq<uint8>, before: seq<uint8>, at: nat, a: seq<uint8>, next: nat, b: seq<uint8>)
    requires Holds(mid, before, at, a) && next == at + |a| && Holds(out, mid, next, b)
    ensures Holds(out, before, at, a + b)
  {
    assert mid[..at + |a|] == before[..at] + a;
    assert mid[at + |a| + |b|..] == before[at + |a| + |b|..];
  }

  /** The tag bytes of a token are the low three bytes of its packed fields. */
  lemma TokenTagBytes(offset: nat, nr: nat, r: nat)
    requires offset < OFF_SPAN && r >= REPEAT_MIN
    ensures TagBytes(TokenTag(offset, nr, r)) == LeBytes(UpdateUtag(r, offset) + Min(nr, NR_MASK) * 0x4_0000, TAG_BYTES_MAX)
  {
  }

  /** The tag with the nr field ored in, then the nr escape: a token's head before its literals. */
  function NrHead(utag: nat, nr: nat): (bs: seq<uint8>)
    ensures |bs| == TAG_BYTES_MAX + |NrEscape(nr)|
  {
    LeBytes(utag + Min(nr, NR_MASK) * 0x4_0000, TAG_BYTES_MAX) + NrEscape(nr)
  }

  /**
   * The tag with the nr field ored in, then the nr escape: the common head
   * of `out_tail` and `out_non_repeat` (min(nr, 63) at bit 18, and the
   * excess over 63 through `out_utag_then_bytes_left`).
   */
  method OutNrTag(out: array<uint8>, outAt: nat, utag: nat, nr: nat) returns (next: nat)
    requires outAt + TAG_BYTES_MAX + |NrEscape(nr)| <= out.Length
    modifies out
    ensures next == outAt + TAG_BYTES_MAX + |NrEscape(nr)|
    ensures Holds(out[..], old(out[..]), outAt, NrHead(utag, nr))
  {
    if nr < NR_MASK {
      CopyIn(out, outAt, LeBytes(utag + nr * 0x4_0000, TAG_BYTES_MAX), 0, TAG_BYTES_MAX);
      HoldsEqual(out[..], old(out[..]), outAt, LeBytes(utag + nr * 0x4_0000, TAG_BYTES_MAX)[0..TAG_BYTES_MAX], NrHead(utag, nr));
      next := outAt + TAG_BYTES_MAX;
    } else {
      next := OutUtagThenBytesLeft(out, outAt, utag + NR_MASK * 0x4_0000, nr - NR_MASK);
      HoldsEqual(out[..], old(out[..]), outAt, LeBytes(utag + NR_MASK * 0x4_0000, TAG_BYTES_MAX) + SizeBytes(nr - NR_MASK), NrHead(utag, nr));
    }
  }

  /** A tail token is its head and its literals. */
  lemma TailBytes(s: seq<uint8>, nr0: nat)
    requires nr0 <= |s|
    ensures TokenBytes(0, s[nr0..], REPEAT_MIN) == NrHead(0, |s| - nr0) + s[nr0..]
  {
    TokenTagBytes(0, |s| - nr0, REPEAT_MIN);
  }

  /** The writes of `out_tail`: the head of a tail token, then the literals s[nr0..]. */
  method OutTailToken(s: seq<uint8>, nr0: nat, out: array<uint8>, outAt: nat) returns (next: nat)
    requires nr0 <= |s| && outAt + |TokenBytes(0, s[nr0..], REPEAT_MIN)| <= out.Length
    modifies out
    ensures next == outAt + |TokenBytes(0, s[nr0..], REPEAT_MIN)|
    ensures Holds(out[..], old(out[..]), outAt, TokenBytes(0, s[nr0..], REPEAT_MIN))
  {
    ghost var before := out[..];
    var at := OutNrTag(out, outAt, 0, |s| - nr0);
    ghost var mid := out[..];
    CopyIn(out, at, s, nr0, |s| - nr0);
    next := at + (|s| - nr0);
    HoldsEqual(out[..], mid, at, s[nr0..nr0 + (|s| - nr0)], s[nr0..]);
    HoldsThen(out[..], mid, before, outAt, NrHead(0, |s| - nr0), at, s[nr0..]);
    TailBytes(s, nr0);
  }

  /**
   * `out_tail`: the tail token (offset 0, r field 0) holding the nr = n - nr0
   * input bytes left, when `encoded_bytes_min` of them is within the
   * distance to outEnd taken as a uint32_t; otherwise 0 (incompressible)
   * and nothing written. The result is the size of the block. When outAt is
   * still within outEnd, a block it returns is within outEnd as well.
   */
  method OutTail(s: seq<uint8>, nr0: nat, out: array<uint8>, outAt: nat, outEnd: nat) returns (res: int)
    requires nr0 < |s| <= OFF_SPAN && outAt + |TokenBytes(0, s[nr0..], REPEAT_MIN)| <= out.Length
    modifies out
    ensures res == 0 <==> EncodedBytesMin(NR_LOG2, |s| - nr0) > U32Of(outEnd - outAt)
    ensures res == 0 ==> out[..] == old(out[..])
    ensures res != 0 ==> (res == outAt + |TokenBytes(0, s[nr0..], REPEAT_MIN)|
      && Holds(out[..], old(out[..]), outAt, TokenBytes(0, s[nr0..], REPEAT_MIN)))
    ensures res != 0 && outAt <= outEnd < U32 ==> res <= outEnd
  {
    if EncodedBytesMin(NR_LOG2, |s| - nr0) > U32Of(outEnd - outAt) {
      return Incompressible.Code();
    }
    res := OutTailToken(s, nr0, out, outAt);
    EncodedBytesMinCovers(s[nr0..]);
  }

  /** `out_tail2`: nothing more when the last match ended at the end of the input, else `out_tail`. */
  method OutTail2(s: seq<uint8>, r: nat, out: array<uint8>, outAt: nat, outEnd: nat) returns (res: int)
    requires r <= |s| <= OFF_SPAN
    requires r < |s| ==> outAt + |TokenBytes(0, s[r..], REPEAT_MIN)| <= out.Length
    modifies out
    ensures r == |s| ==> res == outAt && out[..] == old(out[..])
    ensures r < |s| ==> (res == 0 <==> EncodedBytesMin(NR_LOG2, |s| - r) > U32Of(outEnd - outAt))
    ensures r < |s| && res == 0 ==> out[..] == old(out[..])
    ensures r < |s| && res != 0 ==> (res == outAt + |TokenBytes(0, s[r..], REPEAT_MIN)|
      && Holds(out[..], old(out[..]), outAt, TokenBytes(0, s[r..], REPEAT_MIN)))
  {
    if r == |s| {
      return outAt;
    }
    res := OutTail(s, r, out, outAt, outEnd);
  }

  /** `out_r_bytes_left`: the r escape, when the r field is saturated. */
  method OutRBytesLeft(out: array<uint8>, outAt: nat, rBytesMax: nat) returns (next: nat)
    requires rBytesMax >= REPEAT_MIN && outAt + |REscape(rBytesMax)| <= out.Length
    modifies out
    ensures next == outAt + |REscape(rBytesMax)|
    ensures Holds(out[..], old(out[..]), outAt, REscape(rBytesMax))
  {
    if rBytesMax - REPEAT_MIN < R_MASK {
      assert out[..] == old(out[..])[..outAt] + [] + old(out[..])[outAt..];
      next := outAt;
    } else {
      next := OutSizeBytes(out, outAt, rBytesMax - REPEAT_MIN - R_MASK);
    }
  }

  /** A token with no literals and a short repeat is its three tag bytes. */
  lemma RepeatTokenShort(utag: nat, rBytesMax: nat)
    requires utag < OFF_SPAN && rBytesMax >= REPEAT_MIN && rBytesMax - REPEAT_MIN < R_MASK
    ensures TokenBytes(utag, [], rBytesMax) == LeBytes(utag + (rBytesMax - REPEAT_MIN) * 0x1000, TAG_BYTES_MAX)[0..TAG_BYTES_MAX]
  {
    TokenTagBytes(utag, 0, rBytesMax);
  }

  /** A token with no literals and a long repeat is its tag bytes, then the escape of the excess. */
  lemma RepeatTokenLong(utag: nat, rBytesMax: nat, bytesLeft: nat)
    requires utag < OFF_SPAN && rBytesMax - REPEAT_MIN >= R_MASK && bytesLeft == rBytesMax - REPEAT_MIN - R_MASK
    ensures TokenBytes(utag, [], rBytesMax) == LeBytes(utag + R_MASK * 0x1000, TAG_BYTES_MAX) + SizeBytes(bytesLeft)
  {
    TokenTagBytes(utag, 0, rBytesMax);
  }

  /**
   * `out_repeat`: a token with no literals: the tag with offset utag and the
   * r field, then the r escape.
   */
  method OutRepeat(out: array<uint8>, outAt: nat, utag: nat, rBytesMax: nat) returns (next: nat)
    requires utag < OFF_SPAN && rBytesMax >= REPEAT_MIN
    requires outAt + |TokenBytes(utag, [], rBytesMax)| <= out.Length
    modifies out
    ensures next == outAt + |TokenBytes(utag, [], rBytesMax)|
    ensures Holds(out[..], old(out[..]), outAt, TokenBytes(utag, [], rBytesMax))
  {
    if rBytesMax - REPEAT_MIN < R_MASK {
      CopyIn(out, outAt, LeBytes(utag + (rBytesMax - REPEAT_MIN) * 0x1000, TAG_BYTES_MAX), 0, TAG_BYTES_MAX);
      RepeatTokenShort(utag, rBytesMax);
      HoldsEqual(out[..], old(out[..]), outAt, LeBytes(utag + (rBytesMax - REPEAT_MIN) * 0x1000, TAG_BYTES_MAX)[0..TAG_BYTES_MAX],
                 TokenBytes(utag, [], rBytesMax));
      next := outAt + TAG_BYTES_MAX;
    } else {
      var bytesLeft := rBytesMax - REPEAT_MIN - R_MASK;
      next := OutUtagThenBytesLeft(out, outAt, utag + R_MASK * 0x1000, bytesLeft);
      RepeatTokenLong(utag, rBytesMax, bytesLeft);
      HoldsEqual(out[..], old(out[..]), outAt, LeBytes(utag + R_MASK * 0x1000, TAG_BYTES_MAX) + SizeBytes(bytesLeft),
                 TokenBytes(utag, [], rBytesMax));
    }
  }

  /**
   * `out_non_repeat`: the tag with the nr field ored in, the nr escape, and
   * the nr = r - nr0 literals copied in 16-byte chunks, which may write up
   * to 15 bytes of the input that follows them.
   */
  method OutNonRepeat(s: seq<uint8>, nr0: nat, r: nat, out: array<uint8>, outAt: nat, utag: nat, ghost c: nat)
    returns (next: nat)
    requires nr0 <= r && c == ChunkedLength(r - nr0, NR_COPY_MIN) && nr0 + c <= |s|
    requires outAt + TAG_BYTES_MAX + |NrEscape(r - nr0)| + c <= out.Length
    modifies out
    ensures next == outAt + TAG_BYTES_MAX + |NrEscape(r - nr0)| + (r - nr0)
    ensures Holds(out[..], old(out[..]), outAt, NrHead(utag, r - nr0) + s[nr0..nr0 + c])
  {
    ghost var before := out[..];
    var at := OutNrTag(out, outAt, utag, r - nr0);
    ghost var mid := out[..];
    CopyChunksIn(out, at, s, nr0, r - nr0, c);
    HoldsThen(out[..], mid, before, outAt, NrHead(utag, r - nr0), at, s[nr0..nr0 + c]);
    next := at + (r - nr0);
  }

  /**
   * A write of B at at + j over a state that holds A at `at` holds the first
   * j bytes of A, then B, then whatever of A lies beyond B.
   */
  lemma HoldsOverwrite(out: seq<uint8>, mid: seq<uint8>, before: seq<uint8>, at: nat, a: seq<uint8>, j: nat, b: seq<uint8>)
    requires Holds(mid, before, at, a) && j <= |a| && Holds(out, mid, at + j, b)
    ensures Holds(out, before, at, a[..j] + b + a[Min(j + |b|, |a|)..])
  {
    assert mid[..at + j] == before[..at] + a[..j];
    if j + |b| <= |a| {
      assert mid[at + j + |b|..] == a[j + |b|..] + before[at + |a|..];
    } else {
      assert mid[at + j + |b|..] == before[at + j + |b|..];
    }
  }

  /**
   * All that `out_tuple` writes: the token, then what is left beyond it of
   * the chunked copy of the literals (input bytes that follow them).
   */
  function TupleBytes(s: seq<uint8>, nr0: nat, r: nat, utag: nat, rBytesMax: nat): (bs: seq<uint8>)
    requires nr0 <= r && utag < OFF_SPAN && rBytesMax >= REPEAT_MIN
    requires nr0 + ChunkedLength(r - nr0, NR_COPY_MIN) <= |s|
  {
    var c := ChunkedLength(r - nr0, NR_COPY_MIN);
    TokenBytes(utag, s[nr0..r], rBytesMax) + s[nr0 + Min(r - nr0 + |REscape(rBytesMax)|, c)..nr0 + c]
  }

  /** `TupleBytes` is the token, then the chunked copy from m on, m being where the token's own bytes end. */
  lemma TupleBytesSplit(s: seq<uint8>, nr0: nat, r: nat, utag: nat, rBytesMax: nat, c: nat, m: nat)
    requires nr0 <= r && utag < OFF_SPAN && rBytesMax >= REPEAT_MIN
    requires c == ChunkedLength(r - nr0, NR_COPY_MIN) && nr0 + c <= |s| && m == Min(r - nr0 + |REscape(rBytesMax)|, c)
    ensures TupleBytes(s, nr0, r, utag, rBytesMax) == TokenBytes(utag, s[nr0..r], rBytesMax) + s[nr0 + m..nr0 + c]
  {
  }

  /** The token, then what the chunked copy leaves beyond it. */
  lemma TupleBytesLength(s: seq<uint8>, nr0: nat, r: nat, utag: nat, rBytesMax: nat)
    requires nr0 <= r && utag < OFF_SPAN && rBytesMax >= REPEAT_MIN
    requires nr0 + ChunkedLength(r - nr0, NR_COPY_MIN) <= |s|
    ensures |TupleBytes(s, nr0, r, utag, rBytesMax)| == TAG_BYTES_MAX + |NrEscape(r - nr0)|
      + Max(r - nr0 + |REscape(rBytesMax)|, ChunkedLength(r - nr0, NR_COPY_MIN))
  {
  }

  /**
   * `out_tuple`: the token for the literals s[nr0..r] followed by a repeat
   * of rBytesMax bytes at offset utag. The chunked literal copy may leave
   * input bytes after the token; nothing else changes.
   */
  method OutTuple(s: seq<uint8>, nr0: nat, r: nat, out: array<uint8>, outAt: nat, utag: nat, rBytesMax: nat)
    returns (next: nat)
    requires nr0 <= r && utag < OFF_SPAN && rBytesMax >= REPEAT_MIN
    requires nr0 + ChunkedLength(r - nr0, NR_COPY_MIN) <= |s|
    requires outAt + |TupleBytes(s, nr0, r, utag, rBytesMax)| <= out.Length
    modifies out
    ensures next == outAt + |TokenBytes(utag, s[nr0..r], rBytesMax)|
    ensures Holds(out[..], old(out[..]), outAt, TupleBytes(s, nr0, r, utag, rBytesMax))
  {
    ghost var before := out[..];
    ghost var c := ChunkedLength(r - nr0, NR_COPY_MIN);
    var tag := UpdateUtag(rBytesMax, utag);
    next := OutNonRepeat(s, nr0, r, out, outAt, tag, c);
    ghost var mid := out[..];
    next := OutRBytesLeft(out, next, rBytesMax);
    TupleWritten(out[..], mid, before, s, nr0, r, c, outAt, utag, rBytesMax);
  }

  /**
   * Cutting a write a = head + x after nr bytes of x (at j), writing b
   * there, and keeping x from m on (from k) leaves head, the first nr bytes
   * of x, b and the rest.
   */
  lemma Splice(a: seq<uint8>, head: seq<uint8>, x: seq<uint8>, nr: nat, m: nat, j: nat, k: nat, b: seq<uint8>,
               lits: seq<uint8>, rest: seq<uint8>)
    requires a == head + x && nr <= m <= |x| && j == |head| + nr && k == |head| + m
    requires x[..nr] == lits && x[m..] == rest
    ensures a[..j] + b + a[k..] == head + lits + b + rest
  {
    assert a[..j] == head + lits;
    assert a[k..] == rest;
  }

  /** The token of `out_tuple` is the head `out_non_repeat` writes, the literals and the r escape. */
  lemma TupleToken(utag: nat, lits: seq<uint8>, rBytesMax: nat)
    requires utag < OFF_SPAN && rBytesMax >= REPEAT_MIN
    ensures NrHead(UpdateUtag(rBytesMax, utag), |lits|) + lits + REscape(rBytesMax) == TokenBytes(utag, lits, rBytesMax)
  {
    TokenTagBytes(utag, |lits|, rBytesMax);
  }

  /**
   * The head and chunked literals `out_non_repeat` writes (a), cut after the
   * literals (at j) and overwritten by the r escape (b), are the bytes of
   * `TupleBytes`.
   */
  lemma TupleBytesOfWrites(s: seq<uint8>, nr0: nat, r: nat, c: nat, utag: nat, rBytesMax: nat, a: seq<uint8>, j: nat,
                           b: seq<uint8>)
    requires nr0 <= r && utag < OFF_SPAN && rBytesMax >= REPEAT_MIN
    requires c == ChunkedLength(r - nr0, NR_COPY_MIN) && nr0 + c <= |s|
    requires a == NrHead(UpdateUtag(rBytesMax, utag), r - nr0) + s[nr0..nr0 + c]
    requires j == TAG_BYTES_MAX + |NrEscape(r - nr0)| + (r - nr0) && b == REscape(rBytesMax)
    ensures j <= |a| && a[..j] + b + a[Min(j + |b|, |a|)..] == TupleBytes(s, nr0, r, utag, rBytesMax)
  {
    var nr := r - nr0;
    var head, x := NrHead(UpdateUtag(rBytesMax, utag), nr), s[nr0..nr0 + c];
    var m := Min(nr + |b|, c);
    assert j == |head| + nr && Min(j + |b|, |a|) == |head| + m;
    assert x[..nr] == s[nr0..r];
    assert x[m..] == s[nr0 + m..nr0 + c];
    Splice(a, head, x, nr, m, j, Min(j + |b|, |a|), b, s[nr0..r], s[nr0 + m..nr0 + c]);
    TupleToken(utag, s[nr0..r], rBytesMax);
    TupleBytesSplit(s, nr0, r, utag, rBytesMax, c, m);
  }

  /** What `out_non_repeat` and then `out_r_bytes_left` leave, in the terms of `out_tuple`. */
  lemma TupleWritten(out: seq<uint8>, mid: seq<uint8>, before: seq<uint8>, s: seq<uint8>, nr0: nat, r: nat, c: nat,
                     outAt: nat, utag: nat, rBytesMax: nat)
    requires nr0 <= r && utag < OFF_SPAN && rBytesMax >= REPEAT_MIN
    requires c == ChunkedLength(r - nr0, NR_COPY_MIN) && nr0 + c <= |s|
    requires Holds(mid, before, outAt, NrHead(UpdateUtag(rBytesMax, utag), r - nr0) + s[nr0..nr0 + c])
    requires Holds(out, mid, outAt + TAG_BYTES_MAX + |NrEscape(r - nr0)| + (r - nr0), REscape(rBytesMax))
    ensures Holds(out, before, outAt, TupleBytes(s, nr0, r, utag, rBytesMax))
  {
    var a := NrHead(UpdateUtag(rBytesMax, utag), r - nr0) + s[nr0..nr0 + c];
    var j := TAG_BYTES_MAX + |NrEscape(r - nr0)| + (r - nr0);
    var b := REscape(rBytesMax);
    TupleBytesOfWrites(s, nr0, r, c, utag, rBytesMax, a, j, b);
    HoldsOverwrite(out, mid, before, outAt, a, j, b);
    HoldsEqual(out, before, outAt, a[..j] + b + a[Min(j + |b|, |a|)..], TupleBytes(s, nr0, r, utag, rBytesMax));
  }

  // ---------------------------------------------------------------------
  // Finding matches

  /**
   * The index of the first byte where a and b differ, or |a| when none
   * does: what `ctz(x) >> 3` gives for the xor x of two little-endian words.
   */
  function FirstDiff(a: seq<uint8>, b: seq<uint8>): (j: nat)
    requires |a| == |b|
    ensures j <= |a| && a[..j] == b[..j]
    ensures j < |a| ==> a[j] != b[j]
    decreases |a|
  {
    if |a| == 0 || a[0] != b[0] then 0
    else
      var j := 1 + FirstDiff(a[1..], b[1..]);
      assert a[..j] == [a[0]] + a[1..][..j - 1];
      assert b[..j] == [b[0]] + b[1..][..j - 1];
      j
  }

  /** The byte at p repeats the one off before it. */
  predicate RepeatsAt(s: seq<uint8>, off: nat, p: nat)
  {
    off <= p < |s| && s[p] == s[p - off]
  }

  /** Every byte in [lo, hi) repeats the one off before it. */
  predicate RepeatRun(s: seq<uint8>, off: nat, lo: nat, hi: nat)
  {
    forall p | lo <= p < hi :: RepeatsAt(s, off, p)
  }

  /** Equal windows of k bytes at q < r: every byte from r on repeats the one r - q before it. */
  lemma WindowsAgree(s: seq<uint8>, q: nat, r: nat, k: nat)
    requires q < r && r + k <= |s| && s[q..q + k] == s[r..r + k]
    ensures RepeatRun(s, r - q, r, r + k)
  {
    var off := r - q;
    forall p | r <= p < r + k
      ensures RepeatsAt(s, off, p)
    {
      assert s[p] == s[r..r + k][p - r] && s[p - (r - q)] == s[q..q + k][p - r];
    }
  }

  /** Where two different 8-byte windows at q < r first differ, and that they agree before it. */
  lemma FirstDiffAt(s: seq<uint8>, q: nat, r: nat, j: nat)
    requires q < r && r + 8 <= |s| && s[q..q + 8] != s[r..r + 8] && j == FirstDiff(s[q..q + 8], s[r..r + 8])
    ensures j < 8 && s[r + j] != s[r + j - (r - q)]
    ensures RepeatRun(s, r - q, r, r + j)
  {
    assert s[q..q + j] == s[q..q + 8][..j] && s[r..r + j] == s[r..r + 8][..j];
    WindowsAgree(s, q, r, j);
    assert s[q + j] == s[q..q + 8][j] && s[r + j] == s[r..r + 8][j];
  }

  /**
   * One step of `repeat_end`'s word loop: the xor of the eight bytes at q
   * and at r is zero (8), or its trailing zero bytes count where they first
   * differ.
   */
  method AgreeBytes8(s: seq<uint8>, q: nat, r: nat) returns (j: nat)
    requires q < r && r + 8 <= |s|
    ensures j <= 8 && RepeatRun(s, r - q, r, r + j)
    ensures j < 8 ==> s[r + j] != s[r + j - (r - q)]
  {
    if Equal8(s, q, r) {
      WindowsAgree(s, q, r, 8);
      return 8;
    }
    j := FirstDiff(s[q..q + 8], s[r..r + 8]);
    FirstDiffAt(s, q, r, j);
  }

  /** The four bytes at q are those at r, byte by byte. */
  predicate Same4(s: seq<uint8>, q: nat, r: nat)
    requires q + REPEAT_MIN <= |s| && r + REPEAT_MIN <= |s|
  {
    s[q] == s[r] && s[q + 1] == s[r + 1] && s[q + 2] == s[r + 2] && s[q + 3] == s[r + 3]
  }

  /** `Same4` is equality of the two 4-byte windows. */
  lemma Same4Window(s: seq<uint8>, q: nat, r: nat)
    requires q + REPEAT_MIN <= |s| && r + REPEAT_MIN <= |s|
    ensures Same4(s, q, r) <==> s[q..q + REPEAT_MIN] == s[r..r + REPEAT_MIN]
  {
    if s[q..q + REPEAT_MIN] == s[r..r + REPEAT_MIN] {
      assert s[q..q + REPEAT_MIN][0] == s[r..r + REPEAT_MIN][0] && s[q..q + REPEAT_MIN][1] == s[r..r + REPEAT_MIN][1];
      assert s[q..q + REPEAT_MIN][2] == s[r..r + REPEAT_MIN][2] && s[q..q + REPEAT_MIN][3] == s[r..r + REPEAT_MIN][3];
    }
  }

  /**
   * Where a repeat at distance off that holds from p on stops: the first
   * position from p whose byte differs from the one off back, or the end of
   * s. This is the reference `repeat_end` is proved against.
   */
  function MatchEnd(s: seq<uint8>, off: nat, p: nat): (e: nat)
    requires 0 < off <= p <= |s|
    ensures p <= e <= |s|
    ensures e < |s| ==> s[e] != s[e - off]
    decreases |s| - p
  {
    if p == |s| || s[p] != s[p - off] then p else MatchEnd(s, off, p + 1)
  }

  /** Every byte from p up to `MatchEnd` repeats the byte off back. */
  lemma {:induction false} MatchEndRepeats(s: seq<uint8>, off: nat, p: nat)
    requires 0 < off <= p <= |s|
    ensures RepeatRun(s, off, p, MatchEnd(s, off, p))
    decreases |s| - p
  {
    if p < |s| && s[p] == s[p - off] {
      MatchEndRepeats(s, off, p + 1);
    }
  }

  /** Any stretch that agrees from p to e and stops at e (or the end) ends where `MatchEnd` says. */
  lemma {:induction false} MatchEndUnique(s: seq<uint8>, off: nat, p: nat, e: nat)
    requires 0 < off <= p <= e <= |s|
    requires RepeatRun(s, off, p, e)
    requires e < |s| ==> s[e] != s[e - off]
    ensures e == MatchEnd(s, off, p)
    decreases e - p
  {
    if p < e {
      assert RepeatsAt(s, off, p);
      MatchEndUnique(s, off, p + 1, e);
    }
  }

  /**
   * `repeat_end`: extends a match of at least four bytes (q, r) forwards,
   * eight bytes at a time while a whole 16-byte window is left, then byte
   * by byte up to the end of the input. The result is where the repeat
   * stops: every byte before it repeats the byte r0 - q0 back, and the
   * byte at it (if any) does not.
   */
  method RepeatEnd(s: seq<uint8>, q0: nat, r0: nat) returns (rEnd: nat)
    requires q0 < r0 && r0 + 12 <= |s| && Same4(s, q0, r0)
    ensures r0 + REPEAT_MIN <= rEnd <= |s|
    ensures RepeatRun(s, r0 - q0, r0, rEnd)
    ensures rEnd < |s| ==> s[rEnd] != s[rEnd - (r0 - q0)]
    ensures rEnd == MatchEnd(s, r0 - q0, r0 + REPEAT_MIN)
  {
    Same4Window(s, q0, r0);
    WindowsAgree(s, q0, r0, REPEAT_MIN);
    var q, r := q0 + REPEAT_MIN, r0 + REPEAT_MIN;
    while true
      invariant r0 + REPEAT_MIN <= r && r + 8 <= |s| && q == r - (r0 - q0)
      invariant RepeatRun(s, r0 - q0, r0, r)
      decreases |s| - r
    {
      var j := AgreeBytes8(s, q, r);
      if j < 8 {
        rEnd := r + j;
        MatchEndUnique(s, r0 - q0, r0 + REPEAT_MIN, rEnd);
        return;
      }
      q, r := q + 8, r + 8;
      if r + NR_COPY_MIN > |s| {
        break;
      }
    }
    while r < |s|
      invariant r0 + REPEAT_MIN <= r <= |s| && q == r - (r0 - q0)
      invariant RepeatRun(s, r0 - q0, r0, r)
      decreases |s| - r
    {
      if s[q] != s[r] {
        MatchEndUnique(s, r0 - q0, r0 + REPEAT_MIN, r);
        return r;
      }
      q, r := q + 1, r + 1;
    }
    rEnd := r;
    MatchEndUnique(s, r0 - q0, r0 + REPEAT_MIN, rEnd);
  }

  /** `hash`: the 5-byte multiplicative hash of the eight bytes at i, into 12 bits. */
  function Hash(s: seq<uint8>, i: nat): (h: nat)
    requires i + 8 <= |s|
    ensures h < OFF_SPAN
  {
    FieldWidths();
    Hash64_5b(s, i, HT_LOG2)
  }

  /** hs records at i the slot `hash` gives the 8-byte window at i. */
  ghost predicate HashedAt(s: seq<uint8>, hs: seq<nat>, i: nat)
  {
    i < |hs| && i + 8 <= |s| && hs[i] == Hash(s, i)
  }

  /** hs records the slot of every 8-byte window of s, by the window's start. */
  ghost predicate WindowHashed(s: seq<uint8>, hs: seq<nat>)
  {
    |hs| + 7 == |s| && forall i | 0 <= i < |hs| :: HashedAt(s, hs, i)
  }

  /** Every input of at least eight bytes has its table of window slots. */
  lemma SlotsExist(s: seq<uint8>)
    requires |s| >= 7
    ensures exists hs :: WindowHashed(s, hs)
  {
    var hs := seq(|s| - 7, i requires 0 <= i < |s| - 7 => Hash(s, i));
    assert WindowHashed(s, hs) by {
      forall i | 0 <= i < |hs|
        ensures HashedAt(s, hs, i)
      {
      }
    }
  }

  /** Two tables of window slots of the same input agree. */
  lemma SlotsUnique(s: seq<uint8>, hs: seq<nat>, hs': seq<nat>)
    requires WindowHashed(s, hs) && WindowHashed(s, hs')
    ensures hs == hs'
  {
    forall i | 0 <= i < |hs|
      ensures hs[i] == hs'[i]
    {
      assert HashedAt(s, hs, i) && HashedAt(s, hs', i);
    }
  }

  /** The slots `hash` gives the 8-byte windows of s, by the window's start. */
  ghost function Slots(s: seq<uint8>): (hs: seq<nat>)
    requires |s| >= 7
    ensures WindowHashed(s, hs) && SlotsFit(s, hs)
  {
    SlotsExist(s);
    var hs :| WindowHashed(s, hs);
    assert forall i | 0 <= i < |hs| :: hs[i] < OFF_SPAN by {
      forall i | 0 <= i < |hs|
        ensures hs[i] < OFF_SPAN
      {
        assert HashedAt(s, hs, i);
      }
    }
    hs
  }

  /** hs gives every 8-byte window of s a slot of the table, as `Slots` does. */
  ghost predicate SlotsFit(s: seq<uint8>, hs: seq<nat>)
  {
    |hs| + 7 == |s| && forall i | 0 <= i < |hs| :: hs[i] < OFF_SPAN
  }

  /**
   * The outcome of a probe round on a table of the first OFF_SPAN slots:
   * whether it hit, the earlier position q, the position `at` probed last,
   * and the table afterwards.
   */
  datatype Probed = Probed(hit: bool, q: nat, at: nat, table: seq<uint16>)

  /**
   * The reference for one probe: the position stored under the hash of the
   * bytes at r, whether its four bytes are those at r, and the table with r
   * stored in that slot.
   */
  function ProbeOf(s: seq<uint8>, hs: seq<nat>, t: seq<uint16>, r: nat): (m: Probed)
    requires r + 8 <= |s| <= OFF_SPAN && SlotsFit(s, hs) && |t| == OFF_SPAN
    requires forall i | 0 <= i < OFF_SPAN :: t[i] < r
    ensures m.at == r && m.q < r && (m.hit <==> Same4(s, m.q, r))
    ensures |m.table| == OFF_SPAN && forall i | 0 <= i < OFF_SPAN :: m.table[i] <= r
  {
    var q := t[hs[r]];
    Probed(Same4(s, q, r), q, r, t[hs[r] := r])
  }

  /**
   * One probe, `equal4(q = hashed(in0, ht, hash(r), r), r)`: the position
   * last stored under the hash of the bytes at r, which now holds r, and
   * whether the four bytes there are those at r.
   */
  method Probe(s: seq<uint8>, ghost hs: seq<nat>, ht: array<uint16>, r: nat) returns (q: nat, hit: bool)
    requires r + 8 <= |s| <= OFF_SPAN && hs == Slots(s) && ht.Length >= OFF_SPAN
    requires forall i | 0 <= i < OFF_SPAN :: ht[i] < r
    modifies ht
    ensures Probed(hit, q, r, ht[..OFF_SPAN]) == ProbeOf(s, hs, old(ht[..OFF_SPAN]), r)
    ensures forall i | OFF_SPAN <= i < ht.Length :: ht[i] == old(ht[i])
  {
    var h := HashAt(s, hs, r);
    q := Hashed(ht, h, r);
    hit := Equal4(s, q, r);
    Same4Window(s, q, r);
  }

  /** `hash(r)`: the slot of the window at r, as the table of window hashes records it. */
  method HashAt(s: seq<uint8>, ghost hs: seq<nat>, r: nat) returns (h: nat)
    requires r + 8 <= |s| && hs == Slots(s)
    ensures h == hs[r] && h < OFF_SPAN
  {
    assert HashedAt(s, hs, r);
    h := Hash(s, r);
  }

  /** The reference for one probe round: probe r, and when that misses, r + 1. */
  function ProbePairOf(s: seq<uint8>, hs: seq<nat>, t: seq<uint16>, r: nat): (m: Probed)
    requires r + 9 <= |s| <= OFF_SPAN && SlotsFit(s, hs) && |t| == OFF_SPAN
    requires forall i | 0 <= i < OFF_SPAN :: t[i] < r
    ensures m.at == r || m.at == r + 1
    ensures m.hit ==> m.q < m.at && Same4(s, m.q, m.at)
    ensures !m.hit ==> m.at == r + 1
    ensures |m.table| == OFF_SPAN && forall i | 0 <= i < OFF_SPAN :: m.table[i] <= m.at
  {
    var m := ProbeOf(s, hs, t, r);
    if m.hit then m else ProbeOf(s, hs, m.table, r + 1)
  }

  /** The two probes of one round, at r and then at r + 1; the first that hits ends the round. */
  method ProbePair(s: seq<uint8>, ghost hs: seq<nat>, ht: array<uint16>, r: nat) returns (hit: bool, q: nat, at: nat)
    requires r + 9 <= |s| <= OFF_SPAN && hs == Slots(s) && ht.Length >= OFF_SPAN
    requires forall i | 0 <= i < OFF_SPAN :: ht[i] < r
    modifies ht
    ensures Probed(hit, q, at, ht[..OFF_SPAN]) == ProbePairOf(s, hs, old(ht[..OFF_SPAN]), r)
    ensures forall i | OFF_SPAN <= i < ht.Length :: ht[i] == old(ht[i])
  {
    q, hit := Probe(s, hs, ht, r);
    if hit {
      return true, q, r;
    }
    q, hit := Probe(s, hs, ht, r + 1);
    return hit, q, r + 1;
  }

  /**
   * The reference for the probe loop of `encode_any` from r with the step
   * at `step`: probe rounds, each followed by a skip of step / 32 with the
   * step grown by one, until a round hits or r passes n - 16.
   */
  function FindFrom(s: seq<uint8>, hs: seq<nat>, t: seq<uint16>, r: nat, step: nat): (m: Probed)
    requires NR_COPY_MIN <= |s| <= OFF_SPAN && SlotsFit(s, hs) && |t| == OFF_SPAN && step >= STEP_START
    requires r + NR_COPY_MIN <= |s| || r == 1
    requires forall i | 0 <= i < OFF_SPAN :: t[i] < r
    ensures r <= m.at
    ensures m.hit ==> m.q < m.at && m.at + 8 <= |s| && Same4(s, m.q, m.at)
    ensures m.hit ==> m.at + NR_COPY_MIN - 1 <= |s| || m.at <= 2
    ensures !m.hit ==> m.at + NR_COPY_MIN > |s|
    ensures |m.table| == OFF_SPAN && forall i | 0 <= i < OFF_SPAN :: m.table[i] <= m.at
    decreases |s| - r
  {
    var p := ProbePairOf(s, hs, t, r);
    if p.hit then p
    else
      var next := p.at + (step + 1) / STEP_START;
      if next + NR_COPY_MIN > |s| then Probed(false, p.q, next, p.table)
      else FindFrom(s, hs, p.table, next, step + 1)
  }

  /** One miss of `FindFrom`: the search goes on from the skipped-to position with the grown step. */
  lemma FindFromStep(s: seq<uint8>, hs: seq<nat>, t: seq<uint16>, r: nat, step: nat, p: Probed, next: nat, step': nat)
    requires NR_COPY_MIN <= |s| <= OFF_SPAN && SlotsFit(s, hs) && |t| == OFF_SPAN && step >= STEP_START
    requires r + NR_COPY_MIN <= |s| || r == 1
    requires forall i | 0 <= i < OFF_SPAN :: t[i] < r
    requires p == ProbePairOf(s, hs, t, r) && !p.hit
    requires step' == step + 1 && next == p.at + step' / STEP_START && next + NR_COPY_MIN <= |s|
    ensures forall i | 0 <= i < OFF_SPAN :: p.table[i] < next
    ensures FindFrom(s, hs, t, r, step) == FindFrom(s, hs, p.table, next, step')
  {
  }

  /** A miss that skips past n - 16 ends `FindFrom` there. */
  lemma FindFromStop(s: seq<uint8>, hs: seq<nat>, t: seq<uint16>, r: nat, step: nat, p: Probed, next: nat, step': nat)
    requires NR_COPY_MIN <= |s| <= OFF_SPAN && SlotsFit(s, hs) && |t| == OFF_SPAN && step >= STEP_START
    requires r + NR_COPY_MIN <= |s| || r == 1
    requires forall i | 0 <= i < OFF_SPAN :: t[i] < r
    requires p == ProbePairOf(s, hs, t, r) && !p.hit
    requires step' == step + 1 && next == p.at + step' / STEP_START && next + NR_COPY_MIN > |s|
    ensures FindFrom(s, hs, t, r, step) == Probed(false, p.q, next, p.table)
  {
  }

  /**
   * The probe loop of `encode_any`: probes r and r + 1 through the table
   * (each probe stores its own position), then skips ahead by step / 32
   * with step growing by one per round, until a probe finds the same four
   * bytes earlier in the input or r passes n - 16.
   */
  method FindMatch(s: seq<uint8>, ghost hs: seq<nat>, ht: array<uint16>, r0: nat) returns (found: bool, q: nat, r: nat)
    requires NR_COPY_MIN <= |s| <= OFF_SPAN && hs == Slots(s) && ht.Length >= OFF_SPAN
    requires r0 + NR_COPY_MIN <= |s| || r0 == 1
    requires forall i | 0 <= i < OFF_SPAN :: ht[i] < r0
    modifies ht
    ensures Probed(found, q, r, ht[..OFF_SPAN]) == FindFrom(s, hs, old(ht[..OFF_SPAN]), r0, STEP_START)
    ensures forall i | OFF_SPAN <= i < ht.Length :: ht[i] == old(ht[i])
  {
    var step := STEP_START;
    r := r0;
    ghost var tab := ht[..OFF_SPAN];
    while true
      invariant step >= STEP_START
      invariant r + NR_COPY_MIN <= |s| || r == 1
      invariant tab == ht[..OFF_SPAN] && forall i | 0 <= i < OFF_SPAN :: tab[i] < r
      invariant FindFrom(s, hs, tab, r, step) == FindFrom(s, hs, old(ht[..OFF_SPAN]), r0, STEP_START)
      invariant forall i | OFF_SPAN <= i < ht.Length :: ht[i] == old(ht[i])
      decreases |s| - r
    {
      ghost var r1, step1 := r, step;
      found, q, r := ProbePair(s, hs, ht, r);
      ghost var p := ProbePairOf(s, hs, tab, r1);
      assert found == p.hit && q == p.q && r == p.at && ht[..OFF_SPAN] == p.table;
      if found {
        return;
      }
      step := step + 1;
      r := r + step / STEP_START;
      if r + NR_COPY_MIN > |s| {
        FindFromStop(s, hs, tab, r1, step1, p, r, step);
        return false, q, r;
      }
      FindFromStep(s, hs, tab, r1, step1, p, r, step);
      tab := p.table;
    }
  }

  // ---------------------------------------------------------------------
  // The block

  /** The largest block `encode_any` writes for n input bytes: the header, a tag, and every byte as a literal. */
  function BlockBytesMax(n: nat): nat
  {
    1 + TAG_BYTES_MAX + n + NrEscapeLength(n)
  }

  /**
   * The room the output has used after the tokens for the first k input
   * bytes: every token costs at most its literals and escape, with one byte
   * to spare once any token was written (a repeat saves at least that).
   */
  ghost predicate WithinBound(outAt: nat, k: nat)
  {
    outAt + (if k > 0 then 1 else 0) <= 1 + k + NrEscapeLength(k)
  }

  /** e decodes to x with any output room that holds x. */
  ghost predicate DecodesTo(e: seq<uint8>, x: seq<uint8>)
  {
    1 <= |e| && forall cap: nat | |x| <= cap :: DecodeTokens(e, 1, [], cap) == Decoded(x)
  }

  /**
   * `out_tail` refuses the input bytes left after the first nr of n: some
   * are left and `encoded_bytes_min` of them exceeds the distance from
   * outAt to outEnd taken as a uint32_t.
   */
  predicate TailRefused(n: nat, nr: nat, outEnd: nat, outAt: nat)
  {
    nr < n && EncodedBytesMin(NR_LOG2, n - nr) > U32Of(outEnd - outAt)
  }

  /**
   * What an exit of `encode_any` leaves in the output e: a positive result
   * is a block within the bound that decodes to s; the result is 0 exactly
   * when the tail token for s[tailNr..], after the block of tailAt bytes
   * that reaches s[..tailNr], fails `out_tail`'s room check against outEnd.
   */
  ghost predicate ExitOutcome(s: seq<uint8>, e: seq<uint8>, outEnd: nat, res: int, tailNr: nat, tailAt: nat)
  {
    && tailNr <= |s| && 1 <= tailAt <= |e|
    && (res == 0 <==> TailRefused(|s|, tailNr, outEnd, tailAt))
    && (res == 0 ==> WithinBound(tailAt, tailNr) && Reaches(e[..tailAt], s[..tailNr], |s|))
    && (res == 0 || (4 < res <= BlockBytesMax(|s|) && res <= |e| && DecodesTo(e[..res], s)))
  }

  /**
   * A token for the literals s[nr0..r] and the repeat [r, rEnd) at distance
   * r - q extends what a block reaches from s[..nr0] to s[..rEnd].
   */
  lemma TokenAdvances(e: seq<uint8>, s: seq<uint8>, nr0: nat, q: nat, r: nat, rEnd: nat,
                       x: seq<uint8>, lits: seq<uint8>, offset: nat, rb: nat, e': seq<uint8>)
    requires |s| <= OFF_SPAN && nr0 <= r && q < r && r + REPEAT_MIN <= rEnd <= |s|
    requires x == s[..nr0] && lits == s[nr0..r] && offset == r - q && rb == rEnd - r
    requires Reaches(e, x, |s|)
    requires RepeatRun(s, r - q, r, rEnd)
    requires e' == e + TokenBytes(offset, lits, rb)
    ensures Reaches(e', s[..rEnd], |s|)
  {
    ReachesToken(e, x, |s|, offset, lits, rb);
    RepeatReached(s, nr0, q, r, rEnd, x, lits, offset, rb);
    ReachesSame(e + TokenBytes(offset, lits, rb), BackRef(x + lits, offset, rb), e', s[..rEnd], |s|);
  }

  /** The back-reference of a repeat found in the input reproduces the input up to the repeat's end. */
  lemma RepeatReached(s: seq<uint8>, nr0: nat, q: nat, r: nat, rEnd: nat,
                      x: seq<uint8>, lits: seq<uint8>, offset: nat, rb: nat)
    requires nr0 <= r && q < r && r <= rEnd <= |s|
    requires x == s[..nr0] && lits == s[nr0..r] && offset == r - q && rb == rEnd - r
    requires RepeatRun(s, r - q, r, rEnd)
    ensures BackRef(x + lits, offset, rb) == s[..rEnd]
  {
    assert x + lits == s[..r];
    assert forall p | r <= p < r + rb :: s[p] == s[p - offset] by {
      forall p | r <= p < r + rb ensures s[p] == s[p - offset] { assert RepeatsAt(s, offset, p); }
    }
    BackRefOfRepeat(s, r, offset, rb);
  }

  /** A congruence step for the prover: `Reaches` restated for terms proved equal. */
  lemma ReachesSame(e: seq<uint8>, x: seq<uint8>, e': seq<uint8>, x': seq<uint8>, n: nat)
    requires Reaches(e, x, n) && e == e' && x == x'
    ensures Reaches(e', x', n)
  {
  }

  /** A token for a repeat keeps the bound: the repeat saves more than the tag and the r escape cost. */
  lemma TokenKeepsBound(outAt: nat, nr0: nat, r: nat, rEnd: nat)
    requires WithinBound(outAt, nr0) && nr0 <= r && r + REPEAT_MIN <= rEnd
    ensures WithinBound(outAt + TAG_BYTES_MAX + |NrEscape(r - nr0)| + (r - nr0) + |REscape(rEnd - r)|, rEnd)
  {
    RepeatSaves(rEnd - r);
    NrEscapeLengthJoin(nr0, r - nr0);
    NrEscapeLengthJoin(r, rEnd - r);
    NrEscapeLengthJoin(r - nr0, nr0);
  }

  /**
   * Everything `out_tuple` writes, chunked copy included, stays within the
   * block bound: the chunks cover at most 15 bytes more than the literals,
   * and the probe leaves 15 input bytes after r (or n is 16 and r is 1 or 2).
   */
  lemma TupleFits(outAt: nat, nr0: nat, r: nat, rb: nat, n: nat)
    requires WithinBound(outAt, nr0) && 1 <= outAt && nr0 < r && REPEAT_MIN <= rb && r + rb <= n
    requires r + NR_COPY_MIN - 1 <= n || (nr0 == 0 && r <= 2 && NR_COPY_MIN <= n)
    ensures outAt + TAG_BYTES_MAX + |NrEscape(r - nr0)| + Max(r - nr0 + |REscape(rb)|, ChunkedLength(r - nr0, NR_COPY_MIN))
      <= BlockBytesMax(n)
  {
    TokenKeepsBound(outAt, nr0, r, r + rb);
    NrEscapeLengthJoin(r + rb, n - (r + rb));
    NrEscapeLengthJoin(nr0, r - nr0);
    NrEscapeLengthJoin(r, n - r);
    if r + NR_COPY_MIN - 1 > n {
      assert ChunkedLength(r - nr0, NR_COPY_MIN) == NR_COPY_MIN;
    }
  }

  /** The room `out_tuple` needs: its chunked literal copy stays in the input, and its writes within the block bound. */
  lemma TupleRoom(outAt: nat, s: seq<uint8>, nr0: nat, r: nat, utag: nat, rb: nat)
    requires WithinBound(outAt, nr0) && 1 <= outAt && nr0 < r && REPEAT_MIN <= rb && r + rb <= |s| && utag < OFF_SPAN
    requires r + NR_COPY_MIN - 1 <= |s| || (nr0 == 0 && r <= 2 && NR_COPY_MIN <= |s|)
    ensures nr0 + ChunkedLength(r - nr0, NR_COPY_MIN) <= |s|
    ensures outAt + |TupleBytes(s, nr0, r, utag, rb)| <= BlockBytesMax(|s|)
  {
    TupleFits(outAt, nr0, r, rb, |s|);
    TupleBytesLength(s, nr0, r, utag, rb);
  }

  /**
   * The token for the literals s[nr0..r] and the repeat [r, rEnd) moves
   * the output on by at least the tag and the literals, and keeps it
   * within the bound for rEnd input bytes.
   */
  lemma TokenRoom(outAt: nat, s: seq<uint8>, nr0: nat, r: nat, rEnd: nat, offset: nat, lits: seq<uint8>, rb: nat,
                   next: nat)
    requires WithinBound(outAt, nr0) && nr0 <= r && r + REPEAT_MIN <= rEnd <= |s| <= OFF_SPAN && offset < OFF_SPAN
    requires lits == s[nr0..r] && rb == rEnd - r && next == outAt + |TokenBytes(offset, lits, rb)|
    ensures next >= outAt + TAG_BYTES_MAX + (r - nr0) && WithinBound(next, rEnd) && next <= BlockBytesMax(|s|)
  {
    TokenKeepsBound(outAt, nr0, r, rEnd);
    NrEscapeLengthJoin(rEnd, |s| - rEnd);
  }

  /** The tail token for s[nr0..] stays within the block bound, and holds at least one literal. */
  lemma TailFits(outAt: nat, s: seq<uint8>, nr0: nat)
    requires WithinBound(outAt, nr0) && nr0 < |s|
    ensures outAt + |TokenBytes(0, s[nr0..], REPEAT_MIN)| <= BlockBytesMax(|s|)
    ensures TAG_BYTES_MAX + 1 <= |TokenBytes(0, s[nr0..], REPEAT_MIN)|
  {
    TailBytes(s, nr0);
    NrEscapeLengthJoin(nr0, |s| - nr0);
  }

  /** A block reaching s[..nr0], then the tail token for s[nr0..], decodes to s. */
  lemma TailBlock(e: seq<uint8>, s: seq<uint8>, nr0: nat, x: seq<uint8>, e': seq<uint8>)
    requires nr0 < |s| && x == s[..nr0] && Reaches(e, x, |s|)
    requires e' == e + TokenBytes(0, s[nr0..], REPEAT_MIN)
    ensures DecodesTo(e', s)
  {
    assert x + s[nr0..] == s;
    forall cap: nat | |s| <= cap
      ensures DecodeTokens(e', 1, [], cap) == Decoded(s)
    {
      ReachesTail(e, x, |s|, s[nr0..], cap);
    }
  }

  /**
   * A state that holds the tail token for s[nr0..] right after a block
   * reaching s[..nr0] holds, up to res, a block that decodes to s and keeps
   * the block bound.
   */
  lemma TailWritten(after: seq<uint8>, before: seq<uint8>, outAt: nat, res: nat, e: seq<uint8>, s: seq<uint8>, nr0: nat)
    requires nr0 < |s| && 1 <= outAt && WithinBound(outAt, nr0)
    requires Holds(after, before, outAt, TokenBytes(0, s[nr0..], REPEAT_MIN))
    requires res == outAt + |TokenBytes(0, s[nr0..], REPEAT_MIN)|
    requires before[..outAt] == e && Reaches(e, s[..nr0], |s|)
    ensures 4 < res <= BlockBytesMax(|s|) && DecodesTo(after[..res], s)
  {
    TailFits(outAt, s, nr0);
    HoldsStart(after, before, outAt, TokenBytes(0, s[nr0..], REPEAT_MIN), res);
    TailBlock(e, s, nr0, s[..nr0], after[..res]);
  }

  /** A block that reaches all of s decodes to s. */
  lemma WholeBlock(e: seq<uint8>, s: seq<uint8>, x: seq<uint8>)
    requires x == s && Reaches(e, x, |s|)
    ensures DecodesTo(e, s)
  {
    forall cap: nat | |s| <= cap
      ensures DecodeTokens(e, 1, [], cap) == Decoded(s)
    {
      ReachesEnd(e, x, |s|, cap);
    }
  }

  /** The first bytes of a state that holds a `out_tuple` write: the bytes before, then the token. */
  lemma TupleHoldsToken(out: seq<uint8>, before: seq<uint8>, at: nat, s: seq<uint8>, nr0: nat, r: nat,
                        utag: nat, rBytesMax: nat, next: nat)
    requires nr0 <= r && utag < OFF_SPAN && rBytesMax >= REPEAT_MIN
    requires nr0 + ChunkedLength(r - nr0, NR_COPY_MIN) <= |s|
    requires Holds(out, before, at, TupleBytes(s, nr0, r, utag, rBytesMax))
    requires next == at + |TokenBytes(utag, s[nr0..r], rBytesMax)|
    ensures next <= |out| && out[..next] == before[..at] + TokenBytes(utag, s[nr0..r], rBytesMax)
  {
    var c := ChunkedLength(r - nr0, NR_COPY_MIN);
    var rest := s[nr0 + Min(r - nr0 + |REscape(rBytesMax)|, c)..nr0 + c];
    HoldsEqual(out, before, at, TupleBytes(s, nr0, r, utag, rBytesMax), TokenBytes(utag, s[nr0..r], rBytesMax) + rest);
    HoldsPrefix(out, before, at, TokenBytes(utag, s[nr0..r], rBytesMax), rest, next);
  }

  /**
   * One pass of the main loop after a match: `out_repeat` when no literals
   * are pending (nr0 == r), otherwise `out_tuple`. The block then reaches
   * the input up to the end of the repeat, and stays within its bound.
   */
  method OutMatch(s: seq<uint8>, nr0: nat, q: nat, r: nat, rEnd: nat, utag: nat, rBytesMax: nat,
                  out: array<uint8>, outAt: nat, ghost e: seq<uint8>)
    returns (next: nat)
    requires NR_COPY_MIN <= |s| <= OFF_SPAN && BlockBytesMax(|s|) <= out.Length
    requires nr0 <= r && q < r && r + REPEAT_MIN <= rEnd <= |s| && utag == r - q && rBytesMax == rEnd - r
    requires r + NR_COPY_MIN - 1 <= |s| || (nr0 == 0 && r <= 2)
    requires RepeatRun(s, r - q, r, rEnd)
    requires 1 <= outAt && WithinBound(outAt, nr0) && out[..outAt] == e && Reaches(e, s[..nr0], |s|)
    modifies out
    ensures next == outAt + TokenLength(r - nr0, rBytesMax)
    ensures next >= outAt + TAG_BYTES_MAX + (r - nr0)
    ensures WithinBound(next, rEnd) && Reaches(out[..next], s[..rEnd], |s|)
    ensures out[0] == old(out[0])
  {
    ghost var before := out[..];
    if nr0 == r {
      assert s[nr0..r] == [];
      TokenRoom(outAt, s, nr0, r, rEnd, utag, [], rBytesMax, outAt + |TokenBytes(utag, [], rBytesMax)|);
      next := OutRepeat(out, outAt, utag, rBytesMax);
      HoldsEqual(out[..], before, outAt, TokenBytes(utag, [], rBytesMax), TokenBytes(utag, s[nr0..r], rBytesMax));
      HoldsStart(out[..], before, outAt, TokenBytes(utag, s[nr0..r], rBytesMax), next);
    } else {
      TupleRoom(outAt, s, nr0, r, utag, rBytesMax);
      next := OutTuple(s, nr0, r, out, outAt, utag, rBytesMax);
      TupleHoldsToken(out[..], before, outAt, s, nr0, r, utag, rBytesMax, next);
    }
    TokenAdvances(e, s, nr0, q, r, rEnd, s[..nr0], s[nr0..r], utag, rBytesMax, out[..next]);
    TokenRoom(outAt, s, nr0, r, rEnd, utag, s[nr0..r], rBytesMax, next);
    TokenLengthIs(utag, s[nr0..r], rBytesMax);
  }

  /**
   * The exit of `encode_any` when the probe runs out of input: `out_tail`
   * for s[nr0..], which gives 0 exactly when its room check against outEnd
   * fails, and then writes nothing.
   */
  method TailExit(s: seq<uint8>, nr0: nat, out: array<uint8>, outAt: nat, outEnd: nat, ghost e: seq<uint8>)
    returns (res: int, ghost tailNr: nat, ghost tailAt: nat)
    requires nr0 < |s| <= OFF_SPAN && BlockBytesMax(|s|) <= out.Length
    requires 1 <= outAt && WithinBound(outAt, nr0) && out[..outAt] == e && Reaches(e, s[..nr0], |s|)
    modifies out
    ensures out[0] == old(out[0])
    ensures tailNr == nr0 && tailAt == outAt
    ensures ExitOutcome(s, out[..], outEnd, res, tailNr, tailAt)
    ensures res == 0 ==> out[..] == old(out[..])
  {
    tailNr, tailAt := nr0, outAt;
    TailFits(outAt, s, nr0);
    ghost var before := out[..];
    res := OutTail(s, nr0, out, outAt, outEnd);
    if res != 0 {
      TailWritten(out[..], before, outAt, res, e, s, nr0);
    }
  }

  /**
   * The exit of `encode_any` when a repeat ends within 16 bytes of the end:
   * `out_tail2` from r, which keeps the block when the repeat ended at the
   * end of the input, and otherwise gives 0 exactly when `out_tail`'s room
   * check against outEnd fails, writing nothing.
   */
  method Tail2Exit(s: seq<uint8>, r: nat, out: array<uint8>, outAt: nat, outEnd: nat, ghost e: seq<uint8>)
    returns (res: int, ghost tailNr: nat, ghost tailAt: nat)
    requires r <= |s| <= OFF_SPAN && BlockBytesMax(|s|) <= out.Length
    requires 4 < outAt && WithinBound(outAt, r) && out[..outAt] == e && Reaches(e, s[..r], |s|)
    modifies out
    ensures out[0] == old(out[0])
    ensures r == |s| ==> res == outAt
    ensures tailNr == r && tailAt == outAt
    ensures ExitOutcome(s, out[..], outEnd, res, tailNr, tailAt)
    ensures res == 0 ==> out[..] == old(out[..])
  {
    tailNr, tailAt := r, outAt;
    if r < |s| {
      TailFits(outAt, s, r);
    }
    ghost var before := out[..];
    res := OutTail2(s, r, out, outAt, outEnd);
    if r == |s| {
      WholeBlock(e, s, s[..r]);
    } else if res != 0 {
      TailWritten(out[..], before, outAt, res, e, s, r);
    }
  }

  /**
   * After a match, `encode_any` stores the position of the last byte it
   * covered under that byte's hash: the table t becomes t with slot hs[p]
   * set to p.
   */
  method Remember(s: seq<uint8>, ghost hs: seq<nat>, ht: array<uint16>, p: nat, ghost t: seq<uint16>)
    requires p + 8 <= |s| <= OFF_SPAN && hs == Slots(s) && ht.Length >= OFF_SPAN && ht[..OFF_SPAN] == t
    modifies ht
    ensures ht[..OFF_SPAN] == t[hs[p] := p]
    ensures forall i | OFF_SPAN <= i < ht.Length :: ht[i] == old(ht[i])
  {
    var h := HashAt(s, hs, p);
    var v: uint16 := p % 0x1_0000;
    assert v == p;
    ht[h] := v;
  }

  /** The length of a token carrying nr literals and a repeat of r bytes. */
  function TokenLength(nr: nat, r: nat): (n: nat)
    requires r >= REPEAT_MIN
  {
    TAG_BYTES_MAX + (if nr >= NR_MASK then (nr - NR_MASK) / 255 + 1 else 0) + nr
      + (if r - REPEAT_MIN >= R_MASK then (r - REPEAT_MIN - R_MASK) / 255 + 1 else 0)
  }

  /** `TokenLength` is the length of the token's bytes. */
  lemma TokenLengthIs(offset: nat, lits: seq<uint8>, r: nat)
    requires offset < OFF_SPAN && r >= REPEAT_MIN
    ensures TokenLength(|lits|, r) == |TokenBytes(offset, lits, r)|
  {
    assert |NrEscape(|lits|)| == NrEscapeLength(|lits|);
  }

  /** Where the main loop of `encode_any` leaves for a tail: the input covered and the block length there. */
  datatype TailPoint = TailPoint(nr: nat, at: nat)

  /**
   * The state of the main loop of `encode_any` at the top of a round: the
   * input covered up to nr, the next probe at r, the block `at` bytes long,
   * and the first OFF_SPAN slots of the table.
   */
  datatype Loop = Loop(nr: nat, r: nat, at: nat, table: seq<uint16>)

  /** A state the main loop can be in on s: a fresh start at r = 1, or a repeat's end 16 or more bytes from the end, and a table of earlier positions. */
  ghost predicate LoopOk(s: seq<uint8>, hs: seq<nat>, st: Loop)
  {
    && NR_COPY_MIN <= |s| <= OFF_SPAN && SlotsFit(s, hs) && |st.table| == OFF_SPAN
    && ((st.nr == 0 && st.r == 1) || (st.nr == st.r && st.r + NR_COPY_MIN <= |s|))
    && forall i | 0 <= i < OFF_SPAN :: st.table[i] < st.r
  }

  /** What the probe loop promises the rest of a round from st: its result m lies at or after st.r, a hit has an earlier window and room for four bytes, and the table holds no position after m.at. */
  ghost predicate ProbeOk(s: seq<uint8>, hs: seq<nat>, st: Loop, m: Probed)
  {
    && LoopOk(s, hs, st) && st.r <= m.at && |m.table| == OFF_SPAN
    && (m.hit ==> m.q < m.at && m.at + 8 <= |s|)
    && forall i | 0 <= i < OFF_SPAN :: m.table[i] <= m.at
  }

  /**
   * The reference for the main loop of `encode_any` from state st: the
   * probe loop, then the rest of the round, `ExitAt`, and where the loop
   * leaves.
   */
  ghost function ExitFrom(s: seq<uint8>, hs: seq<nat>, st: Loop): (x: TailPoint)
    requires LoopOk(s, hs, st)
    ensures st.nr <= x.nr <= |s| && st.at <= x.at
    decreases |s| - st.r, 1
  {
    ExitAt(s, hs, st, FindFrom(s, hs, st.table, st.r, STEP_START))
  }

  /**
   * The rest of a round from st once the probe loop has given m: on a miss
   * the loop leaves with the state as it is; on a hit the repeat runs to
   * its end and the token (pending literals, then the repeat) is appended;
   * the loop then leaves when the repeat ends within 16 bytes of the end,
   * or otherwise stores the repeat's last position under its hash and goes
   * round again from the repeat's end.
   */
  ghost function ExitAt(s: seq<uint8>, hs: seq<nat>, st: Loop, m: Probed): (x: TailPoint)
    requires ProbeOk(s, hs, st, m)
    ensures st.nr <= x.nr <= |s| && st.at <= x.at
    decreases |s| - st.r, 0
  {
    if !m.hit then TailPoint(st.nr, st.at)
    else
      var rEnd := MatchEnd(s, m.at - m.q, m.at + REPEAT_MIN);
      var next := st.at + TokenLength(m.at - st.nr, rEnd - m.at);
      if rEnd + NR_COPY_MIN > |s| then TailPoint(rEnd, next)
      else ExitFrom(s, hs, Loop(rEnd, rEnd, next, m.table[hs[rEnd - 1] := rEnd - 1]))
  }

  /** Where `encode_any` leaves its main loop on s, starting from a zeroed table and the header byte. */
  ghost function EncodeExit(s: seq<uint8>): (x: TailPoint)
    requires NR_COPY_MIN <= |s| <= OFF_SPAN
    ensures x.nr <= |s| && 1 <= x.at
  {
    ExitFrom(s, Slots(s), Loop(0, 1, 1, seq(OFF_SPAN, _ => 0)))
  }

  /** A round starts with the probe loop: the main loop leaves where the rest of the round from the probe's result leaves. */
  lemma ExitFromProbe(s: seq<uint8>, hs: seq<nat>, st: Loop, m: Probed)
    requires LoopOk(s, hs, st) && m == FindFrom(s, hs, st.table, st.r, STEP_START)
    ensures ProbeOk(s, hs, st, m) && ExitFrom(s, hs, st) == ExitAt(s, hs, st, m)
  {
  }

  /** A probe loop that finds nothing ends the main loop where it stands. */
  lemma ExitAtMiss(s: seq<uint8>, hs: seq<nat>, st: Loop, m: Probed)
    requires ProbeOk(s, hs, st, m) && !m.hit
    ensures ExitAt(s, hs, st, m) == TailPoint(st.nr, st.at)
  {
  }

  /** A round whose repeat ends within 16 bytes of the end leaves there, with the token appended. */
  lemma ExitAtLeave(s: seq<uint8>, hs: seq<nat>, st: Loop, m: Probed, q: nat, at: nat, rEnd: nat, nr: nat, rb: nat, next: nat)
    requires ProbeOk(s, hs, st, m) && m.hit && m.q == q && m.at == at
    requires rEnd == MatchEnd(s, at - q, at + REPEAT_MIN) && rEnd + NR_COPY_MIN > |s|
    requires nr == at - st.nr && rb == rEnd - at && next == st.at + TokenLength(nr, rb)
    ensures ExitAt(s, hs, st, m) == TailPoint(rEnd, next)
  {
  }

  /** The state after a round whose repeat ends 16 or more bytes from the end is one the main loop can be in. */
  lemma NextLoopOk(s: seq<uint8>, hs: seq<nat>, st: Loop, m: Probed, rEnd: nat, last: nat, next: nat)
    requires ProbeOk(s, hs, st, m) && m.at <= last && last + 1 == rEnd && rEnd + NR_COPY_MIN <= |s|
    ensures LoopOk(s, hs, Loop(rEnd, rEnd, next, m.table[hs[last] := last]))
  {
  }

  /** A round whose repeat ends 16 or more bytes from the end leaves where the next round, from the repeat's end, leaves. */
  lemma ExitAtAgain(s: seq<uint8>, hs: seq<nat>, st: Loop, m: Probed, q: nat, at: nat, rEnd: nat, last: nat, nr: nat, rb: nat, next: nat)
    requires ProbeOk(s, hs, st, m) && m.hit && m.q == q && m.at == at
    requires rEnd == MatchEnd(s, at - q, at + REPEAT_MIN) && rEnd + NR_COPY_MIN <= |s|
    requires nr == at - st.nr && rb == rEnd - at && next == st.at + TokenLength(nr, rb)
    requires last + 1 == rEnd && LoopOk(s, hs, Loop(rEnd, rEnd, next, m.table[hs[last] := last]))
    ensures ExitAt(s, hs, st, m) == ExitFrom(s, hs, Loop(rEnd, rEnd, next, m.table[hs[last] := last]))
  {
  }

  /**
   * The hit half of a round of `encode_any`: the repeat's end, the token
   * for the pending literals s[nr0..at] and the repeat at distance at - q,
   * written at outAt, and, when the repeat ends 16 or more bytes before the
   * end, its last position stored under its hash; the main loop then leaves
   * at (rEnd, next) or goes on from there, as `ExitAt` says.
   */
  method EncodeHit(s: seq<uint8>, ghost hs: seq<nat>, ht: array<uint16>, out: array<uint8>, ghost st: Loop, ghost m: Probed,
                   nr0: nat, q: nat, at: nat, outAt: nat, ghost e: seq<uint8>)
    returns (rEnd: nat, next: nat)
    requires NR_COPY_MIN <= |s| && hs == Slots(s) && ht.Length >= OFF_SPAN && BlockBytesMax(|s|) <= out.Length
    requires ProbeOk(s, hs, st, m) && m.hit && m.q == q && m.at == at && ht[..OFF_SPAN] == m.table
    requires Same4(s, q, at) && (at + NR_COPY_MIN - 1 <= |s| || at <= 2)
    requires st.nr == nr0 && st.at == outAt
    requires 1 <= outAt && WithinBound(outAt, nr0) && (nr0 > 0 ==> 4 < outAt)
    requires out[..outAt] == e && Reaches(e, s[..nr0], |s|)
    modifies ht, out
    ensures out[0] == old(out[0])
    ensures at < rEnd <= |s| && 4 < next <= out.Length && WithinBound(next, rEnd) && Reaches(out[..next], s[..rEnd], |s|)
    ensures rEnd + NR_COPY_MIN > |s| ==> ExitAt(s, hs, st, m) == TailPoint(rEnd, next)
    ensures rEnd + NR_COPY_MIN <= |s| ==>
      && LoopOk(s, hs, Loop(rEnd, rEnd, next, ht[..OFF_SPAN]))
      && ExitAt(s, hs, st, m) == ExitFrom(s, hs, Loop(rEnd, rEnd, next, ht[..OFF_SPAN]))
  {
    var utag := at - q;
    rEnd := RepeatEnd(s, q, at);
    var rBytesMax := rEnd - at;
    next := OutMatch(s, nr0, q, at, rEnd, utag, rBytesMax, out, outAt, e);
    if rEnd + NR_COPY_MIN > |s| {
      ExitAtLeave(s, hs, st, m, q, at, rEnd, at - nr0, rBytesMax, next);
      return;
    }
    var last := rEnd - 1;
    Remember(s, hs, ht, last, m.table);
    NextLoopOk(s, hs, st, m, rEnd, last, next);
    ExitAtAgain(s, hs, st, m, q, at, rEnd, last, at - nr0, rBytesMax, next);
  }

  /**
   * One round of the main loop of `encode_any` from the state (nr0, r,
   * outAt, table): the probe loop; on a hit, the repeat's end and the token
   * for the pending literals and the repeat, written at outAt; and, when
   * the repeat ends 16 or more bytes before the end, its last position
   * stored under its hash. On a miss nothing is written and the main loop
   * leaves where it stands; on a hit it leaves at (rEnd, next) or goes on
   * from there, as `ExitFrom` says.
   */
  method EncodeRound(s: seq<uint8>, ghost hs: seq<nat>, ht: array<uint16>, out: array<uint8>,
                     nr0: nat, r: nat, outAt: nat, ghost e: seq<uint8>)
    returns (found: bool, rEnd: nat, next: nat)
    requires NR_COPY_MIN <= |s| && hs == Slots(s) && ht.Length >= OFF_SPAN && BlockBytesMax(|s|) <= out.Length
    requires LoopOk(s, hs, Loop(nr0, r, outAt, ht[..OFF_SPAN]))
    requires 1 <= outAt && WithinBound(outAt, nr0) && (nr0 > 0 ==> 4 < outAt)
    requires out[..outAt] == e && Reaches(e, s[..nr0], |s|)
    modifies ht, out
    ensures out[0] == old(out[0])
    ensures !found ==> out[..] == old(out[..])
    ensures !found ==> ExitFrom(s, hs, Loop(nr0, r, outAt, old(ht[..OFF_SPAN]))) == TailPoint(nr0, outAt)
    ensures found ==> r < rEnd <= |s| && 4 < next <= out.Length && WithinBound(next, rEnd) && Reaches(out[..next], s[..rEnd], |s|)
    ensures found && rEnd + NR_COPY_MIN > |s| ==>
      ExitFrom(s, hs, Loop(nr0, r, outAt, old(ht[..OFF_SPAN]))) == TailPoint(rEnd, next)
    ensures found && rEnd + NR_COPY_MIN <= |s| ==>
      && LoopOk(s, hs, Loop(rEnd, rEnd, next, ht[..OFF_SPAN]))
      && ExitFrom(s, hs, Loop(nr0, r, outAt, old(ht[..OFF_SPAN]))) == ExitFrom(s, hs, Loop(rEnd, rEnd, next, ht[..OFF_SPAN]))
  {
    ghost var st := Loop(nr0, r, outAt, ht[..OFF_SPAN]);
    forall i | 0 <= i < OFF_SPAN
      ensures ht[i] < r
    {
      assert ht[i] == st.table[i];
    }
    var q, at;
    found, q, at := FindMatch(s, hs, ht, r);
    ghost var m := FindFrom(s, hs, st.table, st.r, STEP_START);
    assert found == m.hit && q == m.q && at == m.at && ht[..OFF_SPAN] == m.table;
    ExitFromProbe(s, hs, st, m);
    if !found {
      ExitAtMiss(s, hs, st, m);
      return false, nr0, outAt;
    }
    rEnd, next := EncodeHit(s, hs, ht, out, st, m, nr0, q, at, outAt, e);
  }

  /**
   * `encode_any` on a block of 16 to 4096 bytes with a zeroed hash table:
   * the header byte stays as the caller wrote it, and the block it returns
   * decodes to the input and is at most the header, one tag, and every
   * input byte as a literal. It returns 0 exactly when, at the exit, the
   * tail token for the input left after a block reaching s[..tailNr] in
   * tailAt bytes fails `out_tail`'s room check against outEnd.
   */
  method EncodeAny(s: seq<uint8>, ht: array<uint16>, out: array<uint8>, outEnd: nat)
    returns (res: int, ghost tailNr: nat, ghost tailAt: nat)
    requires NR_COPY_MIN <= |s| <= OFF_SPAN && ht.Length >= OFF_SPAN && BlockBytesMax(|s|) <= out.Length
    requires forall i | 0 <= i < OFF_SPAN :: ht[i] == 0
    modifies ht, out
    ensures out[0] == old(out[0])
    ensures ExitOutcome(s, out[..], outEnd, res, tailNr, tailAt)
    ensures TailPoint(tailNr, tailAt) == EncodeExit(s)
  {
    var nr0: nat, r: nat, outAt: nat := 0, 1, 1;
    ghost var hs := Slots(s);
    ghost var e := out[..1];
    assert e == [out[0]];
    ReachesStart(out[0], |s|);
    assert ht[..OFF_SPAN] == seq(OFF_SPAN, _ => 0);
    while true
      invariant nr0 <= |s| && 1 <= outAt <= out.Length && WithinBound(outAt, nr0) && (nr0 > 0 ==> 4 < outAt)
      invariant out[..outAt] == e && Reaches(e, s[..nr0], |s|)
      invariant out[0] == old(out[0])
      invariant LoopOk(s, hs, Loop(nr0, r, outAt, ht[..OFF_SPAN]))
      invariant ExitFrom(s, hs, Loop(nr0, r, outAt, ht[..OFF_SPAN])) == EncodeExit(s)
      decreases |s| - r
    {
      var found, rEnd, next := EncodeRound(s, hs, ht, out, nr0, r, outAt, e);
      if !found {
        res, tailNr, tailAt := TailExit(s, nr0, out, outAt, outEnd, e);
        return;
      }
      outAt := next;
      e := out[..outAt];
      r := rEnd;
      if r + NR_COPY_MIN > |s| {
        res, tailNr, tailAt := Tail2Exit(s, r, out, outAt, outEnd, e);
        return;
      }
      nr0 := r;
    }
  }

  /**
   * The soft output limit `lz4kd_encode` hands to `encode_any`: outLimit
   * itself when it is set and within min(inMax, outMax), otherwise that
   * minimum.
   */
  function OutLimit(inMax: nat, outMax: nat, outLimit: nat): (limit: nat)
    ensures limit <= Min(inMax, outMax)
    ensures 0 < outLimit <= Min(inMax, outMax) <==> limit == outLimit && outLimit != 0
    ensures limit != outLimit ==> limit == Min(inMax, outMax)
  {
    if outLimit == 0 || outLimit > Min(inMax, outMax) then Min(inMax, outMax) else outLimit
  }

  /**
   * `lz4kd_encode`: the argument checks in the source's order, then a
   * zeroed table, the header byte 0, the up-front worst-case check against
   * outMax, and `encode_any` with the soft limit `OutLimit`. A positive
   * result is a block of at most outMax bytes that decodes to the input;
   * 0 comes either from the up-front check or from `out_tail`'s room check
   * against the soft limit, for the input left after a block reaching
   * input[..tailNr] in tailAt bytes. The input is not written.
   */
  method Lz4kdEncode(state: array?<uint16>, input: array?<uint8>, out: array?<uint8>,
                     inMax: nat, outMax: nat, outLimit: nat) returns (res: int, ghost tailNr: nat, ghost tailAt: nat)
    requires inMax < U32 && outMax < U32 && outLimit < U32
    requires state != null ==> state.Length >= OFF_SPAN
    requires input != null ==> inMax <= input.Length
    requires out != null ==> outMax <= out.Length
    requires input != null && out != null ==> input != out
    requires inMax == 0 || inMax >= NR_COPY_MIN
    modifies state, out
    ensures res == Failed.Code() <==> (state == null || input == null || out == null
      || outMax <= Max(GAIN_BYTES_MAX, Min(inMax, outMax) / GAIN_BYTES_MAX) || inMax == 0 || inMax > OFF_SPAN)
    ensures res != Failed.Code() ==> out[0] == 0 && (NrEncodedBytesMax(inMax, NR_LOG2) > outMax ==> res == 0)
    ensures res != Failed.Code() && res != 0 ==>
      4 < res <= outMax && res <= BlockBytesMax(inMax) && DecodesTo(out[..res], input[..inMax])
    ensures res != Failed.Code() ==> tailNr <= inMax && 1 <= tailAt <= out.Length && (res == 0 <==>
      NrEncodedBytesMax(inMax, NR_LOG2) > outMax
      || TailRefused(inMax, tailNr, OutLimit(inMax, outMax, outLimit), tailAt))
    ensures res == 0 && NrEncodedBytesMax(inMax, NR_LOG2) <= outMax ==>
      input != null && out != null && Reaches(out[..tailAt], input[..inMax][..tailNr], inMax)
    ensures res != Failed.Code() && NrEncodedBytesMax(inMax, NR_LOG2) <= outMax ==>
      input != null && TailPoint(tailNr, tailAt) == EncodeExit(input[..inMax])
  {
    tailNr, tailAt := 0, 1;
    if state == null {
      res := Failed.Code();
      return;
    }
    if input == null || out == null {
      res := Failed.Code();
      return;
    }
    var ioMin := Min(inMax, outMax);
    var gainMax := Max(GAIN_BYTES_MAX, ioMin / GAIN_BYTES_MAX);
    if outMax <= gainMax {
      res := Failed.Code();
      return;
    }
    if inMax == 0 {
      res := Failed.Code();
      return;
    }
    if inMax > OFF_SPAN {
      res := Failed.Code();
      return;
    }
    var limit := OutLimit(inMax, outMax, outLimit);
    forall i | 0 <= i < OFF_SPAN {
      state[i] := 0;
    }
    out[0] := 0;
    if NrEncodedBytesMax(inMax, NR_LOG2) > outMax {
      res := Incompressible.Code();
      return;
    }
    NrEncodedBytesMaxCovers(inMax);
    res, tailNr, tailAt := EncodeAny(input[..inMax], state, out, limit);
  }

  /**
   * `lz4kd_encoded_bytes_max`: `nr_encoded_bytes_max` for nrMax literal
   * bytes, plus, once rMax reaches the r-field mask, the larger of the
   * escape count of the excess and three bytes per four of it (one tag per
   * shortest repeat).
   */
  function Lz4kdEncodedBytesMax(nrMax: nat, rMax: nat, nrLog2: nat, offLog2: nat): (m: nat)
    requires nrLog2 < 32 && offLog2 + nrLog2 <= TAG_BITS_MAX
    ensures m >= NrEncodedBytesMax(nrMax, nrLog2)
    ensures rMax < Mask(TAG_BITS_MAX - (offLog2 + nrLog2)) ==> m == NrEncodedBytesMax(nrMax, nrLog2)
  {
    var r := 1 + TAG_BYTES_MAX + RoundUpToLog2(nrMax, NR_COPY_LOG2) % U32;
    var rLog2 := TAG_BITS_MAX - (offLog2 + nrLog2);
    var withNr := if nrMax >= Mask(nrLog2) then r + SizeBytesCount(nrMax - Mask(nrLog2)) else r;
    if rMax >= Mask(rLog2) then
      var u := rMax - Mask(rLog2);
      withNr + Max(SizeBytesCount(u), u - u / REPEAT_MIN)
    else withNr
  }

  /**
   * For the 4 KB parameters, what the bound adds for rMax repeated bytes
   * covers the r escape of a token repeating rMax bytes.
   */
  lemma EncodedBytesMaxCoversREscape(nrMax: nat, rMax: nat)
    requires rMax >= REPEAT_MIN
    ensures NrEncodedBytesMax(nrMax, NR_LOG2) + |REscape(rMax)| <= Lz4kdEncodedBytesMax(nrMax, rMax, NR_LOG2, OFF_LOG2)
  {
    FieldWidths();
    if rMax - REPEAT_MIN >= R_MASK {
      var u := rMax - R_MASK;
      assert |REscape(rMax)| == (u - REPEAT_MIN) / 255 + 1;
      DivMonotone(u - REPEAT_MIN, u, 255);
      DivMonotone(u, u, REPEAT_MIN);
      assert u / 255 <= u / REPEAT_MIN;
    }
  }
}
