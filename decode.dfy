/**
 * The decoder (lib/lz4kd/lz4kd_decode.c): reads tags, expands escapes,
 * copies literals and expands back-references into a caller-supplied output
 * array, with every bounds check of the source.
 *
 * The input is a sequence (the decoder never writes it); the output is the
 * array `out`, of which only `out[..outEnd]` may be written. Every method is
 * proved against the reference functions of `Format`; `Decode` is proved
 * equal to `DecodeTokens`.
 */
module Decoder {
  import opened Primitives
  import opened Lz4kdStatus
  import opened Format

  const NR_COPY_MIN: nat := 16
  const R_COPY_MIN: nat := 16
  const R_COPY_SAFE_2X: nat := 31
  /** The chunk and the doubling limit of `out_repeat_overlap`. */
  const OVERLAP_COPY_MIN: nat := 8
  const OVERLAP_OFFSET_LIMIT: nat := 4

  // ---------------------------------------------------------------------
  // Escapes

  /** An escape reading with `k` more added to its value. */
  function AddExcess(e: Option<(nat, nat)>, k: nat): Option<(nat, nat)>
  {
    match e
    case None => None
    case Some(x) => Some((x.0 + k, x.1))
  }

  /**
   * `get_size`: adds escape bytes to `size` until one is below 255; reports
   * the input ending first (the source's NULL).
   */
  method GetSize(s: seq<uint8>, i: nat, size: nat) returns (found: bool, total: nat, next: nat)
    requires i <= |s|
    ensures found <==> ReadEscape(s, i).Some?
    ensures found ==> total == size + ReadEscape(s, i).value.0 && next == ReadEscape(s, i).value.1
  {
    total, next := size, i;
    var u: nat := BYTE_MAX;
    while u == BYTE_MAX
      invariant i <= next <= |s| && size <= total
      invariant u == BYTE_MAX ==> ReadEscape(s, i) == AddExcess(ReadEscape(s, next), total - size)
      invariant u != BYTE_MAX ==> ReadEscape(s, i) == Some((total - size, next))
      decreases |s| - next, u == BYTE_MAX
    {
      if next >= |s| {
        return false, total, next;
      }
      u := s[next];
      total := total + u;
      next := next + 1;
    }
    found := true;
  }

  // ---------------------------------------------------------------------
  // Tokens

  /** The tag read as `read4_at(in_at - 1) >> 8` is the 3 bytes at in_at. */
  lemma TagRead(s: seq<uint8>, i: nat)
    requires 1 <= i && i + 3 <= |s|
    ensures Read4At(s, i - 1) / 256 == Read3At(s, i)
  {
    var w := s[i - 1..i + 3];
    assert w[1..] == s[i..i + 3];
    assert LeValue(w) == s[i - 1] as int + 256 * LeValue(s[i..i + 3]);
    DivModUnique(LeValue(w), 256, LeValue(s[i..i + 3]), s[i - 1] as int);
  }

  /**
   * `end_of_block`: an offset-0 token ends the block only if it carries
   * literals, no repeat beyond the minimum, and is the last one.
   */
  function EndOfBlock(nr: nat, r: nat, inAt: nat, inEnd: nat, outAt: nat): (res: int)
    ensures res >= 0 <==> nr != 0 && r == REPEAT_MIN && inAt == inEnd
    ensures res >= 0 ==> res == outAt
    ensures res < 0 ==> res == Failed.Code()
  {
    if nr == 0 then Failed.Code()
    else if r != REPEAT_MIN then Failed.Code()
    else if inAt != inEnd then Failed.Code()
    else outAt
  }

  /**
   * `out_non_repeat`: copies nr literals from the input, 16 bytes at a time
   * where both buffers have room for the overshoot, exactly otherwise; fails
   * without moving either cursor if the run passes the end of either buffer.
   */
  method OutNonRepeat(s: seq<uint8>, inAt: nat, out: array<uint8>, outAt: nat, nr: nat, outEnd: nat)
    returns (ok: bool, inAt': nat, outAt': nat)
    requires inAt <= |s| && outAt <= outEnd <= out.Length
    modifies out
    ensures ok <==> inAt + nr <= |s| && outAt + nr <= outEnd
    ensures ok ==> inAt' == inAt + nr && outAt' == outAt + nr
    ensures !ok ==> inAt' == inAt && outAt' == outAt
    ensures ok ==> forall k | outAt <= k < outAt + nr :: out[k] == s[inAt + (k - outAt)]
    ensures forall k | 0 <= k < out.Length && !(ok && outAt <= k < outEnd) :: out[k] == old(out[k])
  {
    var inCopyEnd, outCopyEnd := inAt + nr, outAt + nr;
    if nr <= NR_COPY_MIN {
      if inAt + NR_COPY_MIN <= |s| && outAt + NR_COPY_MIN <= outEnd {
        MCopyFrom(out, outAt, s, inAt, NR_COPY_MIN);
      } else if inCopyEnd <= |s| && outCopyEnd <= outEnd {
        MCopyFrom(out, outAt, s, inAt, nr);
      } else {
        return false, inAt, outAt;
      }
    } else {
      if inCopyEnd + NR_COPY_MIN <= |s| && outCopyEnd + NR_COPY_MIN <= outEnd {
        MCopyFrom(out, outAt, s, inAt, NR_COPY_MIN);
        CopyXWhileLt(out, outAt + NR_COPY_MIN, s, inAt + NR_COPY_MIN, outCopyEnd, NR_COPY_MIN);
      } else if inCopyEnd <= |s| && outCopyEnd <= outEnd {
        MCopyFrom(out, outAt, s, inAt, nr);
      } else {
        return false, inAt, outAt;
      }
    }
    return true, inCopyEnd, outCopyEnd;
  }

  // ---------------------------------------------------------------------
  // Back-references

  /** Every byte of s in [lo, hi) equals the byte `offset` positions before it. */
  ghost predicate Recurs(s: seq<uint8>, lo: nat, hi: nat, offset: nat)
  {
    offset <= lo && hi <= |s| && forall k | lo <= k < hi :: s[k] == s[k - offset]
  }

  /** d is a whole number of periods of length offset. */
  ghost predicate MultipleOf(d: nat, offset: nat)
    decreases d
  {
    d == 0 || (0 < offset <= d && MultipleOf(d - offset, offset))
  }

  lemma {:induction false} MultipleAdd(a: nat, b: nat, offset: nat)
    requires MultipleOf(a, offset) && MultipleOf(b, offset)
    ensures MultipleOf(a + b, offset)
    decreases a
  {
    if a > 0 {
      MultipleAdd(a - offset, b, offset);
      assert a + b - offset == a - offset + b;
    }
  }

  /**
   * Where the recurrence holds, bytes a whole number of periods apart are
   * equal.
   */
  lemma {:induction false} PeriodicShift(s: seq<uint8>, lo: nat, hi: nat, offset: nat, x: nat, p: nat)
    requires Recurs(s, lo, hi, offset) && MultipleOf(p, offset)
    requires x + offset >= lo && x + p < hi
    ensures s[x + p] == s[x]
    decreases p
  {
    if p > 0 {
      PeriodicShift(s, lo, hi, offset, x, p - offset);
    }
  }

  /**
   * A chunk copy of the overlap path: with the recurrence holding on
   * [lo, at) and `from` = lo - offset a whole number of periods before at,
   * copying n bytes from `from` to at extends it by every copied byte whose
   * source was already final (w <= at - from of them).
   */
  lemma ChunkExtends(s0: seq<uint8>, s1: seq<uint8>, lo: nat, at: nat, offset: nat, n: nat, w: nat)
    requires 0 < offset <= lo <= at && MultipleOf(at - (lo - offset), offset) && at - (lo - offset) >= offset
    requires w <= at - (lo - offset) && w <= n && at + n <= |s0| == |s1|
    requires Recurs(s0, lo, at, offset)
    requires forall k {:trigger s1[k]} | 0 <= k < |s1| :: s1[k] == if at <= k < at + n then s0[lo - offset + (k - at)] else s0[k]
    ensures Recurs(s1, lo, at + w, offset)
  {
    var from := lo - offset;
    forall k | lo <= k < at + w
      ensures s1[k] == s1[k - offset]
    {
      if k >= at {
        var j := k - at;
        assert s1[k] == s0[from + j];
        if j >= offset {
          assert s1[k - offset] == s0[from + j - offset];
          assert lo <= from + j < at;
        } else {
          var q := k - offset;
          assert 0 <= q < at && q < |s1|;
          assert s1[q] == s0[q];
          var p := at - from - offset;
          assert MultipleOf(p, offset);
          if p > 0 {
            assert (from + j) + p == k - offset;
            PeriodicShift(s0, lo, at, offset, from + j, p);
          }
        }
      }
    }
  }

  /**
   * The chunked loops: bytes copied from a whole number of periods back,
   * behind a stretch where the recurrence already holds, keep it.
   */
  lemma {:induction false} ExtendByMultiple(s: seq<uint8>, lo: nat, g: nat, e: nat, offset: nat, d: nat)
    requires 0 < d && MultipleOf(d, offset) && lo <= g <= e && g + offset >= lo + d
    requires Recurs(s, lo, g, offset) && Recurs(s, g, e, d)
    ensures Recurs(s, lo, e, offset)
    decreases e - g
  {
    if e > g {
      ExtendByMultiple(s, lo, g, e - 1, offset, d);
      var k := e - 1;
      if k - offset < g {
        assert (k - d) + (d - offset) == k - offset;
        PeriodicShift(s, lo, g, offset, k - d, d - offset);
      } else {
        assert s[k - offset] == s[k - offset - d];
        assert s[k - d] == s[k - d - offset];
      }
    }
  }

  /**
   * One `m_copy` of the overlap path: n bytes from `from` to at, where the
   * recurrence holds from lo = from + offset up to at and at is a whole
   * number of periods after `from`; the recurrence then reaches w bytes
   * further.
   */
  method CopyChunkAhead(out: array<uint8>, lo: nat, at: nat, from: nat, offset: nat, n: nat, ghost w: nat)
    requires 0 < offset && from + offset == lo <= at && MultipleOf(at - from, offset)
    requires w <= at - from && w <= n && at + n <= out.Length
    requires Recurs(out[..], lo, at, offset)
    modifies out
    ensures Recurs(out[..], lo, at + w, offset)
    ensures forall k | 0 <= k < out.Length && !(at <= k < at + n) :: out[k] == old(out[k])
  {
    ghost var s0 := out[..];
    MCopyWithin(out, at, from, n);
    ChunkExtends(s0, out[..], lo, at, offset, n, w);
  }

  /**
   * The tail of the overlap path: once the recurrence holds on [lo, at) and
   * at - from is a whole number of periods of at least 16, the rest is
   * copied 32 bytes at a time from at - from bytes back.
   */
  method CopyRestByMultiple(out: array<uint8>, lo: nat, at: nat, from: nat, offset: nat, copyEnd: nat)
    requires 0 < offset && from + offset == lo <= at && MultipleOf(at - from, offset)
    requires R_COPY_MIN <= at - from && at + LoopedLength(copyEnd - at, 2 * R_COPY_MIN) <= out.Length
    requires Recurs(out[..], lo, at, offset)
    modifies out
    ensures Recurs(out[..], lo, Max(at, copyEnd), offset)
    ensures forall k | 0 <= k < out.Length && !(at <= k < at + LoopedLength(copyEnd - at, 2 * R_COPY_MIN)) :: out[k] == old(out[k])
  {
    WhileLtCopy2xAsX2(out, at, from, copyEnd, R_COPY_MIN);
    ghost var e := at + LoopedLength(copyEnd - at, 2 * R_COPY_MIN);
    assert Recurs(out[..], lo, at, offset);
    assert Recurs(out[..], at, e, at - from);
    ExtendByMultiple(out[..], lo, at, e, offset, at - from);
  }

  /**
   * `out_repeat_overlap` for 1 < offset < 8, with room for 31 bytes past the
   * copy: one chunk of 8, then chunks of 8 at a stride that doubles while it
   * is at most 4, until the copied stretch is 16 bytes long; the rest is
   * copied 32 bytes at a time from that many bytes back. (The do-while's
   * first test always passes, as the stretch is then 2 * offset < 16.)
   */
  method OutRepeatOverlap(offset: nat, out: array<uint8>, outAt: nat, from: nat, copyEnd: nat)
    requires 1 < offset < R_COPY_MIN / 2 && from + offset == outAt
    requires outAt + REPEAT_MIN <= copyEnd && copyEnd + R_COPY_SAFE_2X <= out.Length
    modifies out
    ensures forall k | outAt <= k < copyEnd :: out[k] == out[k - offset]
    ensures forall k | 0 <= k < out.Length && !(outAt <= k < copyEnd + R_COPY_SAFE_2X) :: out[k] == old(out[k])
  {
    assert MultipleOf(offset - offset, offset);
    CopyChunkAhead(out, outAt, outAt, from, offset, OVERLAP_COPY_MIN, offset);
    var at := outAt + offset;
    var stride: nat := offset;
    MultipleAdd(offset, offset, offset);
    if stride <= OVERLAP_OFFSET_LIMIT {
      stride := stride * 2;
    }
    while at - from < R_COPY_MIN
      invariant from < outAt < at && MultipleOf(at - from, offset)
      invariant MultipleOf(stride, offset) && offset <= stride <= OVERLAP_COPY_MIN && stride <= at - from
      invariant at < from + R_COPY_MIN + OVERLAP_COPY_MIN
      invariant Recurs(out[..], outAt, at, offset)
      invariant forall k | 0 <= k < out.Length && !(outAt <= k < copyEnd + R_COPY_SAFE_2X) :: out[k] == old(out[k])
      decreases R_COPY_MIN - (at - from)
    {
      CopyChunkAhead(out, outAt, at, from, offset, OVERLAP_COPY_MIN, stride);
      MultipleAdd(at - from, stride, offset);
      at := at + stride;
      if stride <= OVERLAP_OFFSET_LIMIT {
        MultipleAdd(stride, stride, offset);
        stride := stride * 2;
      }
    }
    CopyRestByMultiple(out, outAt, at, from, offset, copyEnd);
  }

  /**
   * `out_repeat_slow`: the overlap copy when 1 < offset and there is room
   * for it; otherwise a fill for offset 1 or a byte loop, failing if the
   * copy would pass `out_end`.
   */
  method OutRepeatSlow(r: nat, offset: nat, out: array<uint8>, outAt: nat, from: nat, copyEnd: nat, outEnd: nat)
    returns (ok: bool)
    requires 0 < offset && from + offset == outAt && REPEAT_MIN <= r && copyEnd == outAt + r && outEnd <= out.Length
    requires copyEnd + R_COPY_SAFE_2X <= outEnd ==> offset < R_COPY_MIN / 2
    modifies out
    ensures ok <==> copyEnd <= outEnd
    ensures ok ==> forall k | outAt <= k < copyEnd :: out[k] == out[k - offset]
    ensures forall k | 0 <= k < out.Length && !(ok && outAt <= k < outEnd) :: out[k] == old(out[k])
  {
    if offset > 1 && copyEnd + R_COPY_SAFE_2X <= outEnd {
      OutRepeatOverlap(offset, out, outAt, from, copyEnd);
    } else {
      if copyEnd > outEnd {
        return false;
      }
      if offset == 1 {
        MSet(out, outAt, out[from], r);
      } else {
        var at, src := outAt, from;
        // a do-while in the source; its first test passes as r >= 4
        while at < copyEnd
          invariant outAt <= at <= copyEnd && at - src == offset
          invariant forall k | outAt <= k < at :: out[k] == out[k - offset]
          invariant forall k | 0 <= k < out.Length && !(outAt <= k < at) :: out[k] == old(out[k])
          decreases copyEnd - at
        {
          out[at] := out[src];
          at, src := at + 1, src + 1;
        }
      }
    }
    return true;
  }

  /**
   * The middle branch of `out_repeat`, for offsets from 8 to 15: one
   * 16-byte copy from `from`, then 16-byte copies at twice the offset.
   */
  method OutRepeatMidOffset(offset: nat, out: array<uint8>, outAt: nat, copyEnd: nat, outEnd: nat)
    requires R_COPY_MIN / 2 <= offset < R_COPY_MIN && offset <= outAt < copyEnd && copyEnd + R_COPY_SAFE_2X <= outEnd <= out.Length
    modifies out
    ensures Recurs(out[..], outAt, copyEnd, offset)
    ensures forall k | 0 <= k < out.Length && !(outAt <= k < outEnd) :: out[k] == old(out[k])
  {
    var from := outAt - offset;
    ghost var s0 := out[..];
    MCopyWithin(out, outAt, from, R_COPY_MIN);
    assert MultipleOf(offset - offset, offset);
    ChunkExtends(s0, out[..], outAt, outAt, offset, R_COPY_MIN, offset);
    MultipleAdd(offset, offset, offset);
    WhileLtCopyX(out, outAt + offset, from, copyEnd, R_COPY_MIN);
    ghost var e := outAt + offset + LoopedLength(copyEnd - (outAt + offset), R_COPY_MIN);
    assert Recurs(out[..], outAt, outAt + offset, offset);
    assert Recurs(out[..], outAt + offset, e, 2 * offset);
    ExtendByMultiple(out[..], outAt, outAt + offset, e, offset, 2 * offset);
  }

  /**
   * Expands a back-reference of r bytes at distance offset at outAt, by the
   * branch the source picks: 32-byte chunks for offset >= 16, 16-byte chunks
   * for offset >= 8, `out_repeat_slow` otherwise
   * (lib/lz4kd/lz4kd_decode.c:170-191).
   */
  method OutRepeat(r: nat, offset: nat, out: array<uint8>, outAt: nat, outEnd: nat) returns (ok: bool)
    requires 0 < offset <= outAt && REPEAT_MIN <= r && outEnd <= out.Length
    modifies out
    ensures ok <==> outAt + r <= outEnd
    ensures ok ==> forall k | outAt <= k < outAt + r :: out[k] == out[k - offset]
    ensures forall k | 0 <= k < out.Length && !(ok && outAt <= k < outEnd) :: out[k] == old(out[k])
  {
    var from := outAt - offset;
    var copyEnd := outAt + r;
    if offset >= R_COPY_MIN && copyEnd + R_COPY_SAFE_2X <= outEnd {
      Copy2xAsX2WhileLt(out, outAt, from, copyEnd, R_COPY_MIN);
    } else if offset >= R_COPY_MIN / 2 && copyEnd + R_COPY_SAFE_2X <= outEnd {
      OutRepeatMidOffset(offset, out, outAt, copyEnd, outEnd);
    } else {
      ok := OutRepeatSlow(r, offset, out, outAt, from, copyEnd, outEnd);
      return;
    }
    return true;
  }

  // ---------------------------------------------------------------------
  // The decoding loop

  /**
   * The tag of the token at inAt, read as `decode` does: the 4 bytes before
   * it shifted right by 8, then masked and shifted into offset, nr and r.
   */
  method ReadTag(s: seq<uint8>, inAt: nat) returns (offset: nat, nr: nat, r: nat)
    requires 1 <= inAt && inAt + TAG_BYTES_MAX <= |s|
    ensures r >= REPEAT_MIN && Tag(offset, r - REPEAT_MIN, nr) == TagOf(Read3At(s, inAt))
  {
    var utag := Read4At(s, inAt - 1) / 256;
    TagRead(s, inAt);
    offset := utag % OFF_SPAN;
    nr := utag / 0x4_0000;
    r := (utag / OFF_SPAN) % (R_MASK + 1) + REPEAT_MIN;
  }

  /** A length field, with `get_size` called when it is saturated. */
  method ReadSize(s: seq<uint8>, at: nat, field: nat, saturated: nat) returns (found: bool, value: nat, next: nat)
    requires at <= |s|
    ensures found <==> ReadLength(s, at, field, saturated).Some?
    ensures found ==> ReadLength(s, at, field, saturated) == Some((value, next))
  {
    if field == saturated {
      found, value, next := GetSize(s, at, field);
    } else {
      found, value, next := true, field, at;
    }
  }

  /** An output that keeps its first outAt bytes and then holds nr input bytes from lit. */
  lemma AppendedWindow(a: seq<uint8>, b: seq<uint8>, outAt: nat, s: seq<uint8>, lit: nat, nr: nat)
    requires outAt + nr <= |a| && outAt <= |b| && lit + nr <= |s|
    requires forall k | 0 <= k < outAt :: a[k] == b[k]
    requires forall k | outAt <= k < outAt + nr :: a[k] == s[lit + (k - outAt)]
    ensures a[..outAt + nr] == b[..outAt] + s[lit..lit + nr]
  {
  }

  /** What one pass of the decoding loop leaves: go on at (inAt, outAt), or return res. */
  datatype Pass = Continue(inAt: nat, outAt: nat) | Return(res: int)

  /**
   * A pass that did what the reference step says: it goes on exactly when
   * the step does, with the step's output in the buffer, and otherwise
   * returns the decoded size or the step's status.
   */
  ghost predicate Agrees(st: Step, p: Pass, out: seq<uint8>)
  {
    && (st.Next? <==> p.Continue?)
    && (st.Next? ==> p.inAt == st.next && p.outAt == |st.out| <= |out| && out[..p.outAt] == st.out)
    && (st.Stop? && st.outcome.Decoded? ==>
          p == Return(|st.outcome.out|) && |st.outcome.out| <= |out| && out[..p.res] == st.outcome.out)
    && (st.Stop? && st.outcome.Error? ==> p == Return(st.outcome.status.Code()))
  }

  /**
   * The match half of a pass of the loop of `decode`: the r length, the
   * offset checks and the back-reference, with out1 already in out[..outAt],
   * as `MatchStep` says.
   */
  method DecodeMatch(s: seq<uint8>, at: nat, offset: nat, r: nat, nr: nat, out: array<uint8>, outAt: nat, outEnd: nat,
                     ghost out1: seq<uint8>)
    returns (p: Pass)
    requires at <= |s| && outAt <= outEnd <= out.Length && out1 == out[..outAt] && r >= REPEAT_MIN
    modifies out
    ensures Agrees(MatchStep(s, at, Tag(offset, r - REPEAT_MIN, nr), nr, out1, outEnd), p, out[..])
    ensures forall k | 0 <= k < out.Length && !(outAt <= k < outEnd) :: out[k] == old(out[k])
  {
    ghost var st := MatchStep(s, at, Tag(offset, r - REPEAT_MIN, nr), nr, out1, outEnd);
    var found, r', next := ReadSize(s, at, r, R_MASK + REPEAT_MIN);
    if !found {
      return Return(ReadError.Code());
    }
    if offset > outAt {
      return Return(Failed.Code());
    }
    if offset == 0 {
      var res := EndOfBlock(nr, r', next, |s|, outAt);
      return Return(res);
    }
    var ok := OutRepeat(r', offset, out, outAt, outEnd);
    if !ok {
      return Return(Failed.Code());
    }
    assert st == Next(next, BackRef(out1, offset, r'));
    assert out[..outAt] == out1;
    BackRefUnique(out1, offset, r', out[..]);
    assert out[..outAt + r'] == out[..][..outAt + r'];
    return Continue(next, outAt + r');
  }

  /**
   * One pass of the loop of `decode`: the token at inAt, with `prefix`
   * already in out[..outAt], decoded as `DecodeStep` says, with the same
   * result or status.
   */
  method DecodeToken(s: seq<uint8>, inAt: nat, out: array<uint8>, outAt: nat, outEnd: nat, ghost prefix: seq<uint8>)
    returns (p: Pass)
    requires 1 <= inAt && inAt + TAG_BYTES_MAX <= |s| && outAt <= outEnd <= out.Length
    requires prefix == out[..outAt]
    modifies out
    ensures Agrees(DecodeStep(s, inAt, prefix, outEnd), p, out[..])
    ensures forall k | outEnd <= k < out.Length :: out[k] == old(out[k])
  {
    var offset, nr, r := ReadTag(s, inAt);
    assert DecodeStep(s, inAt, prefix, outEnd) == LiteralStep(s, inAt + TAG_BYTES_MAX, Tag(offset, r - REPEAT_MIN, nr), prefix, outEnd);
    p := DecodeLiterals(s, inAt + TAG_BYTES_MAX, offset, nr, r, out, outAt, outEnd, prefix);
  }

  /** The literal half of a pass: the nr length, as `LiteralStep` says. */
  method DecodeLiterals(s: seq<uint8>, at: nat, offset: nat, nr: nat, r: nat, out: array<uint8>, outAt: nat, outEnd: nat,
                        ghost prefix: seq<uint8>)
    returns (p: Pass)
    requires at <= |s| && outAt <= outEnd <= out.Length && r >= REPEAT_MIN
    requires prefix == out[..outAt]
    modifies out
    ensures Agrees(LiteralStep(s, at, Tag(offset, r - REPEAT_MIN, nr), prefix, outEnd), p, out[..])
    ensures forall k | outEnd <= k < out.Length :: out[k] == old(out[k])
  {
    var found, nr', lit := ReadSize(s, at, nr, NR_MASK);
    if !found {
      return Return(ReadError.Code());
    }
    assert LiteralStep(s, at, Tag(offset, r - REPEAT_MIN, nr), prefix, outEnd)
        == LiteralCopy(s, lit, nr', Tag(offset, r - REPEAT_MIN, nr), prefix, outEnd);
    p := CopyLiterals(s, lit, nr', offset, nr, r, out, outAt, outEnd, prefix);
  }

  /** The nr literals, then the match, as `LiteralCopy` says. */
  method CopyLiterals(s: seq<uint8>, lit: nat, nr': nat, offset: nat, nr: nat, r: nat, out: array<uint8>, outAt: nat,
                      outEnd: nat, ghost prefix: seq<uint8>)
    returns (p: Pass)
    requires lit <= |s| && outAt <= outEnd <= out.Length && r >= REPEAT_MIN
    requires prefix == out[..outAt]
    modifies out
    ensures Agrees(LiteralCopy(s, lit, nr', Tag(offset, r - REPEAT_MIN, nr), prefix, outEnd), p, out[..])
    ensures forall k | outEnd <= k < out.Length :: out[k] == old(out[k])
  {
    var ok, at', outAt1 := OutNonRepeat(s, lit, out, outAt, nr', outEnd);
    if !ok {
      assert LiteralCopy(s, lit, nr', Tag(offset, r - REPEAT_MIN, nr), prefix, outEnd) == Stop(Error(Failed));
      return Return(Failed.Code());
    }
    ghost var out1 := prefix + s[lit..lit + nr'];
    AppendedWindow(out[..], old(out[..]), outAt, s, lit, nr');
    assert LiteralCopy(s, lit, nr', Tag(offset, r - REPEAT_MIN, nr), prefix, outEnd)
        == MatchStep(s, at', Tag(offset, r - REPEAT_MIN, nr), nr', out1, outEnd);
    p := DecodeMatch(s, at', offset, r, nr', out, outAt1, outEnd, out1);
    AgreesSame(LiteralCopy(s, lit, nr', Tag(offset, r - REPEAT_MIN, nr), prefix, outEnd),
               MatchStep(s, at', Tag(offset, r - REPEAT_MIN, nr), nr', out1, outEnd), p, out[..]);
  }

  /** Agreeing with a step is agreeing with anything equal to it. */
  lemma AgreesSame(st: Step, st': Step, p: Pass, out: seq<uint8>)
    requires st == st' && Agrees(st', p, out)
    ensures Agrees(st, p, out)
  {
  }

  /**
   * `decode`: runs the loop from the first tag (just after the header byte)
   * while a whole tag is left; the result is the block's size, or the status
   * of the first failure, as `DecodeTokens` gives it. Nothing at or past
   * outEnd is written.
   */
  method Decode(s: seq<uint8>, out: array<uint8>, outEnd: nat) returns (res: int)
    requires 1 <= |s| && outEnd <= out.Length
    modifies out
    ensures var o := DecodeTokens(s, 1, [], outEnd);
      && (o.Decoded? ==> res == |o.out| && out[..res] == o.out)
      && (o.Error? ==> res == o.status.Code())
    ensures forall k | outEnd <= k < out.Length :: out[k] == old(out[k])
  {
    var inAt, outAt := 1, 0;
    while inAt + TAG_BYTES_MAX <= |s|
      invariant 1 <= inAt <= |s| && outAt <= outEnd
      invariant DecodeTokens(s, inAt, out[..outAt], outEnd) == DecodeTokens(s, 1, [], outEnd)
      invariant forall k | outEnd <= k < out.Length :: out[k] == old(out[k])
      decreases |s| - inAt
    {
      var p := DecodeToken(s, inAt, out, outAt, outEnd, out[..outAt]);
      match p
      case Return(r) => return r;
      case Continue(i, o) => inAt, outAt := i, o;
    }
    res := if inAt == |s| then outAt else Failed.Code();
  }

  // ---------------------------------------------------------------------
  // Pattern blocks and the entry point

  /** Inside the word at 8 * words, a position's remainder is its distance from the word's start. */
  lemma PatternWord(at: nat, words: nat)
    requires at == PATTERN_BYTES_MAX * words
    ensures forall k | at <= k < at + PATTERN_BYTES_MAX :: k % PATTERN_BYTES_MAX == k - at
  {
    forall k | at <= k < at + PATTERN_BYTES_MAX
      ensures k % PATTERN_BYTES_MAX == k - at
    {
      DivModUnique(k, PATTERN_BYTES_MAX, words, k - at);
    }
  }

  /** The whole words below outEnd end at outEnd rounded down to a multiple of 8. */
  lemma PatternWords(outEnd: nat, at: nat, words: nat)
    requires at == PATTERN_BYTES_MAX * words && at <= outEnd < at + PATTERN_BYTES_MAX
    ensures at == outEnd / PATTERN_BYTES_MAX * PATTERN_BYTES_MAX
    ensures outEnd % PATTERN_BYTES_MAX == 0 <==> at == outEnd
  {
    DivModUnique(outEnd, PATTERN_BYTES_MAX, words, outEnd - at);
  }

  /**
   * `decode_pattern_4kb`: an 8-byte input is a pattern block; the pattern is
   * stored in every whole 8-byte word below outEnd, and the block decodes
   * only if those words fill it exactly.
   */
  method DecodePattern4kb(pattern: seq<uint8>, out: array<uint8>, outEnd: nat) returns (res: int)
    requires |pattern| == PATTERN_BYTES_MAX && outEnd <= out.Length
    modifies out
    ensures res == if outEnd % PATTERN_BYTES_MAX == 0 then outEnd else Failed.Code()
    ensures forall k | 0 <= k < outEnd / PATTERN_BYTES_MAX * PATTERN_BYTES_MAX :: out[k] == pattern[k % PATTERN_BYTES_MAX]
    ensures forall k | outEnd / PATTERN_BYTES_MAX * PATTERN_BYTES_MAX <= k < out.Length :: out[k] == old(out[k])
  {
    var at := 0;
    ghost var words := 0;
    while at + PATTERN_BYTES_MAX <= outEnd
      invariant at == PATTERN_BYTES_MAX * words && at <= outEnd
      invariant forall k | 0 <= k < at :: out[k] == pattern[k % PATTERN_BYTES_MAX]
      invariant forall k | at <= k < out.Length :: out[k] == old(out[k])
      decreases outEnd - at
    {
      MCopyFrom(out, at, pattern, 0, PATTERN_BYTES_MAX);
      PatternWord(at, words);
      at, words := at + PATTERN_BYTES_MAX, words + 1;
    }
    PatternWords(outEnd, at, words);
    res := if at == outEnd then outEnd else Failed.Code();
  }

  /** The output room of a block: out_max capped at 4 KB. */
  function OutRoom(outMax: nat): (n: nat)
    ensures n <= outMax && n <= OFF_SPAN && (n == outMax || n == OFF_SPAN)
  {
    Min(outMax, OFF_SPAN)
  }

  /**
   * `lz4kd_decode`: rejects a missing buffer, an input of at most 4 bytes
   * and an empty output; an input of exactly 8 bytes is a pattern block;
   * anything else is a normal block whose header byte is skipped. Output
   * stops at min(out_max, 4096).
   */
  method Lz4kdDecode(input: array?<uint8>, out: array?<uint8>, inMax: nat, outMax: nat) returns (res: int)
    requires input != null ==> inMax <= input.Length
    requires out != null ==> outMax <= out.Length
    requires input != null && out != null ==> input != out
    modifies out
    ensures input == null || out == null || inMax <= 1 + TAG_BYTES_MAX || outMax == 0 ==> res == Failed.Code()
    ensures input != null && out != null && inMax == PATTERN_BYTES_MAX && outMax > 0 ==>
      && res == (if OutRoom(outMax) % PATTERN_BYTES_MAX == 0 then OutRoom(outMax) else Failed.Code())
      && (forall k | 0 <= k < OutRoom(outMax) / PATTERN_BYTES_MAX * PATTERN_BYTES_MAX ::
            out[k] == input[k % PATTERN_BYTES_MAX])
      && (forall k | OutRoom(outMax) / PATTERN_BYTES_MAX * PATTERN_BYTES_MAX <= k < out.Length ::
            out[k] == old(out[k]))
    ensures input != null && out != null && inMax > 1 + TAG_BYTES_MAX && inMax != PATTERN_BYTES_MAX && outMax > 0 ==>
      var o := DecodeTokens(input[..inMax], 1, [], OutRoom(outMax));
      && (o.Decoded? ==> res == |o.out| && out[..res] == o.out)
      && (o.Error? ==> res == o.status.Code())
    ensures out != null ==> forall k | OutRoom(outMax) <= k < out.Length :: out[k] == old(out[k])
  {
    if input == null || out == null {
      return Failed.Code();
    }
    if inMax <= 1 + TAG_BYTES_MAX || outMax == 0 {
      return Failed.Code();
    }
    var outEnd := OutRoom(outMax);
    if inMax == PATTERN_BYTES_MAX {
      res := DecodePattern4kb(input[..PATTERN_BYTES_MAX], out, outEnd);
      return;
    }
    res := Decode(input[..inMax], out, outEnd);
  }
}
