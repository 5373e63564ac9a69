/**
 * The LZ4KD block format, stated as reference functions on byte sequences.
 *
 * A normal block is a header byte followed by tokens. A token is a 3-byte
 * little-endian tag (offset in bits 0-11, min(r - 4, 63) in bits 12-17,
 * min(nr, 63) in bits 18-23), then the escape bytes of nr when its field is
 * saturated, then nr literal bytes, then the escape bytes of r when its field
 * is saturated. An escape is a run of 255s ended by a byte below 255; the
 * excess is the sum of its bytes (lib/lz4kd/lz4kd_encode_private.h:27-35).
 * A token with offset 0 ends the block.
 *
 * The decoder loop and the encoder are both proved against `DecodeTokens`.
 */
module Format {
  import opened Primitives
  import opened Lz4kdStatus

  const OFF_LOG2: nat := BLOCK_4KB_LOG2
  const NR_LOG2: nat := NR_4KB_LOG2
  /** `r_log2 = TAG_BITS_MAX - (off_log2 + nr_log2)` for 4 KB blocks. */
  const R_LOG2: nat := 6
  const OFF_SPAN: nat := 0x1000
  const NR_MASK: nat := 63
  const R_MASK: nat := 63

  lemma FieldWidths()
    ensures R_LOG2 == TAG_BITS_MAX - (OFF_LOG2 + NR_LOG2)
    ensures NR_MASK == Mask(NR_LOG2) && R_MASK == Mask(R_LOG2) && OFF_SPAN == Pow2(OFF_LOG2)
  {
    assert Pow2(6) == 64;
    assert Pow2(12) == 0x1000;
  }

  // ---------------------------------------------------------------------
  // Tags

  /** The three fields of a tag, before escapes are applied. */
  datatype Tag = Tag(offset: nat, rField: nat, nrField: nat)

  predicate ValidTag(t: Tag)
  {
    t.offset < OFF_SPAN && t.rField <= R_MASK && t.nrField <= NR_MASK
  }

  /** The 24-bit value of a tag: the fields or-ed at bit 0, 12 and 18. */
  function TagValue(t: Tag): (v: nat)
    requires ValidTag(t)
    ensures v < 0x100_0000
  {
    t.offset + 0x1000 * t.rField + 0x4_0000 * t.nrField
  }

  /** The fields of a 24-bit tag value, as the decoder masks and shifts them out. */
  function TagOf(v: nat): (t: Tag)
    requires v < 0x100_0000
    ensures ValidTag(t)
  {
    Tag(v % 0x1000, (v / 0x1000) % 64, v / 0x4_0000)
  }

  /** Splitting a packed tag gives its fields back ... */
  lemma TagOfValue(t: Tag)
    requires ValidTag(t)
    ensures TagOf(TagValue(t)) == t
  {
    var v := TagValue(t);
    DivModUnique(v, 0x1000, t.rField + 64 * t.nrField, t.offset);
    DivModUnique(t.rField + 64 * t.nrField, 64, t.nrField, t.rField);
    DivModUnique(v, 0x4_0000, t.nrField, t.offset + 0x1000 * t.rField);
  }

  /** ... and packing the fields of a value gives the value back. */
  lemma TagValueOf(v: nat)
    requires v < 0x100_0000
    ensures TagValue(TagOf(v)) == v
  {
    var q := v / 0x1000;
    assert v == 0x1000 * q + v % 0x1000;
    assert q == 64 * (q / 64) + q % 64;
    DivModUnique(v, 0x4_0000, q / 64, v % 0x1000 + 0x1000 * (q % 64));
  }

  // ---------------------------------------------------------------------
  // Escapes

  /**
   * The escape bytes for an excess u, as `out_size_bytes` writes them:
   * u / 255 bytes of 255, then the remainder.
   */
  function SizeBytes(u: nat): (bs: seq<uint8>)
    ensures |bs| == u / 255 + 1
    decreases u
  {
    if u < 255 then [u] else [255] + SizeBytes(u - 255)
  }

  lemma SizeBytesShape(u: nat)
    ensures forall k | 0 <= k < |SizeBytes(u)| - 1 :: SizeBytes(u)[k] == 255
    ensures SizeBytes(u)[|SizeBytes(u)| - 1] == u % 255 < 255
    decreases u
  {
    if u >= 255 {
      SizeBytesShape(u - 255);
      ModShift(u - 255, 255, 255);
    }
  }

  /**
   * Reading an escape at i, as `get_size` does: the sum of the bytes up to
   * and including the first byte below 255, and the position after it; None
   * when the input ends first.
   */
  function ReadEscape(s: seq<uint8>, i: nat): (e: Option<(nat, nat)>)
    ensures e.Some? ==> i < e.value.1 <= |s|
    decreases |s| - i
  {
    if i >= |s| then None
    else if s[i] == 255 then
      match ReadEscape(s, i + 1)
      case None => None
      case Some(rest) => Some((255 + rest.0, rest.1))
    else Some((s[i] as nat, i + 1))
  }

  /** `get_size` undoes `out_size_bytes`, whatever follows the escape. */
  lemma {:induction false} ReadEscapeOfSizeBytes(s: seq<uint8>, i: nat, u: nat)
    requires i + |SizeBytes(u)| <= |s| && s[i..i + |SizeBytes(u)|] == SizeBytes(u)
    ensures ReadEscape(s, i) == Some((u, i + |SizeBytes(u)|))
    decreases u
  {
    var bs := SizeBytes(u);
    assert s[i] == bs[0];
    if u >= 255 {
      assert s[i + 1..i + |bs|] == bs[1..];
      ReadEscapeOfSizeBytes(s, i + 1, u - 255);
    }
  }

  /**
   * The value of a length field: the field itself, or, when it is saturated,
   * the field plus the escape that follows.
   */
  function ReadLength(s: seq<uint8>, i: nat, field: nat, saturated: nat): (e: Option<(nat, nat)>)
    requires i <= |s|
    ensures e.Some? ==> i <= e.value.1 <= |s| && e.value.0 >= field
    ensures field != saturated ==> e == Some((field, i))
  {
    if field == saturated then
      match ReadEscape(s, i)
      case None => None
      case Some(x) => Some((field + x.0, x.1))
    else Some((field, i))
  }

  // ---------------------------------------------------------------------
  // Back-references

  /**
   * Appending r bytes, each a copy of the byte `offset` positions before it:
   * the meaning of a back-reference, one byte at a time.
   */
  function BackRef(out: seq<uint8>, offset: nat, r: nat): (t: seq<uint8>)
    requires 0 < offset <= |out|
    ensures |t| == |out| + r && t[..|out|] == out
  {
    if r == 0 then out
    else
      var b := BackRef(out, offset, r - 1);
      b + [b[|b| - offset]]
  }

  /** Every appended byte is a copy of the byte `offset` positions before it. */
  lemma {:induction false} BackRefRepeats(out: seq<uint8>, offset: nat, r: nat)
    requires 0 < offset <= |out|
    ensures forall p | |out| <= p < |out| + r :: BackRef(out, offset, r)[p] == BackRef(out, offset, r)[p - offset]
  {
    if r > 0 {
      BackRefRepeats(out, offset, r - 1);
      var b := BackRef(out, offset, r - 1);
      assert BackRef(out, offset, r) == b + [b[|b| - offset]];
      forall p | |out| <= p < |out| + r
        ensures BackRef(out, offset, r)[p] == BackRef(out, offset, r)[p - offset]
      {
        if p < |b| {
          assert BackRef(out, offset, r)[p] == b[p] == b[p - offset];
        }
      }
    }
  }

  /** The recurrence determines the appended bytes: any sequence that keeps it is the back-reference. */
  lemma {:induction false} BackRefUnique(out: seq<uint8>, offset: nat, r: nat, t: seq<uint8>)
    requires 0 < offset <= |out| && |out| + r <= |t| && t[..|out|] == out
    requires forall p | |out| <= p < |out| + r :: t[p] == t[p - offset]
    ensures t[..|out| + r] == BackRef(out, offset, r)
  {
    if r > 0 {
      BackRefUnique(out, offset, r - 1, t);
      var b := BackRef(out, offset, r - 1);
      assert t[..|out| + r] == t[..|out| + r - 1] + [t[|out| + r - 1]];
    }
  }

  /** A back-reference over bytes that repeat at distance offset reproduces them. */
  lemma {:induction false} BackRefOfRepeat(s: seq<uint8>, at: nat, offset: nat, r: nat)
    requires 0 < offset <= at && at + r <= |s|
    requires forall p | at <= p < at + r :: s[p] == s[p - offset]
    ensures BackRef(s[..at], offset, r) == s[..at + r]
  {
    assert |s[..at]| == at;
    BackRefUnique(s[..at], offset, r, s);
  }

  // ---------------------------------------------------------------------
  // Decoding

  /** The result of decoding a block: the output bytes, or the status returned. */
  datatype Outcome = Decoded(out: seq<uint8>) | Error(status: Status)

  /** One token: either decoding goes on at `next` with `out`, or it stops. */
  datatype Step = Next(next: nat, out: seq<uint8>) | Stop(outcome: Outcome)

  /**
   * The match half of a token, after its nr literals are in out1 and the
   * input is at `at`: the r length, then the offset checks and the
   * back-reference (lib/lz4kd/lz4kd_decode.c:164-191).
   */
  function MatchStep(s: seq<uint8>, at: nat, t: Tag, nr: nat, out1: seq<uint8>, cap: nat): (st: Step)
    requires at <= |s|
    ensures st.Next? ==> at <= st.next <= |s| && |out1| < |st.out| <= cap && st.out[..|out1|] == out1
    ensures st.Stop? && st.outcome.Decoded? ==> nr != 0 && st.outcome.out == out1
    ensures st.Stop? && st.outcome.Error? ==> st.outcome.status in {Failed, ReadError}
  {
    match ReadLength(s, at, t.rField + REPEAT_MIN, R_MASK + REPEAT_MIN)
    case None => Stop(Error(ReadError))
    case Some(m) =>
      var (r, next) := m;
      if t.offset > |out1| then Stop(Error(Failed))
      else if t.offset == 0 then
        Stop(if nr != 0 && r == REPEAT_MIN && next == |s| then Decoded(out1) else Error(Failed))
      else if |out1| + r > cap then Stop(Error(Failed))
      else Next(next, BackRef(out1, t.offset, r))
  }

  /**
   * Decoding the token at i with `out` produced so far and room for `cap`
   * output bytes: the tag, then the literals and the match
   * (lib/lz4kd/lz4kd_decode.c:148-163).
   */
  function DecodeStep(s: seq<uint8>, i: nat, out: seq<uint8>, cap: nat): (st: Step)
    requires i + TAG_BYTES_MAX <= |s|
    ensures st.Next? ==> i < st.next <= |s| && |out| < |st.out| <= cap && st.out[..|out|] == out
    ensures st.Stop? && st.outcome.Decoded? ==> |out| < |st.outcome.out| <= cap && st.outcome.out[..|out|] == out
    ensures st.Stop? && st.outcome.Error? ==> st.outcome.status in {Failed, ReadError}
  {
    LiteralStep(s, i + TAG_BYTES_MAX, TagOf(Read3At(s, i)), out, cap)
  }

  /**
   * The literal half of a token with tag t, the input at `at` just after the
   * tag: the nr length, then the literals and the match
   * (lib/lz4kd/lz4kd_decode.c:150-152).
   */
  function LiteralStep(s: seq<uint8>, at: nat, t: Tag, out: seq<uint8>, cap: nat): (st: Step)
    requires at <= |s|
    ensures st.Next? ==> at <= st.next <= |s| && |out| < |st.out| <= cap && st.out[..|out|] == out
    ensures st.Stop? && st.outcome.Decoded? ==> |out| < |st.outcome.out| <= cap && st.outcome.out[..|out|] == out
    ensures st.Stop? && st.outcome.Error? ==> st.outcome.status in {Failed, ReadError}
  {
    match ReadLength(s, at, t.nrField, NR_MASK)
    case None => Stop(Error(ReadError))
    case Some(n) => LiteralCopy(s, n.1, n.0, t, out, cap)
  }

  /**
   * The nr literals at `lit`, when both the input and the room hold them,
   * then the match (lib/lz4kd/lz4kd_decode.c:153-163).
   */
  function LiteralCopy(s: seq<uint8>, lit: nat, nr: nat, t: Tag, out: seq<uint8>, cap: nat): (st: Step)
    requires lit <= |s|
    ensures st.Next? ==> lit <= st.next <= |s| && |out| < |st.out| <= cap && st.out[..|out|] == out
    ensures st.Stop? && st.outcome.Decoded? ==> |out| < |st.outcome.out| <= cap && st.outcome.out[..|out|] == out
    ensures st.Stop? && st.outcome.Error? ==> st.outcome.status in {Failed, ReadError}
  {
    if lit + nr > |s| || |out| + nr > cap then Stop(Error(Failed))
    else
      var st := MatchStep(s, lit + nr, t, nr, out + s[lit..lit + nr], cap);
      assert st.Next? ==> st.out[..|out|] == st.out[..|out| + nr][..|out|];
      st
  }

  /**
   * Decoding the tokens from i on: the block ends at an end-of-block token,
   * or after a token that lands exactly on the end of the input; one or two
   * bytes left over are an error (lib/lz4kd/lz4kd_decode.c:148, 193).
   */
  function DecodeTokens(s: seq<uint8>, i: nat, out: seq<uint8>, cap: nat): (o: Outcome)
    requires i <= |s|
    ensures o.Decoded? && |out| <= cap ==> |o.out| <= cap
    ensures o.Decoded? ==> |out| <= |o.out| && o.out[..|out|] == out
    ensures o.Error? ==> o.status in {Failed, ReadError}
    decreases |s| - i
  {
    if i + TAG_BYTES_MAX > |s| then
      if i == |s| then Decoded(out) else Error(Failed)
    else
      match DecodeStep(s, i, out, cap)
      case Stop(o) => o
      case Next(next, out') =>
        var o := DecodeTokens(s, next, out', cap);
        assert o.Decoded? ==> o.out[..|out|] == o.out[..|out'|][..|out|];
        o
  }

  /**
   * The same block decodes the same way with any larger output room, as long
   * as the room already covers the whole result.
   */
  lemma {:induction false} DecodeTokensCapIrrelevant(s: seq<uint8>, i: nat, out: seq<uint8>, cap: nat, cap': nat)
    requires i <= |s| && cap <= cap'
    requires DecodeTokens(s, i, out, cap).Decoded?
    ensures DecodeTokens(s, i, out, cap') == DecodeTokens(s, i, out, cap)
    decreases |s| - i
  {
    if i + TAG_BYTES_MAX <= |s| {
      var st := DecodeStep(s, i, out, cap);
      assert !(st.Stop? && st.outcome.Error?);
      StepCapIrrelevant(s, i, out, cap, cap');
      if st.Next? {
        DecodeTokensCapIrrelevant(s, st.next, st.out, cap, cap');
      }
    }
  }

  /** A token that neither fails nor runs out of room decodes the same with more room. */
  lemma StepCapIrrelevant(s: seq<uint8>, i: nat, out: seq<uint8>, cap: nat, cap': nat)
    requires i + TAG_BYTES_MAX <= |s| && cap <= cap'
    requires var st := DecodeStep(s, i, out, cap); !(st.Stop? && st.outcome.Error?)
    ensures DecodeStep(s, i, out, cap') == DecodeStep(s, i, out, cap)
  {
    LiteralCapIrrelevant(s, i + TAG_BYTES_MAX, TagOf(Read3At(s, i)), out, cap, cap');
  }

  lemma LiteralCapIrrelevant(s: seq<uint8>, at: nat, t: Tag, out: seq<uint8>, cap: nat, cap': nat)
    requires at <= |s| && cap <= cap'
    requires var st := LiteralStep(s, at, t, out, cap); !(st.Stop? && st.outcome.Error?)
    ensures LiteralStep(s, at, t, out, cap') == LiteralStep(s, at, t, out, cap)
  {
    var (nr, lit) := ReadLength(s, at, t.nrField, NR_MASK).value;
    assert LiteralStep(s, at, t, out, cap) == LiteralCopy(s, lit, nr, t, out, cap);
    assert LiteralStep(s, at, t, out, cap') == LiteralCopy(s, lit, nr, t, out, cap');
    MatchCapIrrelevant(s, lit + nr, t, nr, out + s[lit..lit + nr], cap, cap');
  }

  lemma MatchCapIrrelevant(s: seq<uint8>, at: nat, t: Tag, nr: nat, out1: seq<uint8>, cap: nat, cap': nat)
    requires at <= |s| && cap <= cap'
    requires var st := MatchStep(s, at, t, nr, out1, cap); !(st.Stop? && st.outcome.Error?)
    ensures MatchStep(s, at, t, nr, out1, cap') == MatchStep(s, at, t, nr, out1, cap)
  {
  }


  // ---------------------------------------------------------------------
  // Encoding tokens

  /** The escape that follows a saturated nr field. */
  function NrEscape(nr: nat): (bs: seq<uint8>)
  {
    if nr >= NR_MASK then SizeBytes(nr - NR_MASK) else []
  }

  /** The escape that follows a saturated r field. */
  function REscape(r: nat): (bs: seq<uint8>)
    requires r >= REPEAT_MIN
  {
    if r - REPEAT_MIN >= R_MASK then SizeBytes(r - REPEAT_MIN - R_MASK) else []
  }

  /** The number of escape bytes for a run of nr literals. */
  function NrEscapeLength(nr: nat): (n: nat)
    ensures n == |NrEscape(nr)|
    ensures n == if nr >= NR_MASK then (nr - NR_MASK) / 255 + 1 else 0
  {
    |NrEscape(nr)|
  }

  /**
   * The tag of a token: the offset, and both length fields capped at 63
   * (the excess goes to the escapes).
   */
  function TokenTag(offset: nat, nr: nat, r: nat): (t: Tag)
    requires offset < OFF_SPAN && r >= REPEAT_MIN
    ensures ValidTag(t)
  {
    Tag(offset, Min(r - REPEAT_MIN, R_MASK), Min(nr, NR_MASK))
  }

  /** A tag as the three little-endian bytes `update_utag` leaves in the output. */
  function TagBytes(t: Tag): (bs: seq<uint8>)
    requires ValidTag(t)
    ensures |bs| == TAG_BYTES_MAX
  {
    LeBytes(TagValue(t), TAG_BYTES_MAX)
  }

  /** The bytes of a token whose tag bytes are `tag`: the tag, the nr escape, the literals, the r escape. */
  function TokenOf(tag: seq<uint8>, lits: seq<uint8>, r: nat): (bs: seq<uint8>)
    requires r >= REPEAT_MIN
    ensures |bs| == |tag| + |NrEscape(|lits|)| + |lits| + |REscape(r)|
  {
    tag + NrEscape(|lits|) + lits + REscape(r)
  }

  /** The bytes of one token. */
  function TokenBytes(offset: nat, lits: seq<uint8>, r: nat): (bs: seq<uint8>)
    requires offset < OFF_SPAN && r >= REPEAT_MIN
    ensures |bs| == TAG_BYTES_MAX + |NrEscape(|lits|)| + |lits| + |REscape(r)|
  {
    TokenOf(TagBytes(TokenTag(offset, |lits|, r)), lits, r)
  }

  /** A token costs at least one byte less than the repeat it replaces. */
  lemma RepeatSaves(r: nat)
    requires r >= REPEAT_MIN
    ensures TAG_BYTES_MAX + |REscape(r)| < r
  {
  }

  /** Escapes of two runs take at most one byte more than the escape of the joined run. */
  lemma NrEscapeLengthJoin(a: nat, b: nat)
    ensures NrEscapeLength(a) + NrEscapeLength(b) <= NrEscapeLength(a + b) + 1
    ensures NrEscapeLength(a) <= NrEscapeLength(a + b)
  {
    if a >= NR_MASK && b >= NR_MASK {
      DivAddLe(a - NR_MASK, b - NR_MASK, 255);
      DivMonotone(a + b - 2 * NR_MASK, a + b - NR_MASK, 255);
    } else if a >= NR_MASK {
      DivMonotone(a - NR_MASK, a + b - NR_MASK, 255);
    } else if b >= NR_MASK {
      DivMonotone(b - NR_MASK, a + b - NR_MASK, 255);
    }
  }

  lemma DivMonotone(x: nat, y: nat, d: nat)
    requires x <= y && d > 0
    ensures x / d <= y / d
  {
    MulLeDiv(x / d, d, y);
  }

  lemma DivAddLe(x: nat, y: nat, d: nat)
    requires d > 0
    ensures x / d + y / d <= (x + y) / d
  {
    assert x >= (x / d) * d && y >= (y / d) * d;
    assert (x / d + y / d) * d == (x / d) * d + (y / d) * d;
    MulLeDiv(x / d + y / d, d, x + y);
  }

  /** m * d <= z bounds the quotient z / d from below by m. */
  lemma MulLeDiv(m: nat, d: nat, z: nat)
    requires d > 0 && m * d <= z
    ensures m <= z / d
  {
    var q := z / d;
    assert z == q * d + z % d;
    if m > q {
      MulNonneg(m - q - 1, d);
    }
  }

  /** A window equal to a concatenation splits into windows equal to its parts. */
  lemma SplitWindow(s: seq<uint8>, i: nat, a: seq<uint8>, b: seq<uint8>)
    requires i + |a| + |b| <= |s| && s[i..i + |a| + |b|] == a + b
    ensures s[i..i + |a|] == a && s[i + |a|..i + |a| + |b|] == b
  {
    assert s[i..i + |a|] == s[i..i + |a| + |b|][..|a|];
    assert s[i + |a|..i + |a| + |b|] == s[i..i + |a| + |b|][|a|..];
  }

  /** The bytes of a tag read back, as a little-endian value, as the same tag. */
  lemma TagBytesReadBack(t: Tag)
    requires ValidTag(t)
    ensures TagOf(Read3At(TagBytes(t), 0)) == t
  {
    assert Pow256(3) == 0x100_0000;
    LeRoundTrip(TagValue(t), TAG_BYTES_MAX);
    assert TagBytes(t)[0..TAG_BYTES_MAX] == TagBytes(t);
    TagOfValue(t);
  }

  /** The r escape written for a repeat of r bytes reads back as r. */
  lemma RLengthReads(s: seq<uint8>, j: nat, field: nat, r: nat) returns (end: nat)
    requires r >= REPEAT_MIN && field == Min(r - REPEAT_MIN, R_MASK)
    requires j + |REscape(r)| <= |s| && s[j..j + |REscape(r)|] == REscape(r)
    ensures end == j + |REscape(r)|
    ensures ReadLength(s, j, field + REPEAT_MIN, R_MASK + REPEAT_MIN) == Some((r, end))
  {
    end := j + |REscape(r)|;
    if r - REPEAT_MIN >= R_MASK {
      ReadEscapeOfSizeBytes(s, j, r - REPEAT_MIN - R_MASK);
    }
  }

  /** A step whose tag, lengths and literals read as given decodes to the literals and the back-reference. */
  lemma FieldsDecode(s: seq<uint8>, i: nat, out: seq<uint8>, cap: nat, t: Tag, lit: nat, lits: seq<uint8>, r: nat, end: nat)
    requires i + TAG_BYTES_MAX <= |s| && TagOf(Read3At(s, i)) == t
    requires ReadLength(s, i + TAG_BYTES_MAX, t.nrField, NR_MASK) == Some((|lits|, lit))
    requires lit + |lits| <= |s| && s[lit..lit + |lits|] == lits
    requires ReadLength(s, lit + |lits|, t.rField + REPEAT_MIN, R_MASK + REPEAT_MIN) == Some((r, end))
    requires 0 < t.offset <= |out| + |lits| && |out| + |lits| + r <= cap
    ensures DecodeStep(s, i, out, cap) == Next(end, BackRef(out + lits, t.offset, r))
  {
    LiteralsFromFields(s, i + TAG_BYTES_MAX, t, out, cap, lit, lits, r, end);
  }

  /** A literal run whose nr length reads as |lits| is followed by its match. */
  lemma LiteralsFromFields(s: seq<uint8>, at: nat, t: Tag, out: seq<uint8>, cap: nat, lit: nat, lits: seq<uint8>, r: nat, end: nat)
    requires at <= |s| && ReadLength(s, at, t.nrField, NR_MASK) == Some((|lits|, lit))
    requires lit + |lits| <= |s| && s[lit..lit + |lits|] == lits
    requires ReadLength(s, lit + |lits|, t.rField + REPEAT_MIN, R_MASK + REPEAT_MIN) == Some((r, end))
    requires 0 < t.offset <= |out| + |lits| && |out| + |lits| + r <= cap
    ensures LiteralStep(s, at, t, out, cap) == Next(end, BackRef(out + lits, t.offset, r))
  {
    assert LiteralStep(s, at, t, out, cap) == LiteralCopy(s, lit, |lits|, t, out, cap);
    MatchFromFields(s, lit + |lits|, t, |lits|, out + lits, cap, r, end);
  }

  /** A match whose r length reads as r, with a valid offset and room, is a back-reference. */
  lemma MatchFromFields(s: seq<uint8>, at: nat, t: Tag, nr: nat, out1: seq<uint8>, cap: nat, r: nat, end: nat)
    requires at <= |s| && ReadLength(s, at, t.rField + REPEAT_MIN, R_MASK + REPEAT_MIN) == Some((r, end))
    requires 0 < t.offset <= |out1| && |out1| + r <= cap
    ensures MatchStep(s, at, t, nr, out1, cap) == Next(end, BackRef(out1, t.offset, r))
  {
    var st := MatchStep(s, at, t, nr, out1, cap);
    assert st.Next? && st.next == end by {
      assert ReadLength(s, at, t.rField + REPEAT_MIN, R_MASK + REPEAT_MIN) == Some((r, end));
    }
  }

  /**
   * The part of a token before its match: the tag reads back with the fields
   * it was written with, the nr escape gives the literal count, and the
   * literals come next; the result is the position of the literals.
   */
  lemma TokenFields(s: seq<uint8>, i: nat, tag: seq<uint8>, t: Tag, lits: seq<uint8>, r: nat) returns (lit: nat)
    requires |tag| == TAG_BYTES_MAX && TagOf(Read3At(tag, 0)) == t && r >= REPEAT_MIN && t.nrField == Min(|lits|, NR_MASK)
    requires i + |TokenOf(tag, lits, r)| <= |s| && s[i..i + |TokenOf(tag, lits, r)|] == TokenOf(tag, lits, r)
    ensures lit == i + TAG_BYTES_MAX + |NrEscape(|lits|)| && lit + |lits| + |REscape(r)| <= |s|
    ensures s[lit..lit + |lits|] == lits && s[lit + |lits|..lit + |lits| + |REscape(r)|] == REscape(r)
    ensures TagOf(Read3At(s, i)) == t
    ensures ReadLength(s, i + TAG_BYTES_MAX, t.nrField, NR_MASK) == Some((|lits|, lit))
  {
    TokenWindows(s, i, tag, lits, r);
    assert tag[0..TAG_BYTES_MAX] == tag;
    lit := i + TAG_BYTES_MAX + |NrEscape(|lits|)|;
    if |lits| >= NR_MASK {
      ReadEscapeOfSizeBytes(s, i + TAG_BYTES_MAX, |lits| - NR_MASK);
    }
  }

  /** The window holding a token splits into its tag, its escapes and its literals. */
  lemma TokenWindows(s: seq<uint8>, i: nat, tag: seq<uint8>, lits: seq<uint8>, r: nat)
    requires |tag| == TAG_BYTES_MAX && r >= REPEAT_MIN
    requires i + |TokenOf(tag, lits, r)| <= |s| && s[i..i + |TokenOf(tag, lits, r)|] == TokenOf(tag, lits, r)
    ensures s[i..i + TAG_BYTES_MAX] == tag
    ensures s[i + TAG_BYTES_MAX..i + TAG_BYTES_MAX + |NrEscape(|lits|)|] == NrEscape(|lits|)
    ensures s[i + TAG_BYTES_MAX + |NrEscape(|lits|)|..i + TAG_BYTES_MAX + |NrEscape(|lits|)| + |lits|] == lits
    ensures s[i + TAG_BYTES_MAX + |NrEscape(|lits|)| + |lits|..i + |TokenOf(tag, lits, r)|] == REscape(r)
  {
    SplitWindow4(s, i, TokenOf(tag, lits, r), tag, NrEscape(|lits|), lits, REscape(r), i + TAG_BYTES_MAX,
                 i + TAG_BYTES_MAX + |NrEscape(|lits|)|, i + TAG_BYTES_MAX + |NrEscape(|lits|)| + |lits|,
                 i + |TokenOf(tag, lits, r)|);
  }

  /** A window holding a + b + c + d splits, at the given ends, into the four parts. */
  lemma SplitWindow4(s: seq<uint8>, i: nat, w: seq<uint8>, a: seq<uint8>, b: seq<uint8>, c: seq<uint8>, d: seq<uint8>,
                     j1: nat, j2: nat, j3: nat, j4: nat)
    requires j1 == i + |a| && j2 == j1 + |b| && j3 == j2 + |c| && j4 == j3 + |d|
    requires w == a + b + c + d && j4 <= |s| && s[i..j4] == w
    ensures s[i..j1] == a && s[j1..j2] == b && s[j2..j3] == c && s[j3..j4] == d
  {
    SplitWindow(s, i, a + b + c, d);
    SplitWindow(s, i, a + b, c);
    SplitWindow(s, i, a, b);
  }

  /**
   * The tail token (offset 0, r field 0, at least one literal) ending the
   * input decodes to its literals and ends the block.
   */
  lemma TailDecodes(s: seq<uint8>, i: nat, out: seq<uint8>, cap: nat, lits: seq<uint8>)
    requires 0 < |lits| && |out| + |lits| <= cap
    requires i + |TokenBytes(0, lits, REPEAT_MIN)| == |s| && s[i..] == TokenBytes(0, lits, REPEAT_MIN)
    ensures DecodeTokens(s, i, out, cap) == Decoded(out + lits)
  {
    assert s[i..i + |TokenBytes(0, lits, REPEAT_MIN)|] == s[i..];
    var t := TokenTag(0, |lits|, REPEAT_MIN);
    TagBytesReadBack(t);
    var lit := TokenFields(s, i, TagBytes(t), t, lits, REPEAT_MIN);
    assert ReadLength(s, lit + |lits|, REPEAT_MIN, R_MASK + REPEAT_MIN) == Some((REPEAT_MIN, |s|));
    assert DecodeStep(s, i, out, cap) == Stop(Decoded(out + lits));
  }

  /**
   * The bytes e written so far decode, in the block s that starts with them
   * and with room cap of at least n bytes, to x: decoding from the start
   * reaches position |e| with x as output.
   */
  ghost predicate ReachesIn(e: seq<uint8>, x: seq<uint8>, n: nat, s: seq<uint8>, cap: nat)
  {
    1 <= |e| <= |s| && s[..|e|] == e && n <= cap ==> DecodeTokens(s, 1, [], cap) == DecodeTokens(s, |e|, x, cap)
  }

  /** The bytes e reach x in every block that starts with them and for any room of at least n bytes. */
  ghost predicate Reaches(e: seq<uint8>, x: seq<uint8>, n: nat)
  {
    1 <= |e| && |x| <= n && forall s: seq<uint8>, cap: nat :: ReachesIn(e, x, n, s, cap)
  }

  /** A block reaches its header byte with nothing decoded. */
  lemma ReachesStart(h: uint8, n: nat)
    ensures Reaches([h], [], n)
  {
    forall s: seq<uint8>, cap: nat
      ensures ReachesIn([h], [], n, s, cap)
    {
    }
  }

  /** Appending a token extends what the block reaches by the token's bytes. */
  lemma ReachesToken(e: seq<uint8>, x: seq<uint8>, n: nat, offset: nat, lits: seq<uint8>, r: nat)
    requires Reaches(e, x, n)
    requires 0 < offset < OFF_SPAN && r >= REPEAT_MIN && offset <= |x| + |lits| && |x| + |lits| + r <= n
    ensures Reaches(e + TokenBytes(offset, lits, r), BackRef(x + lits, offset, r), n)
  {
    var tb := TokenBytes(offset, lits, r);
    forall s: seq<uint8>, cap: nat | |e| + |tb| <= |s| && s[..|e| + |tb|] == e + tb && n <= cap
      ensures DecodeStep(s, |e|, x, cap) == Next(|e| + |tb|, BackRef(x + lits, offset, r))
    {
      assert s[|e|..|e| + |tb|] == (e + tb)[|e|..] == tb;
      TokenDecodes(s, |e|, x, cap, offset, lits, r, tb, |e| + |tb|);
    }
    ReachesStep(e, x, n, tb, BackRef(x + lits, offset, r));
  }

  /** The bytes of a token, read where they stand, decode to its literals and its back-reference. */
  lemma TokenDecodes(s: seq<uint8>, i: nat, x: seq<uint8>, cap: nat, offset: nat, lits: seq<uint8>, r: nat,
                     tb: seq<uint8>, j: nat)
    requires 0 < offset < OFF_SPAN && r >= REPEAT_MIN && offset <= |x| + |lits| && |x| + |lits| + r <= cap
    requires tb == TokenBytes(offset, lits, r) && j == i + |tb| && j <= |s| && s[i..j] == tb
    ensures DecodeStep(s, i, x, cap) == Next(j, BackRef(x + lits, offset, r))
  {
    var t := TokenTag(offset, |lits|, r);
    TagBytesReadBack(t);
    var lit, end := TokenReads(s, i, TagBytes(t), t, lits, r);
    FieldsDecode(s, i, x, cap, t, lit, lits, r, end);
  }

  /** Reading a token back from the input: its tag, its lengths and its literals. */
  lemma TokenReads(s: seq<uint8>, i: nat, tag: seq<uint8>, t: Tag, lits: seq<uint8>, r: nat) returns (lit: nat, end: nat)
    requires |tag| == TAG_BYTES_MAX && TagOf(Read3At(tag, 0)) == t
    requires r >= REPEAT_MIN && t.rField == Min(r - REPEAT_MIN, R_MASK) && t.nrField == Min(|lits|, NR_MASK)
    requires i + |TokenOf(tag, lits, r)| <= |s| && s[i..i + |TokenOf(tag, lits, r)|] == TokenOf(tag, lits, r)
    ensures i + TAG_BYTES_MAX <= |s| && TagOf(Read3At(s, i)) == t
    ensures ReadLength(s, i + TAG_BYTES_MAX, t.nrField, NR_MASK) == Some((|lits|, lit))
    ensures lit + |lits| <= |s| && s[lit..lit + |lits|] == lits
    ensures ReadLength(s, lit + |lits|, t.rField + REPEAT_MIN, R_MASK + REPEAT_MIN) == Some((r, end))
    ensures end == i + |TokenOf(tag, lits, r)|
  {
    lit := TokenFields(s, i, tag, t, lits, r);
    end := RLengthReads(s, lit + |lits|, t.rField, r);
  }

  /**
   * A block reaches e + tb with x' when it reaches e with x and, whatever
   * follows, the token tb at |e| takes x to x'.
   */
  lemma ReachesStep(e: seq<uint8>, x: seq<uint8>, n: nat, tb: seq<uint8>, x': seq<uint8>)
    requires Reaches(e, x, n) && TAG_BYTES_MAX <= |tb| && |x'| <= n
    requires forall s: seq<uint8>, cap: nat | |e| + |tb| <= |s| && s[..|e| + |tb|] == e + tb && n <= cap ::
      DecodeStep(s, |e|, x, cap) == Next(|e| + |tb|, x')
    ensures Reaches(e + tb, x', n)
  {
    forall s: seq<uint8>, cap: nat
      ensures ReachesIn(e + tb, x', n, s, cap)
    {
      if |e + tb| <= |s| && s[..|e + tb|] == e + tb && n <= cap {
        assert s[..|e|] == (e + tb)[..|e|] == e;
        assert ReachesIn(e, x, n, s, cap);
        DecodeTokensStep(s, |e|, x, cap, |e + tb|, x');
      }
    }
  }

  /** Decoding goes on from where a token that does not stop leaves it. */
  lemma DecodeTokensNext(s: seq<uint8>, i: nat, out: seq<uint8>, cap: nat)
    requires i + TAG_BYTES_MAX <= |s| && DecodeStep(s, i, out, cap).Next?
    ensures var st := DecodeStep(s, i, out, cap); DecodeTokens(s, i, out, cap) == DecodeTokens(s, st.next, st.out, cap)
  {
  }

  /** A token that leads from (i, x) to (j, x') leaves the rest of the decoding as it was. */
  lemma DecodeTokensStep(s: seq<uint8>, i: nat, x: seq<uint8>, cap: nat, j: nat, x': seq<uint8>)
    requires i + TAG_BYTES_MAX <= |s| && DecodeStep(s, i, x, cap) == Next(j, x')
    ensures DecodeTokens(s, i, x, cap) == DecodeTokens(s, j, x', cap)
  {
    DecodeTokensNext(s, i, x, cap);
  }

  /** A block that reaches its own end decodes to what it reached. */
  lemma ReachesEnd(e: seq<uint8>, x: seq<uint8>, n: nat, cap: nat)
    requires Reaches(e, x, n) && n <= cap
    ensures DecodeTokens(e, 1, [], cap) == Decoded(x)
  {
    assert e[..|e|] == e;
    assert ReachesIn(e, x, n, e, cap);
  }

  /** A block that ends with a tail token decodes to what it reached plus the tail's literals. */
  lemma ReachesTail(e: seq<uint8>, x: seq<uint8>, n: nat, lits: seq<uint8>, cap: nat)
    requires Reaches(e, x, n) && 0 < |lits| && |x| + |lits| <= n <= cap
    ensures DecodeTokens(e + TokenBytes(0, lits, REPEAT_MIN), 1, [], cap) == Decoded(x + lits)
  {
    var s := e + TokenBytes(0, lits, REPEAT_MIN);
    assert s[..|e|] == e && s[|e|..] == TokenBytes(0, lits, REPEAT_MIN);
    assert ReachesIn(e, x, n, s, cap);
    TailDecodes(s, |e|, x, cap, lits);
  }
}
