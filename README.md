# LZ4KD page codec, modelled and verified in Dafny

LZ4KD is an LZ77-family compressor and decompressor for blocks of at most
4096 bytes (one memory page). It is not the LZ4 block format. This project
models its fast encoder (`lz4kd_encode`), its decoder (`lz4kd_decode`), the
helpers both build on, and the status codes of the public header. It proves
that a block the encoder returns decodes back to its input.

## The block format

A normal block is a header byte `0` followed by tokens. Each token holds:

- a 3-byte little-endian tag:
  - the back-reference offset in bits 0-11;
  - `min(r - 4, 63)` in bits 12-17;
  - `min(nr, 63)` in bits 18-23;
- the escape of nr, when its field is saturated;
- nr literal bytes;
- the escape of r, when its field is saturated.

An escape is a run of 255s ended by a byte below 255. The excess over the
saturated field is the sum of those bytes. A token with offset 0 ends the
block. The decoder also accepts a block whose last token ends exactly at the
end of the input. A separate pattern block is exactly 8 bytes with no
header; the decoder tiles those 8 bytes across the output.

`Format` states this format once, as reference functions on byte sequences:

- `TagOf`/`TagValue` split and pack a tag;
- `SizeBytes` and `ReadEscape` write and read an escape;
- `BackRef` is the forward recurrence `out[p] = out[p - offset]`;
- `DecodeStep` and `DecodeTokens` decode one token and a whole block;
- `TokenBytes` gives the bytes of a token.

## How the pieces fit

- **Decoder.** The decoder is imperative: a loop over an input sequence that writes an output array. Each pass is proved equal to `DecodeStep`, and `Decoder.Decode` is proved equal to `DecodeTokens`.
  - The source copies back-references in overlapping 8-, 16- and 32-byte chunks.
  - Each path is proved to produce the byte-wise recurrence. The output is periodic with period `offset` from the copy source on, and every chunk copies from a distance that is a whole number of periods.
- **Encoder.** Each writer is specified by the bytes it leaves in the output, in terms of `TokenBytes`.
  - The main loop `EncodeAny` keeps the invariant `Reaches(out[..outAt], s[..nr0], n)`: the bytes written so far decode, in any block that starts with them, to the input up to `nr0`.
  - The loop also keeps a size bound: what is written never exceeds the header, one tag and every byte sent as a literal.
  - So a finished block decodes to the whole input, and it fits the worst-case size that `lz4kd_encode` checks up front.
  - The probe loop and the main loop are also written as ghost functions over a table value: `FindFrom` and `ExitFrom`. `Slots` fixes the hash of every window. Each round is proved to follow them, so where `encode_any` stops is `EncodeExit` of the input. That exit alone decides whether the result is 0.
- **Round trip.** `RoundTrip.EncodeDecode` joins the two entry points.

Buffers are arrays, and pointers are indices into them. The input of both
entry points is read-only: it is in no `modifies` clause. The encoder's
state buffer is an array of 4096 `uint16` slots.

The header comment of `size_bytes_count` (lib/lz4kd/lz4kd_encode_private.h:38)
gives `(u + 254) / 255`. The code computes `((u + 255) >> 8) + 1`. The model
follows the code, and `EncodePrivate.SizeBytesCountCovers` shows the code's
count is still large enough for every size a 4 KB block can produce.

## Model

| member | source | states |
|---|---|---|
| Lz4kdStatus.Status.Code | include/linux/lz4kd.h:30-35 | INCOMPRESSIBLE is 0 and the failures are negative (-1, -2, -3); a negative code reads back as its status |
| Primitives.Mask | lib/lz4kd/lz4kd_private.h:47-50 | `mask(k) + 1 == 2^k` |
| Primitives.Max | lib/lz4kd/lz4kd_private.h:67-70 | the result is one of the two arguments and at least both |
| Primitives.Min | lib/lz4kd/lz4kd_private.h:72-75 | the result is one of the two arguments and at most both |
| Primitives.MCopyFrom | lib/lz4kd/lz4kd_private.h:77-84 | `m_copy` from a separate buffer: the n bytes at dst are the source bytes; every other byte is unchanged |
| Primitives.MCopyWithin | lib/lz4kd/lz4kd_private.h:77-84 | `m_copy` inside one buffer, as a snapshot: each written byte is the old source byte, even when the ranges overlap |
| Primitives.MSet | lib/lz4kd/lz4kd_private.h:86-93 | `m_set`: n copies of value from dst on; nothing else changes |
| Primitives.RoundDownToLog2 | lib/lz4kd/lz4kd_private.h:95-98 | the result is a multiple of 2^k with `r <= u < r + 2^k` |
| Primitives.RoundDownIsGreatest | lib/lz4kd/lz4kd_private.h:95-98 | every multiple of 2^k not above u is at most the round-down |
| Primitives.RoundUpToLog2 | lib/lz4kd/lz4kd_private.h:100-103 | the result is a multiple of 2^k with `u <= r < u + 2^k` |
| Primitives.RoundUpIsLeast | lib/lz4kd/lz4kd_private.h:100-103 | every multiple of 2^k not below u is at least the round-up |
| Primitives.Read3At | lib/lz4kd/lz4kd_private.h:116-121 | three bytes zero-extended: the value is below 2^24 |
| Primitives.Read3AtBytes | lib/lz4kd/lz4kd_private.h:116-121 | the value of `read3_at` is `b0 + 256*b1 + 65536*b2` |
| Primitives.Read4At | lib/lz4kd/lz4kd_private.h:123-128 | four bytes read as a little-endian value below 2^32 |
| Primitives.Read8At | lib/lz4kd/lz4kd_private.h:130-135 | eight bytes read as a little-endian value below 2^64 |
| Primitives.LeRoundTrip | lib/lz4kd/lz4kd_private.h:116-135 | writing v into n little-endian bytes and reading them back gives v, for v < 256^n |
| Primitives.LeValueInjective | lib/lz4kd/lz4kd_private.h:147-160 | two byte strings of one length have equal little-endian values iff they are equal |
| Primitives.Equal3 | lib/lz4kd/lz4kd_private.h:137-140 | `equal3` (both 4-byte reads shifted left by 8 in 32 bits) is true iff the first 3 bytes at q and r are equal |
| Primitives.ShiftDropsTopByte | lib/lz4kd/lz4kd_private.h:137-140 | shifting a 4-byte value left by 8 within 32 bits keeps exactly its 3 low bytes |
| Primitives.Equal4 | lib/lz4kd/lz4kd_private.h:147-150 | true iff the 4-byte windows at q and r are equal |
| Primitives.Equal8 | lib/lz4kd/lz4kd_private.h:157-160 | true iff the 8-byte windows at q and r are equal |
| Primitives.Hash64v5b | lib/lz4kd/lz4kd_private.h:195-200 | the hash, with its 64-bit wrap-around and 32-bit truncation written out, is below 2^shift |
| Primitives.Hash64v5bLowFiveBytes | lib/lz4kd/lz4kd_private.h:195-200 | two arguments with the same 5 low bytes hash alike |
| Primitives.Hash64_5b | lib/lz4kd/lz4kd_private.h:202-205 | the hash of the 8 bytes at i is below 2^shift |
| Primitives.LoopedLength | lib/lz4kd/lz4kd_private.h:242-250 | a `while_lt` loop writes nothing when there is nothing to cover; otherwise it writes at least `total` and less than `total + copy_min` bytes |
| Primitives.WhileLtCopyX | lib/lz4kd/lz4kd_private.h:242-250 | every byte written repeats the byte `dst - src` before it; bytes outside the written chunks are unchanged |
| Primitives.CopyXWhileLt | lib/lz4kd/lz4kd_private.h:252-261 | at least one chunk, then chunks while `dst + copy_min < dst_end`; the bytes written are the source bytes at the same distance |
| Primitives.ChunkedLength | lib/lz4kd/lz4kd_private.h:263-272 | a chunked copy writes at least `total` and at least one chunk, and for `total > 0` less than `total + copy_min` bytes |
| Primitives.ChunkedLengthIsRoundUp | lib/lz4kd/lz4kd_private.h:263-272 | for a power-of-two chunk the length written is `max(copy_min, round_up(total))` |
| Primitives.ChunkedLengthMultiple | lib/lz4kd/lz4kd_private.h:263-272 | the length written is a whole number of chunks |
| Primitives.CopyXWhileTotal | lib/lz4kd/lz4kd_private.h:263-272 | the first `ChunkedLength(total)` bytes at dst are the source bytes; nothing else changes |
| Primitives.Copy2x | lib/lz4kd/lz4kd_private.h:274-281 | two chunks, each byte repeating the one `dst - src` back; nothing else changes |
| Primitives.Copy2xAsX2WhileLt | lib/lz4kd/lz4kd_private.h:283-292 | at least one double chunk, then more while `dst + 2*copy_min < dst_end`, every byte repeating the one `dst - src` back; nothing else changes |
| Primitives.WhileLtCopy2xAsX2 | lib/lz4kd/lz4kd_private.h:294-302 | double chunks while `dst < dst_end`, every byte repeating the one `dst - src` back; nothing else changes |
| EncodePrivate.U32Of | lib/lz4kd/lz4kd_encode_private.h:22-25 | `u_32` is the value modulo 2^32: unchanged in range, and congruent to the argument |
| Format.TagValue | lib/lz4kd/lz4kd_encode_private.h:27-35 | the packed fields fit in 24 bits |
| Format.TagOf | lib/lz4kd/lz4kd_decode.c:149-153 | the masked and shifted fields of a 24-bit value are a valid tag |
| Format.TagOfValue | lib/lz4kd/lz4kd_decode.c:149-153 | splitting a packed tag gives back its fields |
| Format.TagValueOf | lib/lz4kd/lz4kd_decode.c:149-153 | packing the fields of a 24-bit value gives back the value |
| Format.SizeBytes | lib/lz4kd/lz4kd_encode.c:61-66 | the escape of u is `u / 255 + 1` bytes long |
| Format.SizeBytesShape | lib/lz4kd/lz4kd_encode.c:61-66 | all but the last escape byte are 255; the last is `u % 255`, below 255 |
| Format.ReadEscape | lib/lz4kd/lz4kd_decode.c:15-28 | a successful read ends after its start and within the input |
| Format.ReadEscapeOfSizeBytes | lib/lz4kd/lz4kd_decode.c:15-28 | reading the escape of u returns u and the position just past it, whatever follows: `get_size` inverts `out_size_bytes` |
| Format.ReadLength | lib/lz4kd/lz4kd_decode.c:158-169 | an unsaturated field is the length with no bytes read; a saturated one adds its escape and is at least the field |
| Format.BackRef | lib/lz4kd/lz4kd_decode.c:170-191 | a back-reference appends r bytes and keeps the output before it |
| Format.BackRefRepeats | lib/lz4kd/lz4kd_decode.c:170-191 | every appended byte equals the byte `offset` positions before it |
| Format.BackRefUnique | lib/lz4kd/lz4kd_decode.c:170-191 | any output that keeps the recurrence over the r bytes is the back-reference |
| Format.BackRefOfRepeat | lib/lz4kd/lz4kd_encode.c:232-257 | a back-reference over input bytes that repeat at distance offset reproduces those bytes |
| Format.DecodeStep | lib/lz4kd/lz4kd_decode.c:148-164 | one token either goes on, further in the input, with the output extended within the room, or stops with a decoded block or FAILED/READ_ERROR |
| Format.LiteralStep | lib/lz4kd/lz4kd_decode.c:158-162 | reading the nr length: the same three outcomes, the output only extended |
| Format.LiteralCopy | lib/lz4kd/lz4kd_decode.c:163-164 | copying the literals, then the match: the same three outcomes |
| Format.MatchStep | lib/lz4kd/lz4kd_decode.c:165-191 | the match half: goes on with a longer output within the room; ends as a block only with literals present; otherwise fails |
| Format.DecodeTokens | lib/lz4kd/lz4kd_decode.c:137-194 | a decoded block extends the output it started from and stays within the room; an error is FAILED or READ_ERROR |
| Format.DecodeTokensCapIrrelevant | lib/lz4kd/lz4kd_decode.c:137-194 | a block that decodes with some room decodes to the same bytes with any larger room |
| Format.NrEscapeLength | lib/lz4kd/lz4kd_encode.c:145-153 | the nr escape has `(nr - 63) / 255 + 1` bytes once nr reaches 63, and none before |
| Format.TokenTag | lib/lz4kd/lz4kd_encode.c:50-59 | the fields the encoder packs for a token form a valid tag |
| Format.TagBytes | lib/lz4kd/lz4kd_encode.c:147 | a tag is written as 3 bytes |
| Format.TokenBytes | lib/lz4kd/lz4kd_encode.c:202-215 | a token's length is 3 tag bytes plus its nr escape, its literals and its r escape (what the bytes decode to is `Format.TokenDecodes`) |
| Format.RepeatSaves | lib/lz4kd/lz4kd_encode.c:170-188 | the tag and r escape of a repeat of r >= 4 bytes cost fewer than r bytes |
| Format.TagBytesReadBack | lib/lz4kd/lz4kd_decode.c:149-153 | the 3 tag bytes the encoder writes read back in the decoder as the same tag |
| Format.RLengthReads | lib/lz4kd/lz4kd_decode.c:165-169 | the r field and escape written for r read back as r, ending just past the escape |
| Format.FieldsDecode | lib/lz4kd/lz4kd_decode.c:148-191 | a token whose tag, lengths and literals read as given decodes to the literals followed by the back-reference |
| Format.TokenDecodes | lib/lz4kd/lz4kd_decode.c:148-191 | the bytes of a token, wherever they stand, decode to its literals and its back-reference, and decoding goes on just past them |
| Format.TailDecodes | lib/lz4kd/lz4kd_decode.c:187-189 | a final offset-0 token with literals ends the block with those literals appended |
| Format.ReachesStart | lib/lz4kd/lz4kd_decode.c:238 | the header byte alone reaches the empty output |
| Format.ReachesToken | lib/lz4kd/lz4kd_decode.c:148-192 | appending a token with a valid offset extends what the block reaches by its literals and back-reference |
| Format.ReachesEnd | lib/lz4kd/lz4kd_decode.c:193 | a block that ends exactly after its last token decodes to what it reached |
| Format.ReachesTail | lib/lz4kd/lz4kd_decode.c:187-189 | a block ending in a tail token decodes to what it reached plus the tail's literals |
| EncodePrivate.SizeBytesCount | lib/lz4kd/lz4kd_encode_private.h:36-39 | the count is at least 1 |
| EncodePrivate.SizeBytesCountCovers | lib/lz4kd/lz4kd_encode_private.h:36-39 | for u < 65280 the count is at least the `u / 255 + 1` bytes `out_size_bytes` writes |
| EncodePrivate.SizeBytesCountShort | lib/lz4kd/lz4kd_encode_private.h:36-39 | at u = 65280 the count is one byte short of the escape |
| EncodePrivate.NrEncodedBytesMax | lib/lz4kd/lz4kd_encode_private.h:42-48 | the bound is at least `nr_max + 4` whenever the 32-bit round-up does not wrap |
| EncodePrivate.NrEncodedBytesMaxCovers | lib/lz4kd/lz4kd_encode_private.h:42-48 | for up to 4096 bytes the bound covers the header, a tag, every byte as a literal and the nr escape |
| EncodePrivate.Hashed | lib/lz4kd/lz4kd_encode_private.h:57-66 | returns the old slot h, stores r as a uint16_t there, and leaves every other slot unchanged |
| EncodePrivate.RepeatStart | lib/lz4kd/lz4kd_encode_private.h:68-76 | the start lies in [nr0, r]; every byte from it to r repeats the one `r - q` back; it stopped at nr0, at the start of the input or at a differing byte |
| EncodePrivate.MatchMax | lib/lz4kd/lz4kd_encode_private.h:78-85 | true iff the first 4 and the last 4 bytes of the two windows agree |
| EncodePrivate.MatchMaxOfEqual | lib/lz4kd/lz4kd_encode_private.h:78-85 | equal windows always pass `match_max` |
| Decoder.GetSize | lib/lz4kd/lz4kd_decode.c:15-28 | succeeds iff the escape ends within the input, then adds its sum to size and returns the position past it |
| Decoder.EndOfBlock | lib/lz4kd/lz4kd_decode.c:30-45 | succeeds iff nr != 0, r == 4 and the input is used up, then returns the output size; otherwise FAILED |
| Decoder.OutNonRepeat | lib/lz4kd/lz4kd_decode.c:54-87 | succeeds iff the run fits the input and the output; then the nr bytes are copied and both cursors advance by nr; on failure both stay; nothing past out_end changes |
| Decoder.PeriodicShift | lib/lz4kd/lz4kd_decode.c:89-111 | in a stretch with period offset, bytes a whole number of periods apart are equal |
| Decoder.ChunkExtends | lib/lz4kd/lz4kd_decode.c:99-105 | a chunk copy from a whole number of periods back extends the periodic stretch |
| Decoder.ExtendByMultiple | lib/lz4kd/lz4kd_decode.c:110 | a stretch with a period that is a multiple of offset, joined to one with period offset, has period offset throughout |
| Decoder.CopyChunkAhead | lib/lz4kd/lz4kd_decode.c:99-105 | one `m_copy` of the overlap path extends the recurrence; nothing outside the chunk changes |
| Decoder.CopyRestByMultiple | lib/lz4kd/lz4kd_decode.c:110 | the 32-byte tail loop of the overlap path extends the recurrence to the copy end |
| Decoder.OutRepeatOverlap | lib/lz4kd/lz4kd_decode.c:89-111 | for 1 < offset < 8 every byte of the copy repeats the one offset back; nothing past the copy end plus 31 changes |
| Decoder.OutRepeatSlow | lib/lz4kd/lz4kd_decode.c:113-135 | succeeds iff the copy ends within out_end, and then every copied byte repeats the one offset back |
| Decoder.OutRepeatMidOffset | lib/lz4kd/lz4kd_decode.c:178-182 | for 8 <= offset < 16 the 16-byte chunks produce the recurrence; nothing at or past out_end changes |
| Decoder.OutRepeat | lib/lz4kd/lz4kd_decode.c:170-191 | every branch succeeds iff the copy ends within out_end, and then gives `out[p] = out[p - offset]` over the r bytes; nothing at or past out_end changes |
| Decoder.TagRead | lib/lz4kd/lz4kd_decode.c:149 | `read4_at(in_at - 1) >> 8` is the 3 bytes at in_at |
| Decoder.ReadTag | lib/lz4kd/lz4kd_decode.c:149-153 | the offset, r and nr fields are those of the tag at in_at, with r at least 4 |
| Decoder.ReadSize | lib/lz4kd/lz4kd_decode.c:158-169 | a length field, with `get_size` on a saturated field, is exactly `ReadLength` |
| Decoder.DecodeMatch | lib/lz4kd/lz4kd_decode.c:165-191 | the match half of a pass agrees with `MatchStep`; nothing outside the room changes |
| Decoder.DecodeLiterals | lib/lz4kd/lz4kd_decode.c:158-162 | the nr length half of a pass agrees with `LiteralStep` |
| Decoder.CopyLiterals | lib/lz4kd/lz4kd_decode.c:163-164 | the literal copy and the match agree with `LiteralCopy` |
| Decoder.DecodeToken | lib/lz4kd/lz4kd_decode.c:149-191 | one pass of the loop agrees with `DecodeStep` |
| Decoder.Decode | lib/lz4kd/lz4kd_decode.c:137-194 | returns the size of, and writes, exactly the output `DecodeTokens` gives, or its error code; nothing at or past out_end changes |
| Decoder.DecodePattern4kb | lib/lz4kd/lz4kd_decode.c:196-207 | fills every whole word with `out[k] = in[k % 8]` and succeeds iff the room is a multiple of 8 |
| Decoder.OutRoom | lib/lz4kd/lz4kd_decode.c:226 | the room is min(out_max, 4096) |
| Decoder.Lz4kdDecode | lib/lz4kd/lz4kd_decode.c:218-239 | FAILED for null buffers, in_max <= 4 or out_max == 0; in_max == 8 is a pattern block: `out[k] = in[k % 8]` over every whole word of the room, the rest unchanged, success iff the room is a multiple of 8; otherwise the block after the header decodes as `DecodeTokens` says; nothing past the room changes |
| Encoder.EncodeStateBytesMin | lib/lz4kd/lz4kd_encode.c:21-28 | the state is 8192 bytes: one uint16_t slot per 12-bit hash |
| Encoder.EncodedBytesMin | lib/lz4kd/lz4kd_encode.c:41-48 | at least a tag plus the literals |
| Encoder.EncodedBytesMinCovers | lib/lz4kd/lz4kd_encode.c:41-48 | for up to 4096 literals it covers the tail token the encoder writes |
| Encoder.UpdateUtag | lib/lz4kd/lz4kd_encode.c:50-59 | ors `min(r - 4, 63)` into bits 12-17 of an offset-only tag |
| Encoder.OutSizeBytes | lib/lz4kd/lz4kd_encode.c:61-66 | writes exactly the escape `SizeBytes(u)` at out_at and returns the position past it |
| Encoder.OutUtagThenBytesLeft | lib/lz4kd/lz4kd_encode.c:68-75 | writes the 3 low bytes of the tag, then the escape of bytes_left |
| Encoder.TokenTagBytes | lib/lz4kd/lz4kd_encode.c:145-151 | a token's tag bytes are the 3 low bytes of the offset, r field and nr field packed together |
| Encoder.OutNrTag | lib/lz4kd/lz4kd_encode.c:145-153 | writes the tag with `min(nr, 63)` ored in, then the nr escape |
| Encoder.TailBytes | lib/lz4kd/lz4kd_encode.c:91-101 | a tail token is its tag with nr ored in, its nr escape and its literals |
| Encoder.OutTailToken | lib/lz4kd/lz4kd_encode.c:91-102 | writes exactly the offset-0, r-field-0 token of the remaining literals |
| Encoder.OutTail | lib/lz4kd/lz4kd_encode.c:77-103 | returns 0 and writes nothing iff `encoded_bytes_min` exceeds the 32-bit distance to out_end; otherwise writes the tail token and returns the block size, within out_end when out_at was |
| Encoder.OutTail2 | lib/lz4kd/lz4kd_encode.c:105-117 | returns the size unchanged when the last match ended at the end of the input, otherwise acts as `out_tail` |
| Encoder.OutRBytesLeft | lib/lz4kd/lz4kd_encode.c:159-168 | writes the r escape, empty when the r field is not saturated |
| Encoder.RepeatTokenShort | lib/lz4kd/lz4kd_encode.c:178-181 | a literal-free token with r - 4 < 63 is its 3 tag bytes |
| Encoder.RepeatTokenLong | lib/lz4kd/lz4kd_encode.c:182-186 | a literal-free token with r - 4 >= 63 is its tag bytes, then the escape of the excess |
| Encoder.OutRepeat | lib/lz4kd/lz4kd_encode.c:170-188 | writes exactly the token of a repeat with no literals |
| Encoder.OutNonRepeat | lib/lz4kd/lz4kd_encode.c:133-157 | writes the tag, the nr escape and the literals in whole 16-byte chunks; returns the position just past the nr literals |
| Encoder.TupleBytesLength | lib/lz4kd/lz4kd_encode.c:202-215 | what `out_tuple` writes is the tag, the escapes and the longer of the token's rest and the chunked copy |
| Encoder.TupleToken | lib/lz4kd/lz4kd_encode.c:212-214 | the head written by `out_non_repeat`, the literals and the r escape make up exactly the token |
| Encoder.OutTuple | lib/lz4kd/lz4kd_encode.c:202-215 | writes the token for the literals and the repeat, followed only by input bytes left over by the chunked copy; returns the position past the token |
| Encoder.FirstDiff | lib/lz4kd/lz4kd_encode.c:242-246 | the index `ctz(x) >> 3` gives: the bytes before it agree and the byte at it differs |
| Encoder.AgreeBytes8 | lib/lz4kd/lz4kd_encode.c:241-249 | the number of leading bytes of two 8-byte windows that agree, with the next one differing when below 8 |
| Encoder.MatchEnd | lib/lz4kd/lz4kd_encode.c:232-257 | the end of a repeat at distance off from p: a position in [p, in_end] whose byte, if any, differs from the one off back |
| Encoder.MatchEndRepeats | lib/lz4kd/lz4kd_encode.c:232-257 | every byte from p up to `MatchEnd` repeats the byte off back |
| Encoder.MatchEndUnique | lib/lz4kd/lz4kd_encode.c:232-257 | any stretch that repeats from p and stops at a differing byte or at the end ends at `MatchEnd` |
| Encoder.RepeatEnd | lib/lz4kd/lz4kd_encode.c:232-257 | the end lies in [r + 4, in_end]; every byte before it repeats the one `r - q` back; the byte at it, if any, does not; so it is `MatchEnd` from r + 4 |
| Encoder.Hash | lib/lz4kd/lz4kd_encode.c:270-273 | the slot is below 4096 |
| Encoder.Slots | lib/lz4kd/lz4kd_encode.c:270-273 | the table of `hash` for every 8-byte window of the input, each slot below 4096 |
| Encoder.SlotsUnique | lib/lz4kd/lz4kd_encode.c:270-273 | two tables that record `hash` for every window are equal, so `Slots` is the only one |
| Encoder.HashAt | lib/lz4kd/lz4kd_encode.c:270-273 | `hash(r)` is the slot `Slots` records for the window at r |
| Encoder.ProbeOf | lib/lz4kd/lz4kd_encode.c:315-318 | one probe on a table value: the candidate is the old slot for `hash(r)`, earlier than r; the slot then holds r; it hits iff the 4 bytes at the candidate and at r agree |
| Encoder.Probe | lib/lz4kd/lz4kd_encode.c:315-318 | its result and the new table are those of `ProbeOf` on the old table |
| Encoder.ProbePairOf | lib/lz4kd/lz4kd_encode.c:314-319 | the probe at r, then at r + 1 after a miss: a hit has an earlier candidate with 4 equal bytes, a miss ends at r + 1, and no slot holds a position past the last probe |
| Encoder.ProbePair | lib/lz4kd/lz4kd_encode.c:314-319 | its result and the new table are those of `ProbePairOf` on the old table |
| Encoder.FindFrom | lib/lz4kd/lz4kd_encode.c:309-323 | the probe loop on a table value, with `r += ++step >> 5` after each missed pair: a hit has an earlier candidate with 4 equal bytes and 15 bytes left after r (or r <= 2); a miss leaves r past in_end - 16; no slot holds a position past r |
| Encoder.FindFromStep | lib/lz4kd/lz4kd_encode.c:320 | after a missed pair the search goes on from r + (step + 1) / 32 with step + 1, and no slot holds that position or a later one |
| Encoder.FindFromStop | lib/lz4kd/lz4kd_encode.c:320-322 | when that position is past in_end - 16 the search ends there with a miss |
| Encoder.FindMatch | lib/lz4kd/lz4kd_encode.c:309-323 | from r0 with step 32, its result and the new table are those of `FindFrom` on the old table; slots past 4096 are untouched |
| Encoder.RepeatReached | lib/lz4kd/lz4kd_encode.c:324-326 | the back-reference of a found repeat reproduces the input up to the repeat's end |
| Encoder.TokenAdvances | lib/lz4kd/lz4kd_encode.c:324-332 | appending the token of a found repeat moves what the block reaches from nr0 to the repeat's end |
| Encoder.TokenKeepsBound | lib/lz4kd/lz4kd_encode.c:327-332 | a token for a repeat keeps the output within the size bound |
| Encoder.TokenRoom | lib/lz4kd/lz4kd_encode.c:327-332 | after a token the output is within the bound and at most the block's worst case |
| Encoder.TupleRoom | lib/lz4kd/lz4kd_encode.c:331-332 | the chunked literal copy of `out_tuple` reads only input bytes, and its writes stay within the worst case |
| Encoder.TailFits | lib/lz4kd/lz4kd_encode.c:321-322 | the tail token fits the worst case and holds at least one literal |
| Encoder.TailBlock | lib/lz4kd/lz4kd_encode.c:321-322 | a block reaching the input up to nr0, then the tail token, decodes to the input |
| Encoder.WholeBlock | lib/lz4kd/lz4kd_encode.c:114 | a block that reaches the whole input decodes to it |
| Encoder.OutMatch | lib/lz4kd/lz4kd_encode.c:324-332 | `out_repeat` or `out_tuple`: the block then reaches the input up to the repeat's end and stays within the bound |
| Encoder.TailExit | lib/lz4kd/lz4kd_encode.c:320-322 | returns 0 exactly when `out_tail`'s room check for the input left fails, writing nothing then; otherwise a block of at most the worst case that decodes to the input |
| Encoder.Tail2Exit | lib/lz4kd/lz4kd_encode.c:333-335 | keeps the block when the repeat ended at the input's end; otherwise 0 exactly when `out_tail`'s room check fails, writing nothing then; a positive result is a block of at most the worst case that decodes to the input |
| Encoder.Remember | lib/lz4kd/lz4kd_encode.c:336 | the new table is the old one with the slot of `hash(p)` set to p; slots past 4096 are untouched |
| Encoder.TokenLengthIs | lib/lz4kd/lz4kd_encode.c:324-332 | the arithmetic size `TokenLength(nr, r)` is the length of the token's bytes |
| Encoder.ExitFrom | lib/lz4kd/lz4kd_encode.c:308-337 | the greedy parse of the main loop on a table value, from a round's state (nr0, r, out_at, table): where it exits, as the start of the literals left and the output position of the tail; never before the round's nr0 and out_at |
| Encoder.ExitAt | lib/lz4kd/lz4kd_encode.c:324-336 | a round after its probe loop: a miss exits where the round stands; a hit moves to the repeat's end and past its token, exits there when fewer than 16 input bytes are left, and otherwise goes on with r_end - 1 stored under its hash |
| Encoder.EncodeExit | lib/lz4kd/lz4kd_encode.c:304-307 | the exit of the main loop from nr0 = 0, r = 1, out_at = 1 and a zeroed table |
| Encoder.EncodeHit | lib/lz4kd/lz4kd_encode.c:324-336 | on a hit, the block then reaches the input up to the repeat's end within the bound; the main loop exits at (r_end, new out_at) or goes on from there with a table `ExitFrom` agrees on, as `ExitAt` says |
| Encoder.EncodeRound | lib/lz4kd/lz4kd_encode.c:309-337 | one round of the main loop: a miss writes nothing and is where the loop exits; a hit reaches the repeat's end, and the exit from the new state is the exit from the old one |
| Encoder.EncodeAny | lib/lz4kd/lz4kd_encode.c:293-338 | with a zeroed table, (tailNr, tailAt) is the exit `EncodeExit` of the greedy parse, and the result is 0 exactly when `out_tail`'s room check for the input left after that exit fails against out_end; otherwise a block that decodes to the input, at most header + tag + input + escape; the header byte is untouched |
| Encoder.Lz4kdEncode | lib/lz4kd/lz4kd_encode.c:351-386 | FAILED exactly for null buffers, in_max == 0, in_max > 4096 or out_max <= max(64, min(in_max, out_max)/64); else header 0; 0 exactly when `nr_encoded_bytes_max` exceeds out_max or, at the exit `EncodeExit` of the greedy parse, `out_tail`'s room check fails against the soft limit `OutLimit`; a positive result is at most out_max and decodes to the input |
| Encoder.OutLimit | lib/lz4kd/lz4kd_encode.c:378-379 | the soft limit is out_limit when it is set and within min(in_max, out_max), and that minimum otherwise |
| Encoder.WholeTailIncompressible | lib/lz4kd/lz4kd_encode.c:41-48 | with a soft limit of at most in_max, a tail token for the whole input never passes `out_tail`'s room check |
| Encoder.Lz4kdEncodedBytesMax | lib/lz4kd/lz4kd_encode.c:390-407 | at least `nr_encoded_bytes_max`, and equal to it while r_max stays below the r mask |
| Encoder.EncodedBytesMaxCoversREscape | lib/lz4kd/lz4kd_encode.c:401-405 | for 4 KB parameters the added term covers the r escape of a repeat of r_max bytes |
| RoundTrip.EncodeDecode | include/linux/lz4kd.h:21-24 | a positive encode result other than 8, decoded with room for the input, reproduces the input exactly |

## Left out

- `lz4kd_version` (lib/lz4kd/lz4kd_encode.c:410-414) returns a constant string. It is not modelled.
- The exported wrappers are not modelled separately. `lz4kd_out_tail`, `lz4kd_out_tuple`, `lz4kd_out_repeat` and `lz4kd_repeat_end` pass their arguments to the static functions modelled above. `lz4kd_encode_fast` is folded into `Encoder.Lz4kdEncode`.
- Declarations without a body are not modelled: `lz4kd_encode2`, `lz4kd_encode_pattern`, `lz4kd_encode_max_cr` and the delta variants. No encoder here produces pattern blocks.
- These helpers of lib/lz4kd/lz4kd_private.h are not modelled, because no codec path uses them and the first two rely on compiler intrinsics:
  - `most_significant_bit_of`, `round_up_to_power_of2`, `align_pointer_up_to_log2`;
  - `mask64`, `equal3pv`, `equal4pv`;
  - the `hash24`/`hash32` and 6-, 7- and 8-byte hash families.
- `__builtin_ctzl` is abstracted as `Encoder.FirstDiff`, the index of the first differing byte. For the xor of two little-endian words this equals `ctz >> 3`.
- `repeat_start` and `match_max` are modelled, but `encode_any` calls neither, as in the source.
- Pointers are indices. Pointer overflow is not modelled.
  - The volatile-pointer guards become plain length checks: `in >= in_end` is `in_max == 0`.
  - Pointer comparisons against `in_end - 16` or `out_end - 31` are integer comparisons.
- Integer widths:
  - sizes and positions are unbounded;
  - `u_32` is modelled where a difference can be negative (`out_tail`);
  - `round_up_to_log2` is truncated to 32 bits where the source casts it;
  - the entry points require their `unsigned` arguments below 2^32.
- The state buffer is an array of at least 4096 `uint16` slots rather than 8192 untyped bytes.
- Encoder.Lz4kdEncode: requires `in_max` to be 0 or at least 16. For 1 to 9 bytes `encode_any` hashes 8 bytes at position 1 or 2 before any bounds check, reading past the input. For 10 to 15 bytes the probes stay inside the input. When neither position matches, the source goes to `out_tail` for the whole input and returns 0, which `Encoder.WholeTailIncompressible` shows. When one of them matches, `out_tuple` copies a 16-byte chunk from the start of the input, past its end. For up to 12 bytes, `repeat_end`'s 8-byte read at r + 4 also goes past it. The model leaves the whole 10 to 15 byte range out rather than split it by whether a probe matches.
- Encoder.Lz4kdEncode: requires the input and output to be different arrays. Aliased buffers are not modelled; neither are crypto/lz4kd.c and its kernel glue.
- Encoder.EncodeAny: the soft limit `out_limit` (include/linux/lz4kd.h:89-98) reaches only `out_tail`'s check, which decides when the result is 0. The main loop never consults it, so a positive result may exceed it, and the model promises only out_max for a positive result.
- Encoder.EncodeAny: requires the output to hold the worst-case block, because the main loop writes without output checks. `lz4kd_encode` guarantees this with its up-front `nr_encoded_bytes_max` check, and `Encoder.Lz4kdEncode` discharges that requirement.
- Decoder.Lz4kdDecode: requires the input and output to be different arrays.
- RoundTrip.EncodeDecode: stated only for an encoded size other than 8. `lz4kd_decode` takes every 8-byte input as a pattern block, and a normal block of exactly 8 bytes is possible: a header, a tag, 4 literals and one repeat reaching the end of the input.
- EncodePrivate.SizeBytesCountCovers: proved only for u < 65280. `EncodePrivate.SizeBytesCountShort` shows the count is one byte short at 65280. A 4 KB block never needs more than u = 4033.
- The decoder's fast back-reference paths may write up to 31 bytes past the copy end, always within `out_end`. The contracts leave those bytes unconstrained, which matches the source.
- fs/susfs.c, include/linux/susfs.h and include/linux/rcuwait.h are not part of this model.
