/**
 * The promise of include/linux/lz4kd.h: what `lz4kd_encode` returns,
 * given to `lz4kd_decode` with room for the input, decodes to the input.
 * A block of exactly 8 bytes is excluded: `lz4kd_decode` takes every
 * 8-byte input as a pattern block.
 */
module RoundTrip {
  import opened Primitives
  import opened Format
  import opened Encoder
  import opened Decoder

  /** Encode the first inMax bytes of input into enc, then decode those bytes into dec. */
  method EncodeDecode(state: array<uint16>, input: array<uint8>, enc: array<uint8>, dec: array<uint8>,
                      inMax: nat, encMax: nat, decMax: nat) returns (n: int, m: int)
    requires state.Length >= OFF_SPAN && inMax <= input.Length && encMax <= enc.Length && decMax <= dec.Length
    requires inMax < U32 && encMax < U32
    requires input != enc && input != dec && enc != dec
    requires inMax == 0 || inMax >= NR_COPY_MIN
    requires inMax <= decMax
    modifies state, enc, dec
    ensures n > 0 && n != PATTERN_BYTES_MAX ==> m == inMax && dec[..m] == input[..inMax]
  {
    ghost var tailNr: nat, tailAt: nat;
    n, tailNr, tailAt := Lz4kdEncode(state, input, enc, inMax, encMax, 0);
    if n <= 0 {
      return n, n;
    }
    m := Lz4kdDecode(enc, dec, n, decMax);
  }
}
