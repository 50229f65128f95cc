/**
 * The `IntoChars` and `DecodeRev` primitives for `UtfCharTraits<char>`:
 * every element is one scalar, so decoding takes one element and encoding
 * writes one.
 */
module Utf32Codec {
  import opened Wrappers
  import opened Units

  /** `decode_buf`: the first element and the rest, `None` on an empty buffer. */
  function DecodeBuf(buf: seq<Scalar>): (r: Option<(Scalar, seq<Scalar>)>)
    ensures r.None? <==> |buf| == 0
    ensures r.Some? ==> buf == [r.value.0] + r.value.1
  {
    if |buf| == 0 then None else Some((buf[0], buf[1..]))
  }

  /** `decode_buf_unchecked`: the same on a buffer known to be non-empty. */
  function DecodeBufUnchecked(buf: seq<Scalar>): (r: (Scalar, seq<Scalar>))
    requires |buf| > 0
    ensures Some(r) == DecodeBuf(buf)
  {
    (buf[0], buf[1..])
  }

  /** `max_encoding_len`. */
  function MaxEncodingLen(): nat {
    1
  }

  /** `encoding_len`: always one element. */
  function EncodingLen(c: Scalar): (n: nat)
    ensures n == MaxEncodingLen()
  {
    1
  }

  /**
   * `encode`: stores `c` at index 0 and returns the length-1 slice with the
   * whole buffer afterwards; indexing an empty buffer panics.
   */
  function EncodeInto(c: Scalar, buf: seq<Scalar>): (r: Checked<(seq<Scalar>, seq<Scalar>)>)
    ensures r.Value? <==> |buf| > 0
    ensures r.Value? ==> r.value.0 == [c] && r.value.1 == buf[0 := c]
  {
    if |buf| == 0 then Panic else Value(([c], buf[0 := c]))
  }

  /** Round trip: what `encode` writes, `decode_buf_unchecked` reads back, and `decode_buf` undoes prepending. */
  lemma EncodeRoundTrip(c: Scalar, buf: seq<Scalar>, rest: seq<Scalar>)
    requires |buf| >= MaxEncodingLen()
    ensures EncodeInto(c, buf).Value?
    ensures DecodeBufUnchecked(EncodeInto(c, buf).value.0) == (c, [])
    ensures DecodeBuf([c] + rest) == Some((c, rest))
  {
    assert ([c] + rest)[1..] == rest;
  }

  /** `decode_back` (`split_last`): the last element and the rest. */
  function DecodeBack(buf: seq<Scalar>): (r: Option<(Scalar, seq<Scalar>)>)
    ensures r.None? <==> |buf| == 0
    ensures r.Some? ==> buf == r.value.1 + [r.value.0]
  {
    if |buf| == 0 then None else Some((buf[|buf| - 1], buf[..|buf| - 1]))
  }

  /** `decode_back_unchecked`: `decode_back` on a buffer known to be non-empty. */
  function DecodeBackUnchecked(buf: seq<Scalar>): (r: (Scalar, seq<Scalar>))
    requires |buf| > 0
    ensures Some(r) == DecodeBack(buf)
  {
    DecodeBack(buf).value
  }

  /** `decode_back(p ++ [c]) == Some((c, p))`. */
  lemma DecodeBackEncode(p: seq<Scalar>, c: Scalar)
    ensures DecodeBack(p + [c]) == Some((c, p))
  {
    assert (p + [c])[..|p|] == p;
  }
}
