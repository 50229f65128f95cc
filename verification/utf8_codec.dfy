/**
 * The `IntoChars` and `DecodeRev` primitives for `UtfCharTraits<u8>`:
 * forward decoding of the first scalar of a buffer, backward decoding of the
 * last one, and encoding a scalar into a buffer. Bit masks are written as
 * remainders (`b & 0x3f` is `b % 64`) and ORs of disjoint fields as sums.
 */
module Utf8Codec {
  import opened Wrappers
  import opened Units
  import opened Rfc3629
  import Utf8Traits

  /** `u8::leading_ones`. */
  function LeadingOnes(b: Byte): nat {
    if b < 0x80 then 0
    else if b < 0xC0 then 1
    else if b < 0xE0 then 2
    else if b < 0xF0 then 3
    else if b < 0xF8 then 4
    else if b < 0xFC then 5
    else if b < 0xFE then 6
    else if b < 0xFF then 7
    else 8
  }

  /**
   * The value `decode_buf` assembles from the first `n` bytes: the lead
   * byte's payload under the mask 0x1f, 0xf or 0x7, then six bits from each
   * continuation byte.
   */
  function Assemble(buf: seq<Byte>, n: nat): nat
    requires 1 <= n <= 4 && n <= |buf|
  {
    var b0: int := buf[0];
    if n == 1 then b0
    else
      var b1: int := buf[1];
      if n == 2 then (b0 % 32) * 64 + b1 % 64
      else
        var b2: int := buf[2];
        if n == 3 then (b0 % 16) * 4096 + (b1 % 64) * 64 + b2 % 64
        else
          var b3: int := buf[3];
          (b0 % 8) * 262144 + (b1 % 64) * 4096 + (b2 % 64) * 64 + b3 % 64
  }

  /**
   * `decode_buf`: dispatches on the lead byte's mask, reads as many bytes as
   * it announces and hands the assembled value to `char::from_u32`. It does
   * not look at the continuation bytes, which its contract allows for invalid input.
   */
  function DecodeBuf(buf: seq<Byte>): (r: Option<(Scalar, seq<Byte>)>)
    ensures |buf| == 0 ==> r == None
    ensures |buf| > 0 && (IsCont(buf[0]) || buf[0] >= 0xF8) ==> r == None
    ensures |buf| > 0 && |buf| < Utf8Traits.LeadLen(buf[0]) ==> r == None
    ensures r.Some? ==>
      var n := Utf8Traits.LeadLen(buf[0]);
      0 < n <= |buf| && r.value.1 == buf[n..]
  {
    if |buf| == 0 then None
    else
      var n := Utf8Traits.LeadLen(buf[0]);
      if n == 0 || |buf| < n then None
      else
        match FromU32(Assemble(buf, n))
        case None => None
        case Some(c) => Some((c, buf[n..]))
  }

  /** On a buffer that starts with one well-formed sequence, `decode_buf` returns its scalar and the rest. */
  lemma DecodeBufSeq(t: seq<Byte>, rest: seq<Byte>)
    requires ValidSeq(t)
    ensures DecodeBuf(t + rest) == Some((DecodeSeq(t), rest))
  {
    var buf := t + rest;
    assert buf[0] == t[0];
    assert Utf8Traits.LeadLen(t[0]) == |t|;
    assert Assemble(buf, |t|) == DecodeSeq(t);
    assert buf[|t|..] == rest;
  }

  /** Round trip: `decode_buf(encode(c) ++ rest) == Some((c, rest))` for every scalar. */
  lemma DecodeBufEncode(c: Scalar, rest: seq<Byte>)
    ensures DecodeBuf(Encode(c) + rest) == Some((c, rest))
  {
    EncodeIsValidSeq(c);
    DecodeBufSeq(Encode(c), rest);
  }

  /**
   * The scalar `decode_buf` returns is never longer to encode than the bytes
   * it read, so `slice[..encoding_len(c)]` after a successful decode stays
   * inside the slice, even on an overlong sequence.
   */
  lemma DecodeBufFits(buf: seq<Byte>)
    requires DecodeBuf(buf).Some?
    ensures EncodingLen(DecodeBuf(buf).value.0) <= |buf| - |DecodeBuf(buf).value.1|
  {
    var n := Utf8Traits.LeadLen(buf[0]);
    var v := Assemble(buf, n);
    if n == 1 {
      assert v < 0x80;
    } else if n == 2 {
      assert v < 0x800;
    } else if n == 3 {
      assert v < 0x1_0000;
    }
  }

  /** Leniency the contract of `decode_buf` allows: the overlong `C0 80` decodes to U+0000. */
  lemma DecodeBufOverlong()
    ensures !WellFormed([0xC0, 0x80])
    ensures DecodeBuf([0xC0, 0x80]) == Some((0, []))
  {
  }

  /**
   * `decode_buf_unchecked`: the same dispatch on the first byte of valid
   * text, with the three-byte lead masked by 0x1f (harmless there, as the
   * bit it keeps is zero in every three-byte lead).
   */
  function DecodeBufUnchecked(buf: seq<Byte>): (r: (Scalar, seq<Byte>))
    requires WellFormed(buf) && |buf| > 0
    ensures 0 < Width(buf[0]) <= |buf|
    ensures r.0 == DecodeSeq(buf[..Width(buf[0])]) && r.1 == buf[Width(buf[0])..]
    ensures r.0 == DecodeAll(buf)[0]
  {
    var w := Width(buf[0]);
    WellFormedHead(buf);
    AssembleUncheckedSeq(buf[..w]);
    (AssembleUnchecked(buf[..w]) as Scalar, buf[w..])
  }

  /** The arithmetic of `decode_buf_unchecked` on the one sequence `t` it reads. */
  function AssembleUnchecked(t: seq<Byte>): int
    requires 1 <= |t| <= 4
  {
    var b0: int := t[0];
    if b0 < 0x80 then b0
    else if |t| == 1 then 0
    else
      var b1: int := t[1];
      if 0xC0 <= b0 <= 0xDF then (b0 % 32) * 64 + b1 % 64
      else if |t| == 2 then 0
      else
        var b2: int := t[2];
        if 0xE0 <= b0 <= 0xEF then (b0 % 32) * 4096 + (b1 % 64) * 64 + b2 % 64
        else if |t| == 3 then 0
        else
          var b3: int := t[3];
          (b0 % 8) * 262144 + (b1 % 64) * 4096 + (b2 % 64) * 64 + b3 % 64
  }

  /** On a well-formed sequence that arithmetic yields its scalar: the wider three-byte mask keeps only a zero bit. */
  lemma AssembleUncheckedSeq(t: seq<Byte>)
    requires ValidSeq(t)
    ensures AssembleUnchecked(t) == DecodeSeq(t)
  {
    if |t| == 3 {
      var b0: int := t[0];
      assert b0 % 32 == b0 % 16;
    }
  }

  /** `decode_buf_unchecked` agrees with `decode_buf` on valid input. */
  lemma DecodeBufAgrees(buf: seq<Byte>)
    requires WellFormed(buf) && |buf| > 0
    ensures DecodeBuf(buf) == Some(DecodeBufUnchecked(buf))
  {
    var w := Width(buf[0]);
    WellFormedHead(buf);
    PrefixSuffix(buf, w);
    DecodeBufSeq(buf[..w], buf[w..]);
  }

  /** `max_encoding_len`. */
  function MaxEncodingLen(): nat {
    4
  }

  /** `encoding_len` (`char::len_utf8`): the number of bytes `encode` writes. */
  function EncodingLen(c: Scalar): (n: nat)
    ensures n == |Encode(c)|
    ensures 1 <= n <= MaxEncodingLen()
  {
    EncodedLen(c)
  }

  /**
   * `encode` (`char::encode_utf8`): writes the encoding of `c` over the front
   * of `buf` and returns the written part together with the whole buffer
   * afterwards; panics when `buf` is too short.
   */
  function EncodeInto(c: Scalar, buf: seq<Byte>): (r: Checked<(seq<Byte>, seq<Byte>)>)
    ensures r.Value? <==> EncodingLen(c) <= |buf|
    ensures r.Value? ==>
      var n := EncodingLen(c);
      && |r.value.1| == |buf|
      && r.value.0 == r.value.1[..n]
      && r.value.1[n..] == buf[n..]
  {
    var t := Encode(c);
    if |buf| < |t| then Panic else Value((t, t + buf[|t|..]))
  }

  /**
   * The contract of `encode` and `max_encoding_len`: into a buffer of at least
   * `max_encoding_len` bytes, `encode` succeeds, writes text that
   * `validate_range` accepts, and `decode_buf_unchecked` reads `c` back from it.
   */
  lemma EncodeIntoRoundTrip(c: Scalar, buf: seq<Byte>)
    requires |buf| >= MaxEncodingLen()
    ensures EncodeInto(c, buf).Value?
    ensures WellFormed(EncodeInto(c, buf).value.0)
    ensures Utf8Traits.ValidateRange(EncodeInto(c, buf).value.0).Pass?
    ensures DecodeBufUnchecked(EncodeInto(c, buf).value.0) == (c, [])
  {
    var t := Encode(c);
    EncodeIsValidSeq(c);
    EncodeWellFormed(c);
    assert (t + buf[|t|..])[..|t|] == t;
    assert t[..|t|] == t && t[|t|..] == [];
  }

  /** The three readings of the backward loop: the source's `decode_back`, its `decode_back_unchecked`, and the evidently intended one. */
  datatype BackVariant = AsWritten | UncheckedAsWritten | Intended

  /** Whether the loop accepts the non-continuation byte `b` found after `i` continuation bytes. */
  predicate LeadAccepted(v: BackVariant, i: nat, b: Byte) {
    match v
    case AsWritten => !((i == 0 && LeadingOnes(b) != 1) || LeadingOnes(b) != i + 1)
    case UncheckedAsWritten => true
    case Intended => if i == 0 then LeadingOnes(b) == 0 else LeadingOnes(b) == i + 1
  }

  /**
   * The modulus of the mask applied to that lead byte: `(0x100 >> i) - 1` in
   * the source, the payload mask of an `i + 1`-byte lead when intended.
   */
  function LeadModulus(v: BackVariant, i: nat): nat
    requires i <= 3
  {
    if v == Intended then [128, 32, 16, 8][i] else [256, 128, 64, 32][i]
  }

  /** `1 << (6 * i)` */
  function Shift(i: nat): nat
    requires i <= 3
  {
    [1, 64, 4096, 262144][i]
  }

  /** The six payload bits of a continuation byte met at step `i`, in place. */
  function ContBits(b: Byte, i: nat): int
    requires i <= 3
  {
    (b % 64) * Shift(i)
  }

  /**
   * The `for i in 0..` loop of the backward decoders over `buf[..n]`: reads
   * bytes from the end, continuation bytes adding six bits each, until a lead
   * byte, and returns the value with the length of the text before the lead.
   * `None` when the buffer runs out, after four bytes, or when the lead is
   * rejected. The unchecked source loop has no four-byte stop; on the valid
   * input it is given the stop is never reached.
   */
  function BackLoop(v: BackVariant, buf: seq<Byte>, n: nat, i: nat, val: int): Option<(int, nat)>
    requires n <= |buf| && i <= 4
    decreases 4 - i
  {
    if i == 4 || n == 0 then None
    else
      var b := buf[n - 1];
      if !IsCont(b) then LeadEnd(v, n - 1, b, i, val)
      else BackLoop(v, buf, n - 1, i + 1, val + ContBits(b, i))
  }

  /**
   * What the loop returns on meeting the non-continuation byte `b` at index
   * `m`, step `i`: the assembled value and the end of the text before `b`.
   */
  function LeadEnd(v: BackVariant, m: nat, b: Byte, i: nat, val: int): Option<(int, nat)>
    requires i <= 4
  {
    if i == 4 || !LeadAccepted(v, i, b) then None
    else Some((val + (b as int % LeadModulus(v, i)) * Shift(i), m))
  }

  /** What the loop leaves ends before `n`, at most `4 - i` bytes before it. */
  lemma {:induction false} BackLoopRest(v: BackVariant, buf: seq<Byte>, n: nat, i: nat, val: int)
    requires n <= |buf| && i <= 4
    ensures var r := BackLoop(v, buf, n, i, val);
      r.Some? ==> n - (4 - i) <= r.value.1 < n
    decreases 4 - i
  {
    if i < 4 && n > 0 && IsCont(buf[n - 1]) {
      BackLoopRest(v, buf, n - 1, i + 1, val + ContBits(buf[n - 1], i));
    }
  }

  /** Runs the backward loop over the whole of `buf` and checks the value is a scalar. */
  function BackDecode(v: BackVariant, buf: seq<Byte>): (r: Option<(Scalar, seq<Byte>)>)
    ensures |buf| == 0 ==> r == None
    ensures r.Some? ==> |buf| - 4 <= |r.value.1| < |buf| && r.value.1 == buf[..|r.value.1|]
  {
    BackLoopRest(v, buf, |buf|, 0, 0);
    match BackLoop(v, buf, |buf|, 0, 0)
    case None => None
    case Some((x, m)) =>
      match FromU32(x)
      case None => None
      case Some(c) => Some((c, buf[..m]))
  }

  /** `decode_back` as written. */
  function DecodeBackAsWritten(buf: seq<Byte>): (r: Option<(Scalar, seq<Byte>)>)
    ensures r.Some? ==> |buf| - 4 <= |r.value.1| < |buf| && r.value.1 == buf[..|r.value.1|]
  {
    BackDecode(AsWritten, buf)
  }

  /** `decode_back` as evidently intended: a final ASCII byte is accepted and the lead masks drop the length marker. */
  function DecodeBack(buf: seq<Byte>): (r: Option<(Scalar, seq<Byte>)>)
    ensures |buf| == 0 ==> r == None
    ensures r.Some? ==> |buf| - 4 <= |r.value.1| < |buf| && r.value.1 == buf[..|r.value.1|]
  {
    BackDecode(Intended, buf)
  }

  /** The value the continuation bytes of a sequence contribute, the last one lowest. */
  function ContFields(t: seq<Byte>): nat
    requires 1 <= |t| <= 4
  {
    if |t| == 1 then 0
    else
      var b1: int := t[1];
      if |t| == 2 then b1 % 64
      else
        var b2: int := t[2];
        if |t| == 3 then (b1 % 64) * 64 + b2 % 64
        else
          var b3: int := t[3];
          (b1 % 64) * 4096 + (b2 % 64) * 64 + b3 % 64
  }

  /** What the continuation bytes `s[lo + 1..n]` add when the loop meets `s[n - 1]` at step `i`. */
  function ContTail(s: seq<Byte>, lo: nat, n: nat, i: nat): int
    requires lo < n <= |s| && i + (n - lo) <= 4
    decreases n
  {
    if n == lo + 1 then 0
    else ContBits(s[n - 1], i) + ContTail(s, lo, n - 1, i + 1)
  }

  /** Every byte of `s[lo + 1..n]` is a continuation byte. */
  predicate ContsBetween(s: seq<Byte>, lo: nat, n: nat)
    requires lo < n <= |s|
  {
    forall k :: lo < k < n ==> IsCont(s[k])
  }

  /** The loop walks back over the continuation bytes `s[lo + 1..n]` and stops at `s[lo]`. */
  lemma {:induction false} BackRun(v: BackVariant, s: seq<Byte>, lo: nat, n: nat, i: nat, val: int)
    requires lo < n <= |s| && i + (n - lo) <= 4
    requires ContsBetween(s, lo, n) && !IsCont(s[lo])
    ensures BackLoop(v, s, n, i, val) == LeadEnd(v, lo, s[lo], i + (n - lo) - 1, val + ContTail(s, lo, n, i))
    decreases n
  {
    if n > lo + 1 {
      BackRun(v, s, lo, n - 1, i + 1, val + ContBits(s[n - 1], i));
    }
  }

  /** From step 0, the run over `p ++ t` adds exactly the continuation fields of `t`. */
  lemma ContTailFields(p: seq<Byte>, t: seq<Byte>)
    requires 1 <= |t| <= 4
    ensures ContTail(p + t, |p|, |p + t|, 0) == ContFields(t)
  {
    var s := p + t;
    var lo := |p|;
    var n := |s|;
    if |t| >= 2 {
      assert ContTail(s, lo, n, 0) == (t[|t| - 1] as int % 64) + ContTail(s, lo, n - 1, 1);
      if |t| == 2 {
        assert ContTail(s, lo, n - 1, 1) == 0;
      } else {
        assert ContTail(s, lo, n - 1, 1) == (t[|t| - 2] as int % 64) * 64 + ContTail(s, lo, n - 2, 2);
        if |t| == 3 {
          assert ContTail(s, lo, n - 2, 2) == 0;
        } else {
          assert ContTail(s, lo, n - 2, 2) == (t[1] as int % 64) * 4096 + ContTail(s, lo, n - 3, 3);
          assert ContTail(s, lo, n - 3, 3) == 0;
        }
      }
    }
  }

  /**
   * Every variant of the loop, run over `p` followed by one well-formed
   * sequence `t`, reads the continuation bytes of `t` and stops at its lead.
   */
  lemma BackLoopSeq(v: BackVariant, p: seq<Byte>, t: seq<Byte>)
    requires ValidSeq(t)
    ensures
      var n := |t| - 1;
      BackLoop(v, p + t, |p + t|, 0, 0) ==
        if LeadAccepted(v, n, t[0]) then Some((ContFields(t) + (t[0] % LeadModulus(v, n)) * Shift(n), |p|))
        else None
  {
    var s := p + t;
    forall k | |p| < k < |s|
      ensures IsCont(s[k])
    {
      ValidSeqTail(t, k - |p|);
    }
    BackRun(v, s, |p|, |s|, 0, 0);
    ContTailFields(p, t);
  }

  /** The intended lead masks recover the scalar of a well-formed sequence. */
  lemma IntendedFields(t: seq<Byte>)
    requires ValidSeq(t)
    ensures LeadAccepted(Intended, |t| - 1, t[0])
    ensures ContFields(t) + (t[0] % LeadModulus(Intended, |t| - 1)) * Shift(|t| - 1) == DecodeSeq(t)
  {
  }

  /** `decode_back(p ++ encode(c)) == Some((c, p))`: the last scalar and the text before it. */
  lemma DecodeBackEncode(p: seq<Byte>, c: Scalar)
    ensures DecodeBack(p + Encode(c)) == Some((c, p))
  {
    EncodeIsValidSeq(c);
    BackLoopSeq(Intended, p, Encode(c));
    IntendedFields(Encode(c));
  }

  /** The encoding of a non-empty list ends with the encoding of its last scalar. */
  lemma EncodeAllSnoc(cs: seq<Scalar>)
    requires |cs| > 0
    ensures EncodeAll(cs) == EncodeAll(cs[..|cs| - 1]) + Encode(cs[|cs| - 1])
  {
    var k := |cs| - 1;
    SnocParts(cs);
    EncodeAllConcat(cs[..k], [cs[k]]);
    EncodeAllSingle(cs[k]);
  }

  /** The encoding of a one-scalar list is the encoding of that scalar. */
  lemma EncodeAllSingle(c: Scalar)
    ensures EncodeAll([c]) == Encode(c)
  {
    var one: seq<Scalar> := [c];
    assert one[1..] == [];
    assert EncodeAll(one) == Encode(c) + EncodeAll([]);
  }

  /** Non-empty well-formed text decodes to at least one scalar. */
  lemma DecodeAllNonEmpty(buf: seq<Byte>)
    requires WellFormed(buf) && |buf| > 0
    ensures |DecodeAll(buf)| > 0
  {
  }

  /** On any non-empty well-formed text, `decode_back` returns its last scalar and the encoding of the others. */
  lemma DecodeBackLast(buf: seq<Byte>)
    requires WellFormed(buf) && |buf| > 0
    ensures |DecodeAll(buf)| > 0
    ensures
      var cs := DecodeAll(buf);
      DecodeBack(buf) == Some((cs[|cs| - 1], EncodeAll(cs[..|cs| - 1])))
  {
    DecodeAllNonEmpty(buf);
    var cs := DecodeAll(buf);
    EncodeDecodeAll(buf);
    EncodeAllSnoc(cs);
    DecodeBackEncode(EncodeAll(cs[..|cs| - 1]), cs[|cs| - 1]);
  }

  /** `decode_back_unchecked` as evidently intended: `decode_back` on text known to be valid. */
  function DecodeBackUnchecked(buf: seq<Byte>): (r: (Scalar, seq<Byte>))
    requires WellFormed(buf) && |buf| > 0
    ensures Some(r) == DecodeBack(buf)
    ensures |DecodeAll(buf)| > 0
    ensures
      var cs := DecodeAll(buf);
      r.0 == cs[|cs| - 1] && r.1 == EncodeAll(cs[..|cs| - 1])
  {
    DecodeBackLast(buf);
    DecodeBack(buf).value
  }

  /**
   * The bit the source's lead masks keep: the last bit of the length marker,
   * landing at bit 12, 17 or 22 of the result.
   */
  function Marker(c: Scalar): nat {
    if c < 0x80 then 0 else if c < 0x800 then 0x1000 else if c < 0x1_0000 then 0x2_0000 else 0x40_0000
  }

  /** What the source's masks assemble from one well-formed sequence: its scalar plus the marker bit. */
  lemma AsWrittenFields(t: seq<Byte>)
    requires ValidSeq(t)
    ensures
      var n := |t| - 1;
      ContFields(t) + (t[0] % LeadModulus(AsWritten, n)) * Shift(n) ==
        DecodeSeq(t) + [0, 0x1000, 0x2_0000, 0x40_0000][n]
  {
    IntendedFields(t);
    LeadMarker(t[0], |t| - 1);
  }

  /** The source's wider lead mask keeps the lowest bit of the length marker. */
  lemma LeadMarker(b: Byte, n: nat)
    requires n <= 3 && Width(b) == n + 1
    ensures (b % LeadModulus(AsWritten, n)) * Shift(n) ==
      (b % LeadModulus(Intended, n)) * Shift(n) + [0, 0x1000, 0x2_0000, 0x40_0000][n]
  {
  }

  /** The marker bit in terms of the scalar encoded. */
  lemma AsWrittenEncode(c: Scalar)
    ensures
      var t := Encode(c);
      ContFields(t) + (t[0] % LeadModulus(AsWritten, |t| - 1)) * Shift(|t| - 1) == c + Marker(c)
  {
    EncodeIsValidSeq(c);
    AsWrittenFields(Encode(c));
  }

  /**
   * `decode_back` as written never returns the last scalar: it rejects a
   * final ASCII byte, returns the scalar plus 0x1000 or 0x20000 after a two-
   * or three-byte sequence, and rejects a four-byte one, whose value plus
   * 0x400000 is not a scalar.
   */
  lemma DecodeBackAsWrittenWrong(p: seq<Byte>, c: Scalar)
    ensures c < 0x80 ==> DecodeBackAsWritten(p + Encode(c)) == None
    ensures 0x80 <= c < 0x1_0000 ==> DecodeBackAsWritten(p + Encode(c)) == Some((c + Marker(c), p))
    ensures 0x1_0000 <= c ==> DecodeBackAsWritten(p + Encode(c)) == None
    ensures DecodeBackAsWritten(p + Encode(c)) != Some((c, p))
  {
    EncodeIsValidSeq(c);
    BackLoopSeq(AsWritten, p, Encode(c));
    AsWrittenEncode(c);
  }

  /** "A" is rejected and "é" (`C3 A9`) comes back as U+10E9. */
  lemma DecodeBackAsWrittenCounterexamples()
    ensures DecodeBackAsWritten([0x41]) == None
    ensures DecodeBackAsWritten([0xC3, 0xA9]) == Some((0x10E9, []))
  {
    assert Encode(0x41) == [0x41];
    DecodeBackAsWrittenWrong([], 0x41);
    assert Encode(0xE9) == [0xC3, 0xA9];
    DecodeBackAsWrittenWrong([], 0xE9);
  }

  /**
   * `decode_back_unchecked` as written, on valid text: right for a final
   * ASCII byte, off by the marker bit otherwise, and for a four-byte
   * sequence a value above 0x10FFFF handed to `char::from_u32_unchecked`.
   */
  lemma DecodeBackUncheckedAsWritten(p: seq<Byte>, c: Scalar)
    ensures BackLoop(UncheckedAsWritten, p + Encode(c), |p + Encode(c)|, 0, 0) == Some((c + Marker(c), |p|))
    ensures 0x1_0000 <= c ==> !IsScalar(c + Marker(c))
  {
    EncodeIsValidSeq(c);
    BackLoopSeq(UncheckedAsWritten, p, Encode(c));
    AsWrittenEncode(c);
  }
}
