/**
 * The `IntoChars` and `DecodeRev` primitives for `UtfCharTraits<u16>`. The
 * source's versions drop the 0x10000 offset of section 2.2 of RFC 2781 and
 * get several checks backwards; each is modelled as written next to the
 * evidently intended version, which the rest of the model uses.
 */
module Utf16Codec {
  import opened Wrappers
  import opened Units
  import opened Rfc2781

  /** The units after the first two, or none when there are fewer than two. */
  function AfterTwo(buf: seq<U16>): seq<U16> {
    if |buf| >= 2 then buf[2..] else []
  }

  /**
   * The value the source assembles from a high surrogate and the unit after
   * it, `((v0 - 0xD800) as u32) << 10 | ((v1 - 0xDC00) as u32)`: no 0x10000
   * offset, and the `u16` subtraction wraps when `v1` is below 0xDC00, after
   * which the two fields may overlap.
   */
  function PairValueAsWritten(v0: U16, v1: U16): nat
    requires IsHigh(v0)
  {
    var h: int := v0;
    var l: int := v1;
    BitOr((h - 0xD800) * 1024, (l - 0xDC00) % 0x1_0000)
  }

  /** On an actual pair the fields do not overlap, and the value is the scalar less 0x10000. */
  lemma PairValueAsWrittenOffset(v0: U16, v1: U16)
    requires IsHigh(v0) && IsLow(v1)
    ensures PairValueAsWritten(v0, v1) == DecodePair(v0, v1) - 0x1_0000
  {
    var h: int := v0;
    var l: int := v1;
    assert Pow2(10) == 1024;
    BitOrDisjoint(h - 0xD800, l - 0xDC00, 10);
  }

  /**
   * `decode_buf` as written: it rejects a high surrogate followed by a low
   * one, assembles a value from a high surrogate followed by anything else,
   * and steps over two units after a single one.
   */
  function DecodeBufAsWritten(buf: seq<U16>): Option<(Scalar, seq<U16>)> {
    if |buf| == 0 then None
    else
      var v0 := buf[0];
      if IsHigh(v0) then
        if |buf| < 2 then None
        else if IsLow(buf[1]) then None
        else
          match FromU32(PairValueAsWritten(v0, buf[1]))
          case None => None
          case Some(c) => Some((c, buf[2..]))
      else
        match FromU32(v0)
        case None => None
        case Some(c) => Some((c, AfterTwo(buf)))
  }

  /**
   * As written, every surrogate pair is rejected and the unit after a single
   * one is lost: U+1F600 (`D83D DE00`) gives `None`, and "AB" gives 'A' with nothing left.
   */
  lemma DecodeBufAsWrittenWrong(c: Scalar, u: U16, rest: seq<U16>)
    ensures c >= 0x1_0000 ==> DecodeBufAsWritten(Encode(c) + rest) == None
    ensures c < 0x1_0000 ==> DecodeBufAsWritten(Encode(c) + [u] + rest) == Some((c, rest))
  {
    EncodeWellFormed(c);
    if c < 0x1_0000 {
      assert (Encode(c) + [u] + rest)[2..] == rest;
    }
  }

  /** The two inputs named above. */
  lemma DecodeBufAsWrittenCounterexamples()
    ensures DecodeBufAsWritten([0xD83D, 0xDE00]) == None
    ensures DecodeBufAsWritten([0x41, 0x42]) == Some((0x41, []))
  {
    DecodeBufAsWrittenWrong(0x1_F600, 0, []);
    assert Encode(0x1_F600) + [] == [0xD83D, 0xDE00];
    DecodeBufAsWrittenWrong(0x41, 0x42, []);
    assert Encode(0x41) + [0x42] + [] == [0x41, 0x42];
  }

  /**
   * `decode_buf` as evidently intended (section 2.2 of RFC 2781): a unit
   * outside the surrogates is its own scalar and takes one unit; a high
   * surrogate needs a low one after it and the pair takes two.
   */
  function DecodeBuf(buf: seq<U16>): (r: Option<(Scalar, seq<U16>)>)
    ensures |buf| == 0 ==> r == None
    ensures |buf| > 0 && IsLow(buf[0]) ==> r == None
    ensures |buf| > 0 && IsHigh(buf[0]) && (|buf| == 1 || !IsLow(buf[1])) ==> r == None
    ensures |buf| >= 2 && IsHigh(buf[0]) && IsLow(buf[1]) ==>
      r == Some((0x1_0000 + (buf[0] as int - 0xD800) * 1024 + (buf[1] as int - 0xDC00), buf[2..]))
    ensures |buf| > 0 && !IsHigh(buf[0]) && !IsLow(buf[0]) ==> r == Some((buf[0] as Scalar, buf[1..]))
  {
    if |buf| == 0 then None
    else
      var v0 := buf[0];
      if IsHigh(v0) then
        if |buf| < 2 || !IsLow(buf[1]) then None
        else Some((DecodePair(v0, buf[1]), buf[2..]))
      else
        match FromU32(v0)
        case None => None
        case Some(c) => Some((c, buf[1..]))
  }

  /** Round trip: `decode_buf(encode(c) ++ rest) == Some((c, rest))` for every scalar. */
  lemma DecodeBufEncode(c: Scalar, rest: seq<U16>)
    ensures DecodeBuf(Encode(c) + rest) == Some((c, rest))
  {
    EncodeWellFormed(c);
    var buf := Encode(c) + rest;
    if c >= 0x1_0000 {
      DecodePairEncode(c);
      assert buf[2..] == rest;
    } else {
      assert buf[1..] == rest;
    }
  }

  /**
   * `decode_buf_unchecked` as evidently intended: the first scalar of valid
   * text, as `decode_buf` gives it.
   */
  function DecodeBufUnchecked(buf: seq<U16>): (r: (Scalar, seq<U16>))
    requires WellFormed(buf) && |buf| > 0
    ensures Some(r) == DecodeBuf(buf)
    ensures r.0 == DecodeAll(buf)[0] && buf == Encode(r.0) + r.1
  {
    if IsHigh(buf[0]) then
      EncodeDecodePair(buf[0], buf[1]);
      assert buf == buf[..2] + buf[2..];
      (DecodePair(buf[0], buf[1]), buf[2..])
    else
      assert buf == buf[..1] + buf[1..];
      (buf[0] as Scalar, buf[1..])
  }

  /** `decode_buf_unchecked` as written, on valid text: the pair value lacks the 0x10000 offset. */
  function DecodeBufUncheckedAsWritten(buf: seq<U16>): (int, seq<U16>)
    requires WellFormed(buf) && |buf| > 0
  {
    if IsHigh(buf[0]) then (PairValueAsWritten(buf[0], buf[1]), buf[2..])
    else (buf[0] as int, buf[1..])
  }

  /**
   * It is right for a single unit and 0x10000 short for a pair; for
   * U+1D800 (`D836 DC00`) it hands the surrogate value 0xD800 to `char::from_u32_unchecked`.
   */
  lemma DecodeBufUncheckedAsWrittenOffset(buf: seq<U16>)
    requires WellFormed(buf) && |buf| > 0
    ensures IsHigh(buf[0]) ==> DecodeBufUncheckedAsWritten(buf).0 == DecodeBufUnchecked(buf).0 - 0x1_0000
    ensures !IsHigh(buf[0]) ==> DecodeBufUncheckedAsWritten(buf) == DecodeBufUnchecked(buf)
    ensures DecodeBufUncheckedAsWritten(buf).1 == DecodeBufUnchecked(buf).1
    ensures IsHigh(buf[0]) <==> DecodeBufUnchecked(buf).0 >= 0x1_0000
    ensures DecodeBufUncheckedAsWritten([0xD836, 0xDC00]).0 == 0xD800
  {
    if IsHigh(buf[0]) {
      PairValueAsWrittenOffset(buf[0], buf[1]);
    }
    PairValueAsWrittenOffset(0xD836, 0xDC00);
  }

  /**
   * As written, the valid text `D83D DE00` (U+1F600) decodes to U+F600, a
   * different scalar, with nothing left over; the unit `DE00` alone is not
   * valid text.
   */
  lemma DecodeBufUncheckedAsWrittenCounterexample()
    ensures WellFormed([0xD83D, 0xDE00]) && DecodeBufUnchecked([0xD83D, 0xDE00]).0 == 0x1F600
    ensures DecodeBufUncheckedAsWritten([0xD83D, 0xDE00]) == (0xF600, [])
    ensures IsScalar(0xF600) && !WellFormed([0xDE00]) && !WellFormed([0xD83D])
  {
    PairValueAsWrittenOffset(0xD83D, 0xDE00);
    var s: seq<U16> := [0xD83D, 0xDE00];
    assert s[2..] == [];
  }

  /** `max_encoding_len`. */
  function MaxEncodingLen(): nat {
    2
  }

  /** `encoding_len` as written: the bound is `< 0xFFFF`. */
  function EncodingLenAsWritten(c: Scalar): nat {
    if c < 0xFFFF then 1 else 2
  }

  /** `encoding_len` with the bound of section 2.1 of RFC 2781: the number of units `encode` writes. */
  function EncodingLen(c: Scalar): (n: nat)
    ensures n == |Encode(c)|
    ensures 1 <= n <= MaxEncodingLen()
  {
    if c < 0x1_0000 then 1 else 2
  }

  /** The two agree except at U+FFFF, which the source counts as two units though it encodes as one. */
  lemma EncodingLenAsWrittenWrong(c: Scalar)
    ensures EncodingLenAsWritten(c) == EncodingLen(c) <==> c != 0xFFFF
    ensures EncodingLenAsWritten(0xFFFF) == 2 && |Encode(0xFFFF)| == 1
  {
  }

  /**
   * `encode` (`char::encode_utf16`): writes the encoding of `c` over the
   * front of `buf` and returns the written part with the whole buffer
   * afterwards; panics when `buf` is too short.
   */
  function EncodeInto(c: Scalar, buf: seq<U16>): (r: Checked<(seq<U16>, seq<U16>)>)
    ensures r.Value? <==> EncodingLen(c) <= |buf|
    ensures r.Value? ==>
      var n := EncodingLen(c);
      && |r.value.1| == |buf|
      && r.value.0 == r.value.1[..n]
      && r.value.1[n..] == buf[n..]
  {
    var t := Encode(c);
    if |buf| < |t| then Panic else Value((t, t + buf[|t|..]))
  }

  /**
   * The contract of `encode` and `max_encoding_len`: into a buffer of at
   * least two units `encode` succeeds, writes well-formed text, and
   * `decode_buf_unchecked` reads `c` back from it.
   */
  lemma EncodeIntoRoundTrip(c: Scalar, buf: seq<U16>)
    requires |buf| >= MaxEncodingLen()
    ensures EncodeInto(c, buf).Value?
    ensures WellFormed(EncodeInto(c, buf).value.0)
    ensures DecodeBufUnchecked(EncodeInto(c, buf).value.0) == (c, [])
  {
    var t := Encode(c);
    EncodeWellFormed(c);
    assert (t + buf[|t|..])[..|t|] == t;
    DecodeBufEncode(c, []);
    assert t + [] == t;
  }

  /**
   * `decode_back` as written, returning the raw value it hands to
   * `char::from_u32_unchecked`: a pair lacks the 0x10000 offset and a final
   * lone high surrogate is passed through.
   */
  function DecodeBackAsWritten(buf: seq<U16>): Option<(int, seq<U16>)> {
    if |buf| == 0 then None
    else
      var v1 := buf[|buf| - 1];
      var rest := buf[..|buf| - 1];
      if IsLow(v1) then
        if |rest| == 0 then None
        else
          var v0 := rest[|rest| - 1];
          if !IsHigh(v0) then None
          else Some((PairValueAsWritten(v0, v1), rest[..|rest| - 1]))
      else Some((v1 as int, rest))
  }

  /**
   * As written, the last scalar comes back right only when it is a single
   * unit; a pair comes back 0x10000 short, and a final high surrogate
   * becomes a `char` that is not a scalar value.
   */
  lemma DecodeBackAsWrittenWrong(p: seq<U16>, c: Scalar)
    ensures c < 0x1_0000 ==> DecodeBackAsWritten(p + Encode(c)) == Some((c as int, p))
    ensures c >= 0x1_0000 ==> DecodeBackAsWritten(p + Encode(c)) == Some((c - 0x1_0000, p))
    ensures DecodeBackAsWritten([0xD800]) == Some((0xD800, [])) && !IsScalar(0xD800)
  {
    var t := Encode(c);
    var buf := p + t;
    EncodeWellFormed(c);
    if c >= 0x1_0000 {
      DecodePairEncode(c);
      assert buf[..|buf| - 1][..|buf| - 2] == p;
      PairValueAsWrittenOffset(t[0], t[1]);
    } else {
      assert buf[..|buf| - 1] == p;
    }
    var h: seq<U16> := [0xD800];
    assert h[..0] == [];
  }

  /**
   * `decode_back` as evidently intended: the last unit alone when it is not a
   * surrogate, the last two when they form a pair, `None` otherwise.
   */
  function DecodeBack(buf: seq<U16>): (r: Option<(Scalar, seq<U16>)>)
    ensures |buf| == 0 ==> r == None
    ensures r.Some? ==> |buf| - 2 <= |r.value.1| < |buf| && r.value.1 == buf[..|r.value.1|]
    ensures |buf| > 0 && IsHigh(buf[|buf| - 1]) ==> r == None
  {
    if |buf| == 0 then None
    else
      var v1 := buf[|buf| - 1];
      var rest := buf[..|buf| - 1];
      if IsLow(v1) then
        if |rest| == 0 then None
        else
          var v0 := rest[|rest| - 1];
          if !IsHigh(v0) then None
          else Some((DecodePair(v0, v1), buf[..|buf| - 2]))
      else
        match FromU32(v1)
        case None => None
        case Some(c) => Some((c, rest))
  }

  /** `decode_back(p ++ encode(c)) == Some((c, p))`: the last scalar and the text before it. */
  lemma DecodeBackEncode(p: seq<U16>, c: Scalar)
    ensures DecodeBack(p + Encode(c)) == Some((c, p))
  {
    var t := Encode(c);
    var buf := p + t;
    EncodeWellFormed(c);
    if c >= 0x1_0000 {
      DecodePairEncode(c);
      assert buf[..|buf| - 2] == p;
    } else {
      assert buf[..|buf| - 1] == p;
    }
  }

  /** The encoding of a non-empty list ends with the encoding of its last scalar. */
  lemma EncodeAllSnoc(cs: seq<Scalar>)
    requires |cs| > 0
    ensures EncodeAll(cs) == EncodeAll(cs[..|cs| - 1]) + Encode(cs[|cs| - 1])
  {
    var k := |cs| - 1;
    SnocParts(cs);
    EncodeAllConcat(cs[..k], [cs[k]]);
    var one: seq<Scalar> := [cs[k]];
    assert one[1..] == [];
    assert EncodeAll(one) == Encode(cs[k]) + EncodeAll([]);
  }

  /** Non-empty well-formed text decodes to at least one scalar. */
  lemma DecodeAllNonEmpty(buf: seq<U16>)
    requires WellFormed(buf) && |buf| > 0
    ensures |DecodeAll(buf)| > 0
  {
  }

  /** On any non-empty well-formed text, `decode_back` returns its last scalar and the encoding of the others. */
  lemma DecodeBackLast(buf: seq<U16>)
    requires WellFormed(buf) && |buf| > 0
    ensures |DecodeAll(buf)| > 0
    ensures
      var cs := DecodeAll(buf);
      DecodeBack(buf) == Some((cs[|cs| - 1], EncodeAll(cs[..|cs| - 1])))
  {
    DecodeAllNonEmpty(buf);
    var cs := DecodeAll(buf);
    EncodeDecodeAll(buf);
    EncodeAllSnoc(cs);
    DecodeBackEncode(EncodeAll(cs[..|cs| - 1]), cs[|cs| - 1]);
  }

  /**
   * `decode_back_unchecked` as written, on valid text, returning the raw
   * value it hands to `char::from_u32_unchecked`: a final low surrogate is
   * joined with the high one before it without the 0x10000 offset.
   */
  function DecodeBackUncheckedAsWritten(buf: seq<U16>): (r: (int, seq<U16>))
    requires WellFormed(buf) && |buf| > 0
    ensures Some(r) == DecodeBackAsWritten(buf)
  {
    WellFormedIsPaired(buf);
    var v1 := buf[|buf| - 1];
    var rest := buf[..|buf| - 1];
    if IsLow(v1) then
      var v0 := rest[|rest| - 1];
      (PairValueAsWritten(v0, v1), rest[..|rest| - 1])
    else (v1 as int, rest)
  }

  /**
   * As written, the last scalar of valid text comes back right when it is a
   * single unit and 0x10000 short when it is a pair; the text before it is
   * right. `D83D DE00` gives U+F600, and `D836 DC00` gives the surrogate
   * value 0xD800, which is not a scalar.
   */
  lemma DecodeBackUncheckedAsWrittenOffset(buf: seq<U16>)
    requires WellFormed(buf) && |buf| > 0
    ensures DecodeBackUncheckedAsWritten(buf).1 == DecodeBackUnchecked(buf).1
    ensures DecodeBackUnchecked(buf).0 >= 0x1_0000 ==>
      DecodeBackUncheckedAsWritten(buf).0 == DecodeBackUnchecked(buf).0 - 0x1_0000
    ensures DecodeBackUnchecked(buf).0 < 0x1_0000 ==>
      DecodeBackUncheckedAsWritten(buf).0 == DecodeBackUnchecked(buf).0
    ensures DecodeBackUncheckedAsWritten([0xD83D, 0xDE00]).0 == 0xF600
    ensures DecodeBackUncheckedAsWritten([0xD836, 0xDC00]).0 == 0xD800 && !IsScalar(0xD800)
  {
    var (c, rest) := DecodeBackUnchecked(buf);
    var cs := DecodeAll(buf);
    EncodeDecodeAll(buf);
    EncodeAllSnoc(cs);
    assert buf == rest + Encode(c);
    DecodeBackAsWrittenWrong(rest, c);
    PairValueAsWrittenOffset(0xD83D, 0xDE00);
    PairValueAsWrittenOffset(0xD836, 0xDC00);
  }

  /** `decode_back_unchecked` as evidently intended: `decode_back` on text known to be valid. */
  function DecodeBackUnchecked(buf: seq<U16>): (r: (Scalar, seq<U16>))
    requires WellFormed(buf) && |buf| > 0
    ensures Some(r) == DecodeBack(buf)
    ensures |DecodeAll(buf)| > 0
    ensures
      var cs := DecodeAll(buf);
      r.0 == cs[|cs| - 1] && r.1 == EncodeAll(cs[..|cs| - 1])
  {
    DecodeBackLast(buf);
    DecodeBack(buf).value
  }
}
