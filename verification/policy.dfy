/**
 * The encoding policy (`CharTraits`, with `IntoChars` and `DecodeRev`) as a
 * closed choice among the four implementations, each dispatching to its
 * own module. Elements are integers here; `UnitsOk` says they are values of
 * the encoding's element type. The rest of the model is written against
 * this interface.
 */
module Policy {
  import opened Wrappers
  import opened Units
  import opened UtfErrors
  import opened Lex
  import CharInt
  import Rfc3629
  import Rfc2781
  import Utf8Traits
  import Utf16Traits
  import ConstUtf8
  import ConstUtf16
  import Utf8Codec
  import Utf16Codec
  import Utf32Codec

  /** `UtfCharTraits<u8>`, `UtfCharTraits<u16>`, `UtfCharTraits<char>` and `RawCharTraits`. */
  datatype Encoding = Utf8 | Utf16 | Utf32 | Raw

  /** The encodings that implement `IntoChars` and `DecodeRev`. */
  predicate HasChars(e: Encoding) {
    e != Raw
  }

  /** The element type: `u8`, `u16`, `char`, `u8`. */
  function CharTypeOf(e: Encoding): CharInt.CharType {
    match e
    case Utf8 => CharInt.U8
    case Utf16 => CharInt.U16
    case Utf32 => CharInt.CharScalar
    case Raw => CharInt.U8
  }

  /** `x` is a value of the encoding's element type. */
  predicate UnitOk(e: Encoding, x: int) {
    match e
    case Utf8 => 0 <= x < 0x100
    case Raw => 0 <= x < 0x100
    case Utf16 => 0 <= x < 0x1_0000
    case Utf32 => IsScalar(x)
  }

  predicate UnitsOk(e: Encoding, s: seq<int>) {
    forall i :: 0 <= i < |s| ==> UnitOk(e, s[i])
  }

  /** Valid text: well-formed UTF-8 or UTF-16; any sequence of elements for `char` and raw bytes. */
  predicate Valid(e: Encoding, s: seq<int>) {
    && UnitsOk(e, s)
    && match e
       case Utf8 => Rfc3629.WellFormed(s)
       case Utf16 => Rfc2781.WellFormed(s)
       case Utf32 => true
       case Raw => true
  }

  /** Slices and concatenations of element sequences keep their element type. */
  lemma UnitsOkSlice(e: Encoding, s: seq<int>, lo: nat, hi: nat)
    requires UnitsOk(e, s) && lo <= hi <= |s|
    ensures UnitsOk(e, s[lo..hi]) && UnitsOk(e, s[..hi]) && UnitsOk(e, s[lo..])
  {
    assert forall i :: 0 <= i < hi - lo ==> s[lo..hi][i] == s[lo + i];
    assert forall i :: 0 <= i < |s| - lo ==> s[lo..][i] == s[lo + i];
  }

  lemma UnitsOkConcat(e: Encoding, a: seq<int>, b: seq<int>)
    requires UnitsOk(e, a) && UnitsOk(e, b)
    ensures UnitsOk(e, a + b)
  {
    assert forall i :: |a| <= i < |a| + |b| ==> (a + b)[i] == b[i - |a|];
  }

  /**
   * `validate_range`: `str::from_utf8` with its error converted for UTF-8,
   * the surrogate-pairing loop for UTF-16, always `Ok` for `char` and raw bytes.
   */
  function ValidateRange(e: Encoding, s: seq<int>): (r: Outcome<UtfError>)
    requires UnitsOk(e, s)
    ensures r.Pass? <==> Valid(e, s)
    ensures e == Utf32 || e == Raw ==> r == Pass
    ensures r.Fail? ==> r.error.pos < |s| && Valid(e, s[..r.error.pos])
  {
    match e
    case Utf8 => Utf8Traits.ValidateRange(s)
    case Utf16 => Utf16Traits.ValidateRange(s)
    case Utf32 => Pass
    case Raw => Pass
  }

  /**
   * `validate_range` of the const-feature policies (with the validators'
   * evident intent): it accepts exactly what the default one accepts.
   */
  method ValidateRangeConst(e: Encoding, s: seq<int>) returns (r: Outcome<UtfError>)
    requires UnitsOk(e, s)
    ensures r.Pass? <==> ValidateRange(e, s).Pass?
    ensures r.Fail? ==> e == Utf8 || e == Utf16
    ensures r.Fail? ==> r.error.pos <= |s| && forall q :: r.error.pos < q <= |s| ==> !Valid(e, s[..q])
    ensures e == Utf8 ==> forall t :: 0 <= t < |s| && Valid(e, s[..t]) && Rfc3629.IsCont(s[t]) ==>
      r == Fail(UtfError(t, Some(1)))
    ensures e == Utf8 ==> forall t :: 0 <= t && t + 1 < |s| && Valid(e, s[..t]) && Rfc3629.Width(s[t]) == 2 && !Rfc3629.IsCont(s[t + 1]) ==>
      r == Fail(UtfError(t + 1, Some(1)))
  {
    match e
    case Utf8 =>
      r := ConstUtf8.ValidateRange(s);
    case Utf16 =>
      r := ConstUtf16.ValidateRange(s);
    case Utf32 =>
      r := Pass;
    case Raw =>
      r := Pass;
  }

  /**
   * `validate_subrange`: the boundary-only check (corrected for UTF-8) for
   * the Unicode encodings, always `Ok` for `char` and raw bytes. The
   * const-feature versions are the same checks.
   */
  function ValidateSubrange(e: Encoding, s: seq<int>): (r: Outcome<UtfError>)
    requires UnitsOk(e, s)
    ensures e == Utf32 || e == Raw ==> r == Pass
    ensures |s| == 0 ==> r == Pass
  {
    match e
    case Utf8 => Utf8Traits.ValidateSubrange(s)
    case Utf16 => Utf16Traits.ValidateSubrange(s)
    case Utf32 => Pass
    case Raw => Pass
  }

  /**
   * `validate_subrange` as written: the UTF-8 backward walk that accepts a
   * lone lead byte and rejects a final four-byte sequence; the other
   * policies' checks are the ones `ValidateSubrange` uses.
   */
  function ValidateSubrangeAsWritten(e: Encoding, s: seq<int>): (r: Outcome<UtfError>)
    requires UnitsOk(e, s)
    ensures e != Utf8 ==> r == ValidateSubrange(e, s)
    ensures |s| == 0 ==> r == Pass
  {
    match e
    case Utf8 => Utf8Traits.ValidateSubrangeAsWritten(s)
    case Utf16 => Utf16Traits.ValidateSubrange(s)
    case Utf32 => Pass
    case Raw => Pass
  }

  /** The contract of `validate_subrange`: it succeeds wherever `validate_range` does. */
  lemma SubrangeAcceptsValid(e: Encoding, s: seq<int>)
    requires UnitsOk(e, s) && ValidateRange(e, s).Pass?
    ensures ValidateSubrange(e, s).Pass?
  {
    match e
    case Utf8 => Utf8Traits.SubrangeAcceptsValid(s);
    case Utf16 => Utf16Traits.SubrangeAcceptsValid(s);
    case Utf32 =>
    case Raw =>
  }

  /** On any slice of valid text, `validate_subrange` accepts exactly the valid slices. */
  lemma SubrangeCorrect(e: Encoding, b: seq<int>, lo: nat, hi: nat)
    requires Valid(e, b) && lo <= hi <= |b|
    ensures UnitsOk(e, b[lo..hi])
    ensures ValidateSubrange(e, b[lo..hi]).Pass? <==> Valid(e, b[lo..hi])
  {
    UnitsOkSlice(e, b, lo, hi);
    match e
    case Utf8 => Utf8Traits.SubrangeCorrect(b, lo, hi);
    case Utf16 => Utf16Traits.SubrangeCorrect(b, lo, hi);
    case Utf32 =>
    case Raw =>
  }

  /** Valid text is closed under concatenation. */
  lemma ValidConcat(e: Encoding, a: seq<int>, b: seq<int>)
    requires Valid(e, a) && Valid(e, b)
    ensures Valid(e, a + b)
  {
    UnitsOkConcat(e, a, b);
    match e
    case Utf8 => Rfc3629.WellFormedConcat(a, b);
    case Utf16 => Rfc2781.WellFormedConcat(a, b);
    case Utf32 =>
    case Raw =>
  }

  /**
   * A non-empty valid window of valid text starts and ends on scalar
   * boundaries, so the text before it and the text after it are valid too.
   */
  lemma ValidWindow(e: Encoding, s: seq<int>, lo: nat, hi: nat)
    requires Valid(e, s) && lo < hi <= |s| && Valid(e, s[lo..hi])
    ensures Valid(e, s[..lo]) && Valid(e, s[hi..])
  {
    UnitsOkSlice(e, s, 0, lo);
    UnitsOkSlice(e, s, hi, |s|);
    match e
    case Utf8 =>
      Rfc3629.SliceEndsAtBoundaries(s, lo, hi);
      Rfc3629.WellFormedSplit(s, lo);
      Rfc3629.WellFormedSplit(s, hi);
    case Utf16 =>
      assert s[0..|s|] == s;
      Rfc2781.SliceWellFormed(s, 0, |s|);
      Rfc2781.SliceWellFormed(s, lo, hi);
      Rfc2781.SliceWellFormed(s, 0, lo);
      Rfc2781.SliceWellFormed(s, hi, |s|);
      assert s[0..lo] == s[..lo];
      assert s[hi..|s|] == s[hi..];
    case Utf32 =>
    case Raw =>
  }

  /** `compare`: `Ok(r1.cmp(r2))`, slice lexicographic order, for every policy. */
  function Compare(e: Encoding, a: seq<int>, b: seq<int>): (r: Ordering)
    ensures r == Equal <==> a == b
    ensures r == LexCmp(b, a).Reverse()
  {
    LexCmpEqualIff(a, b);
    LexCmpAntisymmetric(a, b);
    LexCmp(a, b)
  }

  /** `zero_term`: 0 (`'\0'` for `char`). */
  function ZeroTerm(e: Encoding): int {
    0
  }

  /** `is_zero_term`. */
  predicate IsZeroTerm(e: Encoding, c: int) {
    c == 0
  }

  /** `eof`. */
  function Eof(e: Encoding): int {
    -1
  }

  /**
   * The terminator is an element value and the one `is_zero_term` accepts;
   * the end-of-file sentinel is the `into_int` of no element.
   */
  lemma Sentinels(e: Encoding, c: int)
    requires UnitOk(e, c)
    ensures UnitOk(e, ZeroTerm(e)) && IsZeroTerm(e, ZeroTerm(e))
    ensures IsZeroTerm(e, c) <==> c == ZeroTerm(e)
    ensures CharInt.IntoInt(CharTypeOf(e), c) != Eof(e)
  {
  }

  /** `max_encoding_len`: 4, 2 and 1. */
  function MaxEncodingLen(e: Encoding): nat
    requires HasChars(e)
  {
    match e
    case Utf8 => Utf8Codec.MaxEncodingLen()
    case Utf16 => Utf16Codec.MaxEncodingLen()
    case Utf32 => Utf32Codec.MaxEncodingLen()
  }

  /** The units `encode` writes for a scalar: `char::encode_utf8`, `char::encode_utf16`, or the scalar itself. */
  function EncodeChar(e: Encoding, c: Scalar): (r: seq<int>)
    requires HasChars(e)
    ensures Valid(e, r)
    ensures 1 <= |r| <= MaxEncodingLen(e)
  {
    match e
    case Utf8 =>
      Rfc3629.EncodeWellFormed(c);
      Rfc3629.Encode(c)
    case Utf16 =>
      Rfc2781.EncodeWellFormed(c);
      Rfc2781.Encode(c)
    case Utf32 => [c]
  }

  /** `encoding_len` (with the UTF-16 bound corrected). */
  function EncodingLen(e: Encoding, c: Scalar): (n: nat)
    requires HasChars(e)
    ensures n == |EncodeChar(e, c)|
  {
    match e
    case Utf8 => Utf8Codec.EncodingLen(c)
    case Utf16 => Utf16Codec.EncodingLen(c)
    case Utf32 => Utf32Codec.EncodingLen(c)
  }

  /** `encoding_len` as written: for UTF-16 the bound is `< 0xFFFF`, so U+FFFF is counted as two units. */
  function EncodingLenAsWritten(e: Encoding, c: Scalar): (n: nat)
    requires HasChars(e)
    ensures n == EncodingLen(e, c) <==> e != Utf16 || c != 0xFFFF
  {
    Utf16Codec.EncodingLenAsWrittenWrong(c);
    match e
    case Utf8 => Utf8Codec.EncodingLen(c)
    case Utf16 => Utf16Codec.EncodingLenAsWritten(c)
    case Utf32 => Utf32Codec.EncodingLen(c)
  }

  /**
   * `encode`: writes the units of `c` over the front of `buf` and returns
   * them with the whole buffer afterwards; panics when `buf` is too short.
   */
  function EncodeInto(e: Encoding, c: Scalar, buf: seq<int>): (r: Checked<(seq<int>, seq<int>)>)
    requires HasChars(e) && UnitsOk(e, buf)
    ensures r.Value? <==> EncodingLen(e, c) <= |buf|
    ensures r.Value? ==>
      r.value.0 == EncodeChar(e, c) && r.value.1 == EncodeChar(e, c) + buf[EncodingLen(e, c)..]
  {
    match e
    case Utf8 =>
      (match Utf8Codec.EncodeInto(c, buf)
       case Panic => Panic
       case Value((w, b)) => Value((w, b)))
    case Utf16 =>
      (match Utf16Codec.EncodeInto(c, buf)
       case Panic => Panic
       case Value((w, b)) => Value((w, b)))
    case Utf32 =>
      (match Utf32Codec.EncodeInto(c, buf)
       case Panic => Panic
       case Value((w, b)) =>
         assert b == [c] + buf[1..];
         Value((w, b)))
  }

  /** `decode_buf` (corrected for UTF-16): the first scalar and the rest of the buffer. */
  function DecodeBuf(e: Encoding, s: seq<int>): (r: Option<(Scalar, seq<int>)>)
    requires HasChars(e) && UnitsOk(e, s)
    ensures |s| == 0 ==> r == None
    ensures r.Some? ==> |r.value.1| < |s| && r.value.1 == s[|s| - |r.value.1|..]
  {
    match e
    case Utf8 =>
      (match Utf8Codec.DecodeBuf(s)
       case None => None
       case Some((c, rest)) => Some((c, rest)))
    case Utf16 =>
      (match Utf16Codec.DecodeBuf(s)
       case None => None
       case Some((c, rest)) => Some((c, rest)))
    case Utf32 =>
      (match Utf32Codec.DecodeBuf(s)
       case None => None
       case Some((c, rest)) => Some((c, rest)))
  }

  /** `decode_back` (corrected for UTF-8 and UTF-16): the last scalar and the text before it. */
  function DecodeBack(e: Encoding, s: seq<int>): (r: Option<(Scalar, seq<int>)>)
    requires HasChars(e) && UnitsOk(e, s)
    ensures |s| == 0 ==> r == None
    ensures r.Some? ==> |r.value.1| < |s| && r.value.1 == s[..|r.value.1|]
  {
    match e
    case Utf8 =>
      (match Utf8Codec.DecodeBack(s)
       case None => None
       case Some((c, rest)) => Some((c, rest)))
    case Utf16 =>
      (match Utf16Codec.DecodeBack(s)
       case None => None
       case Some((c, rest)) => Some((c, rest)))
    case Utf32 =>
      (match Utf32Codec.DecodeBack(s)
       case None => None
       case Some((c, rest)) => Some((c, rest)))
  }

  /** `slice[..encoding_len(c)]` after a successful `decode_buf` stays within what it read. */
  lemma DecodeBufFits(e: Encoding, s: seq<int>)
    requires HasChars(e) && UnitsOk(e, s) && DecodeBuf(e, s).Some?
    ensures EncodingLen(e, DecodeBuf(e, s).value.0) <= |s| - |DecodeBuf(e, s).value.1|
  {
    match e
    case Utf8 => Utf8Codec.DecodeBufFits(s);
    case Utf16 =>
    case Utf32 =>
  }

  /** Forward round trip: `decode_buf(encode(c) ++ rest) == Some((c, rest))`. */
  lemma DecodeBufEncode(e: Encoding, c: Scalar, rest: seq<int>)
    requires HasChars(e) && UnitsOk(e, rest)
    ensures UnitsOk(e, EncodeChar(e, c) + rest)
    ensures DecodeBuf(e, EncodeChar(e, c) + rest) == Some((c, rest))
  {
    UnitsOkConcat(e, EncodeChar(e, c), rest);
    match e
    case Utf8 => Utf8Codec.DecodeBufEncode(c, rest);
    case Utf16 => Utf16Codec.DecodeBufEncode(c, rest);
    case Utf32 => Utf32Codec.EncodeRoundTrip(c, [c], rest);
  }

  /** Backward round trip: `decode_back(p ++ encode(c)) == Some((c, p))`. */
  lemma DecodeBackEncode(e: Encoding, p: seq<int>, c: Scalar)
    requires HasChars(e) && UnitsOk(e, p)
    ensures UnitsOk(e, p + EncodeChar(e, c))
    ensures DecodeBack(e, p + EncodeChar(e, c)) == Some((c, p))
  {
    UnitsOkConcat(e, p, EncodeChar(e, c));
    match e
    case Utf8 => Utf8Codec.DecodeBackEncode(p, c);
    case Utf16 => Utf16Codec.DecodeBackEncode(p, c);
    case Utf32 => Utf32Codec.DecodeBackEncode(p, c);
  }

  /** The encodings of a list of scalars, one after another. */
  function EncodeAll(e: Encoding, cs: seq<Scalar>): (r: seq<int>)
    requires HasChars(e)
    ensures Valid(e, r)
    decreases |cs|
  {
    if |cs| == 0 then []
    else
      var r := EncodeChar(e, cs[0]) + EncodeAll(e, cs[1..]);
      ValidConcat(e, EncodeChar(e, cs[0]), EncodeAll(e, cs[1..]));
      r
  }

  lemma {:induction false} EncodeAllConcat(e: Encoding, a: seq<Scalar>, b: seq<Scalar>)
    requires HasChars(e)
    ensures EncodeAll(e, a + b) == EncodeAll(e, a) + EncodeAll(e, b)
    decreases |a|
  {
    ConsConcat(a, b);
    if |a| > 0 {
      EncodeAllConcat(e, a[1..], b);
      ConcatAssoc(EncodeChar(e, a[0]), EncodeAll(e, a[1..]), EncodeAll(e, b));
    }
  }

  /** The encoding of a non-empty list ends with the encoding of its last scalar. */
  lemma EncodeAllSnoc(e: Encoding, cs: seq<Scalar>)
    requires HasChars(e) && |cs| > 0
    ensures EncodeAll(e, cs) == EncodeAll(e, cs[..|cs| - 1]) + EncodeChar(e, cs[|cs| - 1])
  {
    var k := |cs| - 1;
    SnocParts(cs);
    EncodeAllConcat(e, cs[..k], [cs[k]]);
    EncodeAllSingle(e, cs[k]);
  }

  /** The encoding of a one-scalar list is the encoding of that scalar. */
  lemma EncodeAllSingle(e: Encoding, c: Scalar)
    requires HasChars(e)
    ensures EncodeAll(e, [c]) == EncodeChar(e, c)
  {
    var one: seq<Scalar> := [c];
    assert one[1..] == [];
    assert EncodeAll(e, one) == EncodeChar(e, c) + EncodeAll(e, []);
  }

  /** The scalars of valid text, in order. */
  function Scalars(e: Encoding, s: seq<int>): (cs: seq<Scalar>)
    requires HasChars(e) && Valid(e, s)
    ensures EncodeAll(e, cs) == s
  {
    match e
    case Utf8 =>
      Rfc3629.EncodeDecodeAll(s);
      EncodeAllAgrees8(Rfc3629.DecodeAll(s));
      Rfc3629.DecodeAll(s)
    case Utf16 =>
      Rfc2781.EncodeDecodeAll(s);
      EncodeAllAgrees16(Rfc2781.DecodeAll(s));
      Rfc2781.DecodeAll(s)
    case Utf32 =>
      var cs: seq<Scalar> := s;
      EncodeAllAgrees32(cs);
      cs
  }

  /** Every list of scalars is the decoding of its encoding. */
  lemma ScalarsEncodeAll(e: Encoding, cs: seq<Scalar>)
    requires HasChars(e)
    ensures Scalars(e, EncodeAll(e, cs)) == cs
  {
    match e
    case Utf8 =>
      EncodeAllAgrees8(cs);
      Rfc3629.DecodeEncodeAll(cs);
    case Utf16 =>
      EncodeAllAgrees16(cs);
      Rfc2781.DecodeEncodeAll(cs);
    case Utf32 =>
      EncodeAllAgrees32(cs);
  }

  lemma {:induction false} EncodeAllAgrees8(cs: seq<Scalar>)
    ensures EncodeAll(Utf8, cs) == Rfc3629.EncodeAll(cs)
    decreases |cs|
  {
    if |cs| > 0 {
      EncodeAllAgrees8(cs[1..]);
    }
  }

  lemma {:induction false} EncodeAllAgrees16(cs: seq<Scalar>)
    ensures EncodeAll(Utf16, cs) == Rfc2781.EncodeAll(cs)
    decreases |cs|
  {
    if |cs| > 0 {
      EncodeAllAgrees16(cs[1..]);
    }
  }

  lemma {:induction false} EncodeAllAgrees32(cs: seq<Scalar>)
    ensures EncodeAll(Utf32, cs) == cs
    decreases |cs|
  {
    if |cs| > 0 {
      EncodeAllAgrees32(cs[1..]);
      assert cs == [cs[0]] + cs[1..];
    }
  }

  /** On non-empty valid text, `decode_buf` returns the first scalar and the encoding of the others. */
  lemma DecodeBufValid(e: Encoding, s: seq<int>)
    requires HasChars(e) && Valid(e, s) && |s| > 0
    ensures |Scalars(e, s)| > 0
    ensures
      var cs := Scalars(e, s);
      DecodeBuf(e, s) == Some((cs[0], EncodeAll(e, cs[1..])))
  {
    var cs := Scalars(e, s);
    assert |cs| > 0;
    DecodeBufEncode(e, cs[0], EncodeAll(e, cs[1..]));
  }

  /** On non-empty valid text, `decode_back` returns the last scalar and the encoding of the others. */
  lemma DecodeBackValid(e: Encoding, s: seq<int>)
    requires HasChars(e) && Valid(e, s) && |s| > 0
    ensures |Scalars(e, s)| > 0
    ensures
      var cs := Scalars(e, s);
      DecodeBack(e, s) == Some((cs[|cs| - 1], EncodeAll(e, cs[..|cs| - 1])))
  {
    var cs := Scalars(e, s);
    assert |cs| > 0;
    EncodeAllSnoc(e, cs);
    DecodeBackEncode(e, EncodeAll(e, cs[..|cs| - 1]), cs[|cs| - 1]);
  }

  /**
   * `decode_buf_unchecked` (corrected for UTF-16): on non-empty valid text it
   * agrees with `decode_buf`, and what is left is valid text again.
   */
  function DecodeBufUnchecked(e: Encoding, s: seq<int>): (r: (Scalar, seq<int>))
    requires HasChars(e) && Valid(e, s) && |s| > 0
    ensures Some(r) == DecodeBuf(e, s)
    ensures Valid(e, r.1) && s == EncodeChar(e, r.0) + r.1
  {
    DecodeBufValid(e, s);
    match e
    case Utf8 =>
      Utf8Codec.DecodeBufAgrees(s);
      var r := Utf8Codec.DecodeBufUnchecked(s);
      (r.0, r.1)
    case Utf16 =>
      var r := Utf16Codec.DecodeBufUnchecked(s);
      (r.0, r.1)
    case Utf32 =>
      var r := Utf32Codec.DecodeBufUnchecked(s);
      (r.0, r.1)
  }

  /**
   * `decode_back_unchecked` (corrected for UTF-8 and UTF-16): on non-empty
   * valid text it agrees with `decode_back`, and what is left is valid text again.
   */
  function DecodeBackUnchecked(e: Encoding, s: seq<int>): (r: (Scalar, seq<int>))
    requires HasChars(e) && Valid(e, s) && |s| > 0
    ensures Some(r) == DecodeBack(e, s)
    ensures Valid(e, r.1) && s == r.1 + EncodeChar(e, r.0)
  {
    DecodeBackValid(e, s);
    EncodeAllSnoc(e, Scalars(e, s));
    match e
    case Utf8 =>
      var r := Utf8Codec.DecodeBackUnchecked(s);
      (r.0, r.1)
    case Utf16 =>
      var r := Utf16Codec.DecodeBackUnchecked(s);
      (r.0, r.1)
    case Utf32 =>
      var r := Utf32Codec.DecodeBackUnchecked(s);
      (r.0, r.1)
  }
}
