/**
 * `BasicString`: an owned, growable buffer of units that is valid text for
 * its policy. It derefs to `BasicStr`; `push` appends the encoding of one
 * scalar by growing the buffer with terminators and encoding over them, and
 * `push_str` appends the units of a string slice.
 */
module Strings {
  import opened Wrappers
  import opened Units
  import opened UtfErrors
  import opened Lex
  import opened Policy
  import Rfc2781
  import BasicStrs

  /** An owned string: its policy and its buffer. */
  datatype BasicString = BasicString(e: Encoding, inner: seq<int>)

  /** The invariant of every `BasicString`: its buffer is valid text. */
  predicate Inv(s: BasicString) {
    Valid(s.e, s.inner)
  }

  /** `new`: the empty string. */
  function New(e: Encoding): (r: BasicString)
    ensures r.e == e && |r.inner| == 0 && Inv(r)
  {
    BasicString(e, [])
  }

  /** `with_capacity`: the empty string; the reserved capacity is not modelled. */
  function WithCapacity(e: Encoding, cap: nat): (r: BasicString)
    ensures r == New(e) && Inv(r)
  {
    BasicString(e, [])
  }

  /** `from_chars_unchecked`: wraps a buffer the caller promises is valid. */
  function FromCharsUnchecked(e: Encoding, chars: seq<int>): (r: BasicString)
    requires Valid(e, chars)
    ensures r.e == e && Inv(r)
  {
    BasicString(e, chars)
  }

  /** `into_chars`: the buffer. */
  function IntoChars(s: BasicString): (r: seq<int>)
    requires Inv(s)
    ensures Valid(s.e, r)
  {
    s.inner
  }

  /** Wrapping a buffer and taking it back out gives the same buffer, and the other way round. */
  lemma IntoCharsRoundTrip(e: Encoding, chars: seq<int>, s: BasicString)
    requires Valid(e, chars) && Inv(s)
    ensures IntoChars(FromCharsUnchecked(e, chars)) == chars
    ensures FromCharsUnchecked(s.e, IntoChars(s)) == s
  {
  }

  /** `FromCharsError`: the validator's error and the buffer that failed, handed back whole. */
  datatype FromCharsError = FromCharsError(err: UtfError, chars: seq<int>)

  /** `FromCharsError::into_bytes` */
  function IntoBytes(x: FromCharsError): seq<int> {
    x.chars
  }

  /** `FromCharsError::as_bytes` */
  function AsBytes(x: FromCharsError): seq<int> {
    x.chars
  }

  /** `FromCharsError::chars_error` */
  function CharsError(x: FromCharsError): UtfError {
    x.err
  }

  /**
   * `from_chars`: the string over the buffer when `validate_range` accepts it;
   * otherwise that call's error together with the buffer itself.
   */
  function FromChars(e: Encoding, chars: seq<int>): (r: Result<BasicString, FromCharsError>)
    requires UnitsOk(e, chars)
    ensures r.Ok? <==> Valid(e, chars)
    ensures r.Ok? ==> r.value == BasicString(e, chars) && Inv(r.value)
    ensures r.Err? ==> IntoBytes(r.error) == chars && AsBytes(r.error) == chars
    ensures r.Err? ==> ValidateRange(e, chars) == Fail(CharsError(r.error))
    ensures r.Err? ==> CharsError(r.error).pos < |chars| && Valid(e, chars[..CharsError(r.error).pos])
  {
    match ValidateRange(e, chars)
    case Pass => Ok(BasicString(e, chars))
    case Fail(err) => Err(FromCharsError(err, chars))
  }

  /**
   * The owned constructor and the borrowed one (`BasicStr::from_chars`)
   * accept the same buffers, build the same text and report the same error;
   * a failed owned conversion loses nothing of the buffer.
   */
  lemma FromCharsAgrees(e: Encoding, chars: seq<int>)
    requires UnitsOk(e, chars)
    ensures FromChars(e, chars).Ok? <==> BasicStrs.FromChars(e, chars).Ok?
    ensures FromChars(e, chars).Ok? ==>
      Deref(FromChars(e, chars).value) == BasicStrs.FromChars(e, chars).value
    ensures FromChars(e, chars).Err? ==>
      CharsError(FromChars(e, chars).error) == BasicStrs.FromChars(e, chars).error
      && FromChars(e, IntoBytes(FromChars(e, chars).error)) == FromChars(e, chars)
  {
  }

  /** `Deref`: the string slice over the buffer. */
  function Deref(s: BasicString): (r: BasicStrs.BasicStr)
    requires Inv(s)
    ensures r.e == s.e && r.chars == s.inner && BasicStrs.Inv(r)
  {
    BasicStrs.BasicStr(s.e, s.inner)
  }

  /** `vec.resize_with(len, zero_term)`: truncates, or pads with terminators up to `len`. */
  function ResizeWithZeroTerm(e: Encoding, v: seq<int>, len: nat): (r: seq<int>)
    ensures |r| == len
    ensures forall k :: 0 <= k < len && k < |v| ==> r[k] == v[k]
    ensures forall k :: |v| <= k < len ==> r[k] == ZeroTerm(e)
  {
    if len <= |v| then v[..len] else v + seq(len - |v|, _ => ZeroTerm(e))
  }

  /** A buffer grown by padding keeps the old buffer as its front. */
  lemma ResizeGrows(e: Encoding, v: seq<int>, len: nat)
    requires |v| <= len
    ensures ResizeWithZeroTerm(e, v, len)[..|v|] == v
    ensures UnitsOk(e, v) ==> UnitsOk(e, ResizeWithZeroTerm(e, v, len))
  {
    var r := ResizeWithZeroTerm(e, v, len);
    assert forall k :: 0 <= k < |v| ==> r[..|v|][k] == v[k];
    Sentinels(e, ZeroTerm(e));
  }

  /**
   * The body of `push` for a given `encoding_len`: grow the buffer by that
   * many terminators, then `encode` the scalar over the new tail (which
   * panics when the tail is too short for it).
   */
  function PushWith(s: BasicString, c: Scalar, n: nat): (r: Checked<BasicString>)
    requires HasChars(s.e) && UnitsOk(s.e, s.inner)
    ensures r.Value? <==> EncodingLen(s.e, c) <= n
    ensures r.Value? ==> r.value.e == s.e && |r.value.inner| == |s.inner| + n
    ensures r.Value? ==>
      r.value.inner == s.inner + EncodeChar(s.e, c) + seq(n - EncodingLen(s.e, c), _ => ZeroTerm(s.e))
  {
    var base := |s.inner|;
    var grown := ResizeWithZeroTerm(s.e, s.inner, base + n);
    ResizeGrows(s.e, s.inner, base + n);
    UnitsOkSlice(s.e, grown, base, |grown|);
    match EncodeInto(s.e, c, grown[base..])
    case Panic => Panic
    case Value((_, tail)) =>
      var r := grown[..base] + tail;
      assert tail[EncodingLen(s.e, c)..] == seq(n - EncodingLen(s.e, c), _ => ZeroTerm(s.e));
      Value(BasicString(s.e, r))
  }

  /**
   * `push` with `encoding_len` as written: for UTF-16 the scalar U+FFFF is
   * counted as two units, so one terminator is left behind it.
   */
  function PushAsWritten(s: BasicString, c: Scalar): (r: Checked<BasicString>)
    requires HasChars(s.e) && Inv(s)
    ensures r.Value?
    ensures s.e != Utf16 || c != 0xFFFF ==> r.value.inner == s.inner + EncodeChar(s.e, c)
  {
    PushWith(s, c, EncodingLenAsWritten(s.e, c))
  }

  /** Pushing U+FFFF onto an empty UTF-16 string as written leaves `[0xFFFF, 0]`, which holds a NUL the caller never pushed. */
  lemma PushAsWrittenCounterexample()
    ensures PushAsWritten(New(Utf16), 0xFFFF) == Value(BasicString(Utf16, [0xFFFF, 0]))
    ensures Push(New(Utf16), 0xFFFF) == Value(BasicString(Utf16, [0xFFFF]))
  {
    var u := EncodeChar(Utf16, 0xFFFF);
    assert u == [0xFFFF] by {
      assert Rfc2781.Encode(0xFFFF) == [0xFFFF];
    }
    assert EncodingLenAsWritten(Utf16, 0xFFFF) == 2;
    assert [] + u + seq(1, _ => ZeroTerm(Utf16)) == [0xFFFF, 0];
    assert [] + u + seq(0, _ => ZeroTerm(Utf16)) == [0xFFFF];
  }

  /**
   * `push` with the evident intent (the corrected `encoding_len`): the buffer
   * grows by exactly the encoding of `c`, and stays valid text.
   */
  function Push(s: BasicString, c: Scalar): (r: Checked<BasicString>)
    requires HasChars(s.e) && Inv(s)
    ensures r.Value?
    ensures r.value.e == s.e && r.value.inner == s.inner + EncodeChar(s.e, c) && Inv(r.value)
    ensures |r.value.inner| == |s.inner| + EncodingLen(s.e, c)
  {
    ValidConcat(s.e, s.inner, EncodeChar(s.e, c));
    assert s.inner + EncodeChar(s.e, c) + seq(0, _ => ZeroTerm(s.e)) == s.inner + EncodeChar(s.e, c);
    PushWith(s, c, EncodingLen(s.e, c))
  }

  /** After `push(c)` the string reads as its old scalars followed by `c`. */
  lemma PushScalars(s: BasicString, c: Scalar)
    requires HasChars(s.e) && Inv(s)
    ensures Scalars(s.e, Push(s, c).value.inner) == Scalars(s.e, s.inner) + [c]
  {
    var cs := Scalars(s.e, s.inner);
    EncodeAllConcat(s.e, cs, [c]);
    EncodeAllSingle(s.e, c);
    ScalarsEncodeAll(s.e, cs + [c]);
  }

  /** `push_str`: appends the units of a string slice; the result stays valid text. */
  function PushStr(s: BasicString, t: BasicStrs.BasicStr): (r: BasicString)
    requires Inv(s) && BasicStrs.Inv(t) && t.e == s.e
    ensures r.e == s.e && r.inner == s.inner + t.chars && Inv(r)
  {
    ValidConcat(s.e, s.inner, t.chars);
    BasicString(s.e, s.inner + t.chars)
  }

  /** After `push_str(t)` the string reads as its old scalars followed by those of `t`. */
  lemma PushStrScalars(s: BasicString, t: BasicStrs.BasicStr)
    requires HasChars(s.e) && Inv(s) && BasicStrs.Inv(t) && t.e == s.e
    ensures Scalars(s.e, PushStr(s, t).inner) == Scalars(s.e, s.inner) + Scalars(s.e, t.chars)
  {
    var a := Scalars(s.e, s.inner);
    var b := Scalars(s.e, t.chars);
    EncodeAllConcat(s.e, a, b);
    ScalarsEncodeAll(s.e, a + b);
  }

  /** Pushing the scalars of a slice one by one builds the same string as `push_str` of the slice. */
  lemma {:induction false} PushEachIsPushStr(s: BasicString, cs: seq<Scalar>)
    requires HasChars(s.e) && Inv(s)
    ensures PushAll(s, cs).inner == s.inner + EncodeAll(s.e, cs)
    decreases |cs|
  {
    if |cs| > 0 {
      var s1 := Push(s, cs[0]).value;
      PushEachIsPushStr(s1, cs[1..]);
      ConcatAssoc(s.inner, EncodeChar(s.e, cs[0]), EncodeAll(s.e, cs[1..]));
    }
  }

  /** `push` of each scalar in turn. */
  function PushAll(s: BasicString, cs: seq<Scalar>): (r: BasicString)
    requires HasChars(s.e) && Inv(s)
    ensures r.e == s.e && Inv(r)
    decreases |cs|
  {
    if |cs| == 0 then s else PushAll(Push(s, cs[0]).value, cs[1..])
  }

  /** `==` (against another string or a slice): the slices' `==`. */
  predicate Eq(a: BasicString, b: BasicString) {
    a.inner == b.inner
  }

  /** `cmp` and `partial_cmp`: the slices' `cmp`. */
  function Cmp(a: BasicString, b: BasicString): (r: Ordering)
    requires Inv(a) && Inv(b) && a.e == b.e
    ensures r == Equal <==> Eq(a, b)
    ensures r == BasicStrs.Cmp(Deref(a), Deref(b))
  {
    BasicStrs.Cmp(Deref(a), Deref(b))
  }

  /** `String::from_utf8` and `into_utf8`: a standard UTF-8 string moves in and out without a check. */
  function FromUtf8(st: seq<int>): (r: BasicString)
    requires Valid(Utf8, st)
    ensures r.e == Utf8 && r.inner == st && Inv(r)
  {
    FromCharsUnchecked(Utf8, st)
  }

  /** `into_utf8`: the buffer as a standard UTF-8 string. */
  function IntoUtf8(s: BasicString): (r: seq<int>)
    requires s.e == Utf8 && Inv(s)
    ensures Valid(Utf8, r) && FromUtf8(r) == s
  {
    IntoChars(s)
  }
}
