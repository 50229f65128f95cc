/**
 * `BasicStr`: a slice of units that its policy's `validate_range` accepts.
 * Construction validates the whole slice; slicing (`get`, indexing,
 * `split_at`) runs only the boundary check `validate_subrange` on the
 * piece, which suffices because the whole is already valid. Ordering is the
 * policy's `compare`; `unicode_iter` walks the scalars with
 * `decode_buf_unchecked`.
 */
module BasicStrs {
  import opened Wrappers
  import opened Units
  import opened UtfErrors
  import opened Lex
  import opened Policy
  import Rfc3629

  /** A string slice: its policy and its units. */
  datatype BasicStr = BasicStr(e: Encoding, chars: seq<int>)

  /** The invariant of every `BasicStr`: its units are valid text for its policy. */
  predicate Inv(s: BasicStr) {
    Valid(s.e, s.chars)
  }

  /**
   * `from_chars`: the string over `chars` when `validate_range` accepts
   * them, otherwise that call's error. `from_chars_mut` is the same check.
   */
  function FromChars(e: Encoding, chars: seq<int>): (r: Result<BasicStr, UtfError>)
    requires UnitsOk(e, chars)
    ensures r.Ok? <==> Valid(e, chars)
    ensures r.Ok? ==> r.value.e == e && r.value.chars == chars && Inv(r.value)
    ensures r.Err? ==> ValidateRange(e, chars) == Fail(r.error)
    ensures r.Err? ==> r.error.pos < |chars| && Valid(e, chars[..r.error.pos])
    ensures e == Utf32 || e == Raw ==> r.Ok?
  {
    match ValidateRange(e, chars)
    case Pass => Ok(BasicStr(e, chars))
    case Fail(err) => Err(err)
  }

  /**
   * The const-feature `from_chars`: the same match over the const policy's
   * validator. It succeeds on the same inputs, with the same string. Its
   * errors point at the offending unit rather than at the end of the valid
   * prefix: no prefix reaching past the error position is valid, and for
   * UTF-8 a stray continuation byte right after a valid prefix is reported
   * at its own index with length 1, and so is a non-continuation byte after
   * a two-byte lead, which leaves the lead inside the reported prefix.
   */
  method FromCharsConst(e: Encoding, chars: seq<int>) returns (r: Result<BasicStr, UtfError>)
    requires UnitsOk(e, chars)
    ensures r.Ok? <==> FromChars(e, chars).Ok?
    ensures r.Ok? ==> r == FromChars(e, chars)
    ensures r.Err? ==> e == Utf8 || e == Utf16
    ensures r.Err? ==> r.error.pos <= |chars| && forall q :: r.error.pos < q <= |chars| ==> !Valid(e, chars[..q])
    ensures e == Utf8 ==> forall t :: 0 <= t < |chars| && Valid(e, chars[..t]) && Rfc3629.IsCont(chars[t]) ==>
      r == Err(UtfError(t, Some(1)))
    ensures e == Utf8 ==> forall t :: 0 <= t && t + 1 < |chars| && Valid(e, chars[..t]) && Rfc3629.Width(chars[t]) == 2 && !Rfc3629.IsCont(chars[t + 1]) ==>
      r == Err(UtfError(t + 1, Some(1)))
  {
    var v := ValidateRangeConst(e, chars);
    match v
    case Pass =>
      r := Ok(BasicStr(e, chars));
    case Fail(err) =>
      r := Err(err);
  }

  /**
   * The const constructor on `[0xC3, 0x41]`: the error is at index 1, where
   * the two-byte sequence breaks, and the prefix it leaves is not valid, so
   * the const error position is not the length of a valid prefix.
   */
  method FromCharsConstErrorPosition() returns (r: Result<BasicStr, UtfError>)
    ensures r == Err(UtfError(1, Some(1)))
    ensures !Valid(Utf8, [0xC3, 0x41][..r.error.pos])
  {
    var chars := [0xC3, 0x41];
    assert chars[..0] == [];
    assert Rfc3629.WellFormed(chars[..0]);
    r := FromCharsConst(Utf8, chars);
    assert chars[..1] == [0xC3];
    assert !Rfc3629.WellFormed([0xC3]);
  }

  /**
   * `get(lo..hi)`: `None` when the range is out of bounds (`slice::get`) or
   * the piece fails `validate_subrange`; otherwise the piece.
   */
  function Get(s: BasicStr, lo: nat, hi: nat): (r: Option<BasicStr>)
    requires Inv(s)
    ensures r.Some? <==> lo <= hi <= |s.chars| && Valid(s.e, s.chars[lo..hi])
    ensures r.Some? ==> r.value.e == s.e && r.value.chars == s.chars[lo..hi] && Inv(r.value)
  {
    if !(lo <= hi <= |s.chars|) then None
    else
      SubrangeCorrect(s.e, s.chars, lo, hi);
      match ValidateSubrange(s.e, s.chars[lo..hi])
      case Fail(_) => None
      case Pass => Some(BasicStr(s.e, s.chars[lo..hi]))
  }

  /**
   * `self[lo..hi]` (`Index`): panics when the range is out of bounds or the
   * piece fails `validate_subrange`; otherwise the piece.
   */
  function Index(s: BasicStr, lo: nat, hi: nat): (r: Checked<BasicStr>)
    requires Inv(s)
    ensures r.Value? <==> lo <= hi <= |s.chars| && Valid(s.e, s.chars[lo..hi])
    ensures r.Value? ==> r.value.e == s.e && r.value.chars == s.chars[lo..hi] && Inv(r.value)
  {
    if !(lo <= hi <= |s.chars|) then Panic
    else
      SubrangeCorrect(s.e, s.chars, lo, hi);
      match ValidateSubrange(s.e, s.chars[lo..hi])
      case Fail(_) => Panic
      case Pass => Value(BasicStr(s.e, s.chars[lo..hi]))
  }

  /** Indexing panics exactly where `get` returns `None`, and otherwise returns the same piece. */
  lemma IndexIsGet(s: BasicStr, lo: nat, hi: nat)
    requires Inv(s)
    ensures Index(s, lo, hi).Value? <==> Get(s, lo, hi).Some?
    ensures Index(s, lo, hi).Value? ==> Index(s, lo, hi).value == Get(s, lo, hi).value
  {
  }

  /** Cutting valid text where the front is valid leaves a valid back. */
  lemma FrontValidBackValid(e: Encoding, s: seq<int>, mid: nat)
    requires Valid(e, s) && mid <= |s|
    ensures Valid(e, s[..mid]) ==> Valid(e, s[mid..])
  {
    if mid == 0 {
      assert s[mid..] == s;
    } else if Valid(e, s[..mid]) {
      assert s[0..mid] == s[..mid];
      ValidWindow(e, s, 0, mid);
    }
  }

  /**
   * `split_at(mid)`: panics when `mid` is past the end (`slice::split_at`)
   * or either half fails `validate_subrange`; otherwise the two halves.
   */
  function SplitAt(s: BasicStr, mid: nat): (r: Checked<(BasicStr, BasicStr)>)
    requires Inv(s)
    ensures r.Value? <==> mid <= |s.chars| && Valid(s.e, s.chars[..mid])
    ensures r.Value? ==>
      var (left, right) := r.value;
      && left.e == s.e && right.e == s.e
      && left.chars + right.chars == s.chars && |left.chars| == mid
      && Inv(left) && Inv(right)
  {
    if mid > |s.chars| then Panic
    else
      var left := s.chars[..mid];
      var right := s.chars[mid..];
      assert s.chars[0..mid] == left && s.chars[mid..|s.chars|] == right;
      SubrangeCorrect(s.e, s.chars, 0, mid);
      SubrangeCorrect(s.e, s.chars, mid, |s.chars|);
      FrontValidBackValid(s.e, s.chars, mid);
      assert left + right == s.chars;
      if ValidateSubrange(s.e, left).Fail? then Panic
      else if ValidateSubrange(s.e, right).Fail? then Panic
      else Value((BasicStr(s.e, left), BasicStr(s.e, right)))
  }

  /** `split_at` agrees with `get` on both sides of `mid`. */
  lemma SplitAtIsGet(s: BasicStr, mid: nat)
    requires Inv(s)
    ensures SplitAt(s, mid).Value? <==> Get(s, 0, mid).Some? && Get(s, mid, |s.chars|).Some?
    ensures SplitAt(s, mid).Value? ==>
      SplitAt(s, mid).value == (Get(s, 0, mid).value, Get(s, mid, |s.chars|).value)
  {
    if mid <= |s.chars| {
      assert s.chars[0..mid] == s.chars[..mid];
      assert s.chars[mid..|s.chars|] == s.chars[mid..];
    }
  }

  /**
   * `get(lo..hi)` over the as-written `validate_subrange`: the same shape,
   * but for UTF-8 the piece it hands out need not be valid text.
   */
  function GetAsWritten(s: BasicStr, lo: nat, hi: nat): (r: Option<BasicStr>)
    requires Inv(s)
    ensures r.Some? <==>
      lo <= hi <= |s.chars| && (UnitsOkSlice(s.e, s.chars, lo, hi); ValidateSubrangeAsWritten(s.e, s.chars[lo..hi]).Pass?)
    ensures r.Some? ==> r.value.e == s.e && r.value.chars == s.chars[lo..hi]
    ensures s.e != Utf8 ==> r == Get(s, lo, hi)
  {
    if !(lo <= hi <= |s.chars|) then None
    else
      UnitsOkSlice(s.e, s.chars, lo, hi);
      match ValidateSubrangeAsWritten(s.e, s.chars[lo..hi])
      case Fail(_) => None
      case Pass => Some(BasicStr(s.e, s.chars[lo..hi]))
  }

  /** `self[lo..hi]` over the as-written `validate_subrange`: panics exactly where `GetAsWritten` is `None`. */
  function IndexAsWritten(s: BasicStr, lo: nat, hi: nat): (r: Checked<BasicStr>)
    requires Inv(s)
    ensures r.Value? <==> GetAsWritten(s, lo, hi).Some?
    ensures r.Value? ==> r.value == GetAsWritten(s, lo, hi).value
    ensures s.e != Utf8 ==> r == Index(s, lo, hi)
  {
    if !(lo <= hi <= |s.chars|) then Panic
    else
      UnitsOkSlice(s.e, s.chars, lo, hi);
      match ValidateSubrangeAsWritten(s.e, s.chars[lo..hi])
      case Fail(_) => Panic
      case Pass => Value(BasicStr(s.e, s.chars[lo..hi]))
  }

  /** `split_at(mid)` over the as-written `validate_subrange`. */
  function SplitAtAsWritten(s: BasicStr, mid: nat): (r: Checked<(BasicStr, BasicStr)>)
    requires Inv(s)
    ensures r.Value? <==> mid <= |s.chars| && GetAsWritten(s, 0, mid).Some? && GetAsWritten(s, mid, |s.chars|).Some?
    ensures r.Value? ==> r.value.0.chars + r.value.1.chars == s.chars && |r.value.0.chars| == mid
    ensures s.e != Utf8 ==> r == SplitAt(s, mid)
  {
    if mid > |s.chars| then Panic
    else
      var left := s.chars[..mid];
      var right := s.chars[mid..];
      assert s.chars[0..mid] == left && s.chars[mid..|s.chars|] == right;
      assert left + right == s.chars;
      UnitsOkSlice(s.e, s.chars, 0, mid);
      UnitsOkSlice(s.e, s.chars, mid, |s.chars|);
      if ValidateSubrangeAsWritten(s.e, left).Fail? then Panic
      else if ValidateSubrangeAsWritten(s.e, right).Fail? then Panic
      else Value((BasicStr(s.e, left), BasicStr(s.e, right)))
  }

  /** As written, `get(0..1)` on "é" (C3 A9) returns a string holding a lone lead byte. */
  lemma GetAsWrittenInvalid()
    ensures Inv(BasicStr(Utf8, [0xC3, 0xA9]))
    ensures GetAsWritten(BasicStr(Utf8, [0xC3, 0xA9]), 0, 1) == Some(BasicStr(Utf8, [0xC3]))
    ensures !Inv(BasicStr(Utf8, [0xC3])) && Get(BasicStr(Utf8, [0xC3, 0xA9]), 0, 1) == None
  {
    Utf8Traits.SubrangeAcceptsLoneLead();
    var s := BasicStr(Utf8, [0xC3, 0xA9]);
    assert s.chars[0..1] == [0xC3];
  }

  /** As written, `split_at(4)` on "😀A" (F0 9F 98 80 41) panics although both halves are valid. */
  lemma SplitAtAsWrittenPanics()
    ensures Inv(BasicStr(Utf8, [0xF0, 0x9F, 0x98, 0x80, 0x41]))
    ensures SplitAtAsWritten(BasicStr(Utf8, [0xF0, 0x9F, 0x98, 0x80, 0x41]), 4) == Panic
    ensures SplitAt(BasicStr(Utf8, [0xF0, 0x9F, 0x98, 0x80, 0x41]), 4).Value?
  {
    Utf8Traits.SubrangeRejectsFourByte();
    var s := BasicStr(Utf8, [0xF0, 0x9F, 0x98, 0x80, 0x41]);
    var left: seq<Byte> := [0xF0, 0x9F, 0x98, 0x80];
    assert s.chars[..4] == left && s.chars[0..4] == left;
    var a: seq<Byte> := [0x41];
    assert Rfc3629.WellFormed(a) by {
      assert a[..1] == a && a[1..] == [];
    }
    Rfc3629.WellFormedConcat(left, a);
    assert left + a == s.chars;
  }

  /** `==`: element-wise. */
  predicate Eq(a: BasicStr, b: BasicStr) {
    a.chars == b.chars
  }

  /** `cmp`: the policy's `compare` on the two slices. */
  function Cmp(a: BasicStr, b: BasicStr): (r: Ordering)
    requires a.e == b.e
    ensures r == Equal <==> Eq(a, b)
  {
    Compare(a.e, a.chars, b.chars)
  }

  /** `partial_cmp`: always `Some(cmp)`. */
  function PartialCmp(a: BasicStr, b: BasicStr): (r: Option<Ordering>)
    requires a.e == b.e
    ensures r.Some? && (r.value == Equal <==> Eq(a, b))
  {
    Some(Cmp(a, b))
  }

  /** `cmp` is a total order consistent with `==`: antisymmetric and transitive. */
  lemma CmpOrder(a: BasicStr, b: BasicStr, c: BasicStr)
    requires a.e == b.e == c.e
    ensures Cmp(b, a) == Cmp(a, b).Reverse()
    ensures Cmp(a, b) == Less && Cmp(b, c) == Less ==> Cmp(a, c) == Less
    ensures PartialCmp(a, b) == Some(Cmp(a, b))
  {
    LexCmpAntisymmetric(a.chars, b.chars);
    if Cmp(a, b) == Less && Cmp(b, c) == Less {
      LexCmpTransitive(a.chars, b.chars, c.chars);
    }
  }

  /**
   * The scalars `unicode_iter` yields: `decode_buf_unchecked` from the front
   * until nothing is left. Their encodings put back together give the text;
   * there are at most as many as units, and each takes at most
   * `max_encoding_len` units.
   */
  function UnicodeChars(e: Encoding, s: seq<int>): (cs: seq<Scalar>)
    requires HasChars(e) && Valid(e, s)
    ensures EncodeAll(e, cs) == s
    ensures |cs| <= |s| <= |cs| * MaxEncodingLen(e)
    decreases |s|
  {
    if |s| == 0 then []
    else
      var (c, rest) := DecodeBufUnchecked(e, s);
      var tail := UnicodeChars(e, rest);
      UnicodeStep(e, s, c, rest, tail);
      [c] + tail
  }

  /** One decoded scalar in front of the scalars of the rest: the encodings and the length bounds carry over. */
  lemma UnicodeStep(e: Encoding, s: seq<int>, c: Scalar, rest: seq<int>, tail: seq<Scalar>)
    requires HasChars(e) && s == EncodeChar(e, c) + rest
    requires EncodeAll(e, tail) == rest && |tail| <= |rest| <= |tail| * MaxEncodingLen(e)
    ensures EncodeAll(e, [c] + tail) == s
    ensures |[c] + tail| <= |s| <= |[c] + tail| * MaxEncodingLen(e)
  {
    assert EncodeAll(e, [c] + tail) == s by {
      var cs := [c] + tail;
      assert cs[0] == c && cs[1..] == tail;
    }
    LengthStep(|tail|, |rest|, |s|, MaxEncodingLen(e));
  }

  /** One more scalar of between 1 and `m` units keeps the count within the length bounds. */
  lemma LengthStep(t: nat, r: nat, n: nat, m: nat)
    requires t <= r <= t * m && r + 1 <= n <= r + m
    ensures t + 1 <= n <= (t + 1) * m
  {
    assert (t + 1) * m == t * m + m;
  }

  /** Multiplying by the same factor keeps `<=`. */
  lemma MulMono(x: nat, y: nat, m: nat)
    requires x <= y
    ensures x * m <= y * m
  {
    assert y * m == x * m + (y - x) * m;
  }

  /** A length covered by `n` pieces of at most `m` units gives at most `n` when divided by `m`. */
  lemma DivBound(a: nat, n: nat, m: nat)
    requires m >= 1 && a <= n * m
    ensures a / m <= n
  {
    var q := a / m;
    assert a == q * m + a % m;
    if q > n {
      MulMono(n + 1, q, m);
    }
  }

  /** `size_hint`: `(len / max_encoding_len, Some(len))`. */
  function SizeHint(e: Encoding, s: seq<int>): (r: (nat, Option<nat>))
    requires HasChars(e)
  {
    (|s| / MaxEncodingLen(e), Some(|s|))
  }

  /** The iterator yields exactly the scalars of the text, as many as `size_hint` allows. */
  lemma UnicodeCharsAreScalars(e: Encoding, s: seq<int>)
    requires HasChars(e) && Valid(e, s)
    ensures UnicodeChars(e, s) == Scalars(e, s)
    ensures SizeHint(e, s).0 <= |UnicodeChars(e, s)| <= SizeHint(e, s).1.value
  {
    var cs := UnicodeChars(e, s);
    ScalarsEncodeAll(e, cs);
    DivBound(|s|, |cs|, MaxEncodingLen(e));
  }
}
