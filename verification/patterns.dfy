/**
 * The pattern engine (`Pattern`, `RevPattern`): a substring, a scalar, a
 * predicate over scalars or a set of scalars, searched for forwards
 * (`first_match`) and backwards (`last_match`) in a slice of elements. Rust
 * returns the match as a subslice of the input; here it is the span
 * (offset, length) of that subslice. `[char; N]` patterns and the `&` and
 * `&mut` wrappers forward every call to the pattern they hold, so they are
 * the same patterns here.
 */
module Patterns {
  import opened Wrappers
  import opened Units
  import opened Policy

  datatype Pattern =
    | Needle(units: seq<int>)      // a `BasicStr`, searched for as a substring
    | Char(c: Scalar)              // `char`
    | Pred(f: Scalar -> bool)      // `Fn(char) -> bool`
    | AnyOf(cs: seq<Scalar>)       // `[char]` and `[char; N]`

  /** A match: the subslice `slice[start..start + len]`. */
  datatype Span = Span(start: nat, len: nat) {
    function End(): nat {
      start + len
    }
  }

  /** Scalar patterns need an encoding that decodes; a substring can be searched for in any. */
  predicate Searchable(e: Encoding, p: Pattern) {
    p.Needle? || HasChars(e)
  }

  /** The scalar test of the scalar patterns: `c == *self`, `(*self)(c)`, `self.contains(&c)`. */
  predicate Accepts(p: Pattern, c: Scalar)
    requires !p.Needle?
  {
    match p
    case Char(d) => c == d
    case Pred(f) => f(c)
    case AnyOf(cs) => c in cs
  }

  // ---------------------------------------------------------------------
  // Substring search
  // ---------------------------------------------------------------------

  /** The needle occurs in `s` at offset `i`. */
  predicate OccursAt(n: seq<int>, s: seq<int>, i: nat) {
    i + |n| <= |s| && s[i..i + |n|] == n
  }

  /** The forward window loop `for i in lo..hi`: the first window in the range that equals the needle. */
  function FirstWindow(n: seq<int>, s: seq<int>, lo: nat, hi: nat): (r: Option<Span>)
    requires hi + |n| <= |s| + 1
    ensures r.Some? ==> lo <= r.value.start < hi && r.value.len == |n| && OccursAt(n, s, r.value.start)
    ensures r.Some? ==> forall j :: lo <= j < r.value.start ==> !OccursAt(n, s, j)
    ensures r.None? ==> forall j :: lo <= j < hi ==> !OccursAt(n, s, j)
    decreases hi - lo
  {
    if lo >= hi then None
    else if s[lo..lo + |n|] == n then Some(Span(lo, |n|))
    else FirstWindow(n, s, lo + 1, hi)
  }

  /** Substring `first_match` as written: the window loop stops one short, at `|s| - |n|` exclusive. */
  function FirstNeedleAsWritten(n: seq<int>, s: seq<int>): Option<Span> {
    if |s| < |n| then None else FirstWindow(n, s, 0, |s| - |n|)
  }

  /** Substring `first_match` as evidently intended: every window, including the last one, is tried. */
  function FirstNeedle(n: seq<int>, s: seq<int>): (r: Option<Span>)
    ensures r.Some? <==> exists i :: OccursAt(n, s, i)
    ensures r.Some? ==>
      && r.value.len == |n| && OccursAt(n, s, r.value.start)
      && forall j :: 0 <= j < r.value.start ==> !OccursAt(n, s, j)
  {
    if |s| < |n| then None else FirstWindow(n, s, 0, |s| - |n| + 1)
  }

  /** The empty needle occurs everywhere: its first match is at the start, its last at the end. */
  lemma EmptyNeedleMatches(s: seq<int>)
    ensures FirstNeedle([], s) == Some(Span(0, 0))
    ensures LastNeedle([], s) == Some(Span(|s|, 0))
  {
    assert OccursAt([], s, 0);
    assert OccursAt([], s, |s|);
  }

  /** The written loop agrees with the intended one except that it never reports the last window. */
  lemma FirstNeedleAsWrittenWrong(n: seq<int>, s: seq<int>)
    ensures
      var r := FirstNeedle(n, s);
      FirstNeedleAsWritten(n, s) == if r.Some? && r.value.start + |n| < |s| then r else None
  {
  }

  /** "b" is not found in "ab", and the empty needle is not found in empty text. */
  lemma FirstNeedleAsWrittenCounterexamples()
    ensures FirstNeedleAsWritten([0x62], [0x61, 0x62]) == None
    ensures FirstNeedle([0x62], [0x61, 0x62]) == Some(Span(1, 1))
    ensures FirstNeedleAsWritten([], []) == None && FirstNeedle([], []) == Some(Span(0, 0))
  {
    var s: seq<int> := [0x61, 0x62];
    assert s[0..1] == [0x61];
    assert s[1..2] == [0x62];
    var e: seq<int> := [];
    assert e[0..0] == [];
  }

  /** The backward window loop `for i in (0..hi).rev()`, as evidently intended: the last matching window. */
  function LastWindow(n: seq<int>, s: seq<int>, hi: nat): (r: Option<Span>)
    requires hi + |n| <= |s| + 1
    ensures r.Some? ==> r.value.start < hi && r.value.len == |n| && OccursAt(n, s, r.value.start)
    ensures r.Some? ==> forall j :: r.value.start < j < hi ==> !OccursAt(n, s, j)
    ensures r.None? ==> forall j :: 0 <= j < hi ==> !OccursAt(n, s, j)
    decreases hi
  {
    if hi == 0 then None
    else if s[hi - 1..hi - 1 + |n|] == n then Some(Span(hi - 1, |n|))
    else LastWindow(n, s, hi - 1)
  }

  /** Substring `last_match` as evidently intended: the window at the largest matching offset. */
  function LastNeedle(n: seq<int>, s: seq<int>): (r: Option<Span>)
    ensures r.Some? <==> exists i :: OccursAt(n, s, i)
    ensures r.Some? ==>
      && r.value.len == |n| && OccursAt(n, s, r.value.start)
      && forall j :: r.value.start < j ==> !OccursAt(n, s, j)
  {
    if |s| < |n| then None else LastWindow(n, s, |s| - |n| + 1)
  }

  /**
   * The backward window loop as written: offsets `hi - 1` down to 0 of the
   * range `0..|s| - |n|`, each compared as `slice[..i][..n]`, which panics
   * once `i < n` and otherwise always looks at the first window.
   */
  function LastWindowAsWritten(n: seq<int>, s: seq<int>, hi: nat): Checked<Option<Span>>
    requires hi + |n| <= |s|
    decreases hi
  {
    if hi == 0 then Value(None)
    else
      var i := hi - 1;
      if i < |n| then Panic
      else if s[..i][..|n|] == n then Value(Some(Span(0, |n|)))
      else LastWindowAsWritten(n, s, i)
  }

  /** Substring `last_match` as written. */
  function LastNeedleAsWritten(n: seq<int>, s: seq<int>): Checked<Option<Span>> {
    if |s| < |n| then Value(None) else LastWindowAsWritten(n, s, |s| - |n|)
  }

  /**
   * What the written loop does: a match it reports is always the first
   * window, it never finds a needle as long as the text, and whenever the
   * text is longer than the needle but at most twice as long it panics.
   */
  lemma {:induction false} LastNeedleAsWrittenShape(n: seq<int>, s: seq<int>)
    ensures
      var r := LastNeedleAsWritten(n, s);
      r.Value? && r.value.Some? ==> r.value.value == Span(0, |n|) && OccursAt(n, s, 0)
    ensures |s| == |n| ==> LastNeedleAsWritten(n, s) == Value(None)
    ensures |n| < |s| <= 2 * |n| ==> LastNeedleAsWritten(n, s) == Panic
  {
    if |s| >= |n| {
      LastWindowAsWrittenFront(n, s, |s| - |n|);
    }
  }

  lemma {:induction false} LastWindowAsWrittenFront(n: seq<int>, s: seq<int>, hi: nat)
    requires hi + |n| <= |s|
    ensures
      var r := LastWindowAsWritten(n, s, hi);
      r.Value? && r.value.Some? ==> r.value.value == Span(0, |n|) && OccursAt(n, s, 0)
    decreases hi
  {
    if hi > 0 {
      var i := hi - 1;
      if i >= |n| {
        assert s[..i][..|n|] == s[0..|n|];
        LastWindowAsWrittenFront(n, s, i);
      }
    }
  }

  /** "ab" in "abxab" is reported at the front, "a" in "aa" panics, and "a" in "a" is not found. */
  lemma LastNeedleAsWrittenCounterexamples()
    ensures LastNeedleAsWritten([0x61, 0x62], [0x61, 0x62, 0x78, 0x61, 0x62]) == Value(Some(Span(0, 2)))
    ensures LastNeedle([0x61, 0x62], [0x61, 0x62, 0x78, 0x61, 0x62]) == Some(Span(3, 2))
    ensures LastNeedleAsWritten([0x61], [0x61, 0x61]) == Panic
    ensures LastNeedle([0x61], [0x61, 0x61]) == Some(Span(1, 1))
    ensures LastNeedleAsWritten([0x61], [0x61]) == Value(None)
    ensures LastNeedle([0x61], [0x61]) == Some(Span(0, 1))
  {
    var s: seq<int> := [0x61, 0x62, 0x78, 0x61, 0x62];
    assert s[..2][..2] == [0x61, 0x62];
    assert s[3..5] == [0x61, 0x62];
    var t: seq<int> := [0x61, 0x61];
    assert t[1..2] == [0x61];
    var u: seq<int> := [0x61];
    assert u[0..1] == u;
  }

  // ---------------------------------------------------------------------
  // Scalar search
  // ---------------------------------------------------------------------

  /** A match found in the suffix that starts at offset `k`, as a match in the whole slice. */
  function Shift(r: Option<Span>, k: nat): Option<Span> {
    match r
    case None => None
    case Some(m) => Some(Span(k + m.start, m.len))
  }

  /**
   * `first_match` of the scalar patterns: decode scalars from the front
   * with `decode_buf` and return `slice[..encoding_len(c)]` of the current
   * remainder for the first one accepted; stop at the first decode failure.
   */
  function FirstScalar(e: Encoding, p: Pattern, s: seq<int>): (r: Option<Span>)
    requires HasChars(e) && !p.Needle? && UnitsOk(e, s)
    ensures r.Some? ==> r.value.End() <= |s|
    decreases |s|
  {
    match DecodeBuf(e, s)
    case None => None
    case Some((c, rest)) =>
      if Accepts(p, c) then
        DecodeBufFits(e, s);
        Some(Span(0, EncodingLen(e, c)))
      else
        var k := |s| - |rest|;
        UnitsOkSlice(e, s, k, |s|);
        Shift(FirstScalar(e, p, rest), k)
  }

  /** `first_match_unchecked` of the scalar patterns: the same loop over `decode_buf_unchecked`. */
  function FirstScalarUnchecked(e: Encoding, p: Pattern, s: seq<int>): Option<Span>
    requires HasChars(e) && !p.Needle? && Valid(e, s)
    decreases |s|
  {
    if |s| == 0 then None
    else
      var (c, rest) := DecodeBufUnchecked(e, s);
      if Accepts(p, c) then Some(Span(0, EncodingLen(e, c)))
      else Shift(FirstScalarUnchecked(e, p, rest), |s| - |rest|)
  }

  /**
   * `first_match` of the scalar patterns with the as-written `encoding_len`:
   * the loop of `FirstScalar`, but the match is `&slice[..encoding_len(c)]`
   * with UTF-16 U+FFFF counted as two units, and that slice panics when it
   * runs past the remainder. The decoder is the corrected `decode_buf`, so
   * this isolates the `encoding_len` bound.
   */
  function FirstScalarAsWritten(e: Encoding, p: Pattern, s: seq<int>): (r: Checked<Option<Span>>)
    requires HasChars(e) && !p.Needle? && UnitsOk(e, s)
    ensures r.Value? && r.value.Some? ==> r.value.value.End() <= |s|
    decreases |s|
  {
    match DecodeBuf(e, s)
    case None => Value(None)
    case Some((c, rest)) =>
      if Accepts(p, c) then
        var n := EncodingLenAsWritten(e, c);
        if n <= |s| then Value(Some(Span(0, n))) else Panic
      else
        var k := |s| - |rest|;
        UnitsOkSlice(e, s, k, |s|);
        ShiftChecked(FirstScalarAsWritten(e, p, rest), k)
  }

  /** `Shift` under a possible panic. */
  function ShiftChecked(w: Checked<Option<Span>>, k: nat): Checked<Option<Span>> {
    match w
    case Panic => Panic
    case Value(m) => Value(Shift(m, k))
  }

  /**
   * How an as-written scalar match `w` on `s` relates to the corrected match
   * `m`: the two agree, except that a UTF-16 match on U+FFFF takes two units,
   * or panics when U+FFFF ends the slice.
   */
  predicate Related(e: Encoding, s: seq<int>, m: Option<Span>, w: Checked<Option<Span>>) {
    match m
    case None => w == Value(None)
    case Some(sp) =>
      && 0 < sp.len
      && sp.End() <= |s|
      && if e == Utf16 && s[sp.start] == 0xFFFF then
           w == (if sp.start + 2 <= |s| then Value(Some(Span(sp.start, 2))) else Panic)
         else
           w == Value(Some(sp))
  }

  /**
   * The as-written loop differs from the corrected one exactly when the
   * match found is UTF-16 U+FFFF: then it takes two units, or panics when
   * U+FFFF ends the slice; everywhere else it returns the corrected match.
   */
  lemma {:induction false} FirstScalarAsWrittenDiffers(e: Encoding, p: Pattern, s: seq<int>)
    requires HasChars(e) && !p.Needle? && UnitsOk(e, s)
    ensures Related(e, s, FirstScalar(e, p, s), FirstScalarAsWritten(e, p, s))
    ensures FirstScalar(e, p, s).None? <==> FirstScalarAsWritten(e, p, s) == Value(None)
    decreases |s|
  {
    var d := DecodeBuf(e, s);
    if d.None? {
      assert FirstScalar(e, p, s) == None && FirstScalarAsWritten(e, p, s) == Value(None);
    } else if Accepts(p, d.value.0) {
      AsWrittenAccepted(e, p, s);
    } else {
      var rest := d.value.1;
      var k := |s| - |rest|;
      UnitsOkSlice(e, s, k, |s|);
      FirstScalarAsWrittenDiffers(e, p, rest);
      AsWrittenShiftStep(e, p, s, rest, k);
      RelatedShift(e, s, k, FirstScalar(e, p, rest), FirstScalarAsWritten(e, p, rest));
    }
  }

  /** The accepted-scalar case of `FirstScalarAsWrittenDiffers`. */
  lemma AsWrittenAccepted(e: Encoding, p: Pattern, s: seq<int>)
    requires HasChars(e) && !p.Needle? && UnitsOk(e, s)
    requires DecodeBuf(e, s).Some? && Accepts(p, DecodeBuf(e, s).value.0)
    ensures Related(e, s, FirstScalar(e, p, s), FirstScalarAsWritten(e, p, s))
    ensures FirstScalar(e, p, s).Some? && FirstScalarAsWritten(e, p, s) != Value(None)
  {
    var (c, rest) := DecodeBuf(e, s).value;
    FirstUnitIsFFFF(e, s, c, rest);
    AsWrittenAcceptStep(e, p, s);
    Utf16Codec.EncodingLenAsWrittenWrong(c);
  }

  /** `Related` on a suffix carries over to the whole slice, both matches shifted by the suffix's offset. */
  lemma RelatedShift(e: Encoding, s: seq<int>, k: nat, m: Option<Span>, w: Checked<Option<Span>>)
    requires k <= |s| && Related(e, s[k..], m, w)
    ensures Related(e, s, Shift(m, k), ShiftChecked(w, k))
    ensures m.None? <==> w == Value(None)
  {
    if m.Some? {
      assert s[k + m.value.start] == s[k..][m.value.start];
    }
  }

  /** In UTF-16 the scalar `decode_buf` reads is U+FFFF exactly when the first unit is 0xFFFF. */
  lemma FirstUnitIsFFFF(e: Encoding, s: seq<int>, c: Scalar, rest: seq<int>)
    requires HasChars(e) && UnitsOk(e, s) && DecodeBuf(e, s) == Some((c, rest))
    ensures 0 < |s|
    ensures e == Utf16 ==> (s[0] == 0xFFFF <==> c == 0xFFFF)
    ensures EncodingLen(e, c) > 0
  {
  }

  /** The accepted-scalar step of `FirstScalarAsWrittenDiffers`: the corrected span, or the as-written bound. */
  lemma AsWrittenAcceptStep(e: Encoding, p: Pattern, s: seq<int>)
    requires HasChars(e) && !p.Needle? && UnitsOk(e, s)
    requires DecodeBuf(e, s).Some? && Accepts(p, DecodeBuf(e, s).value.0)
    ensures
      var c := DecodeBuf(e, s).value.0;
      && FirstScalar(e, p, s) == Some(Span(0, EncodingLen(e, c)))
      && EncodingLen(e, c) <= |s|
      && FirstScalarAsWritten(e, p, s) ==
           (if EncodingLenAsWritten(e, c) <= |s| then Value(Some(Span(0, EncodingLenAsWritten(e, c)))) else Panic)
  {
    DecodeBufFits(e, s);
    match e {
      case Utf8 =>
      case Utf16 =>
      case Utf32 =>
    }
  }

  /** The rejected-scalar step of `FirstScalarAsWrittenDiffers`: both loops shift the tail's result by `k`. */
  lemma AsWrittenShiftStep(e: Encoding, p: Pattern, s: seq<int>, rest: seq<int>, k: nat)
    requires HasChars(e) && !p.Needle? && UnitsOk(e, s) && UnitsOk(e, rest)
    requires DecodeBuf(e, s).Some? && rest == DecodeBuf(e, s).value.1 && !Accepts(p, DecodeBuf(e, s).value.0)
    requires k == |s| - |rest| && rest == s[k..]
    ensures FirstScalar(e, p, s) == Shift(FirstScalar(e, p, rest), k)
    ensures FirstScalarAsWritten(e, p, s) == ShiftChecked(FirstScalarAsWritten(e, p, rest), k)
  {
    match e {
      case Utf8 =>
      case Utf16 =>
      case Utf32 =>
    }
  }

  /**
   * Searching UTF-16 `[FFFF, D83D, DE00]` for U+FFFF matches `[FFFF, D83D]`,
   * half a surrogate pair, leaving the invalid `[DE00]` after it; searching
   * `[FFFF]` panics. The corrected loop matches the single unit both times.
   */
  lemma FirstScalarAsWrittenCounterexamples()
    ensures FirstScalarAsWritten(Utf16, Char(0xFFFF), [0xFFFF, 0xD83D, 0xDE00]) == Value(Some(Span(0, 2)))
    ensures !Valid(Utf16, [0xFFFF, 0xD83D]) && !Valid(Utf16, [0xDE00])
    ensures FirstScalar(Utf16, Char(0xFFFF), [0xFFFF, 0xD83D, 0xDE00]) == Some(Span(0, 1))
    ensures FirstScalarAsWritten(Utf16, Char(0xFFFF), [0xFFFF]) == Panic
    ensures FirstScalar(Utf16, Char(0xFFFF), [0xFFFF]) == Some(Span(0, 1))
  {
  }

  /**
   * `last_match` of the scalar patterns as written: decode scalars from the
   * back with `decode_back`; for the first one accepted the offset is
   * `slice.offset_from(rest)`, two slices that start at the same element, so
   * the match is the whole remaining prefix `slice[0..]`.
   */
  function LastScalarAsWritten(e: Encoding, p: Pattern, s: seq<int>): (r: Option<Span>)
    requires HasChars(e) && !p.Needle? && UnitsOk(e, s)
    ensures r.Some? ==> r.value.start == 0 && 0 < r.value.len <= |s|
    decreases |s|
  {
    match DecodeBack(e, s)
    case None => None
    case Some((c, rest)) =>
      if Accepts(p, c) then Some(Span(0, |s|))
      else
        UnitsOkSlice(e, s, 0, |rest|);
        LastScalarAsWritten(e, p, rest)
  }

  /** `last_match` of the scalar patterns as evidently intended: the units after `rest`. */
  function LastScalar(e: Encoding, p: Pattern, s: seq<int>): (r: Option<Span>)
    requires HasChars(e) && !p.Needle? && UnitsOk(e, s)
    ensures r.Some? ==> r.value.End() <= |s|
    decreases |s|
  {
    match DecodeBack(e, s)
    case None => None
    case Some((c, rest)) =>
      if Accepts(p, c) then Some(Span(|rest|, |s| - |rest|))
      else
        UnitsOkSlice(e, s, 0, |rest|);
        LastScalar(e, p, rest)
  }

  /** `last_match_unchecked` of the scalar patterns, intended: the same loop over `decode_back_unchecked`. */
  function LastScalarUnchecked(e: Encoding, p: Pattern, s: seq<int>): Option<Span>
    requires HasChars(e) && !p.Needle? && Valid(e, s)
    decreases |s|
  {
    if |s| == 0 then None
    else
      var (c, rest) := DecodeBackUnchecked(e, s);
      if Accepts(p, c) then Some(Span(|rest|, |s| - |rest|))
      else LastScalarUnchecked(e, p, rest)
  }

  /** Reference: the index of the first scalar the pattern accepts. */
  function FirstIndex(p: Pattern, cs: seq<Scalar>): (r: Option<nat>)
    requires !p.Needle?
    ensures r.Some? ==> r.value < |cs|
    decreases |cs|
  {
    if |cs| == 0 then None
    else if Accepts(p, cs[0]) then Some(0)
    else
      match FirstIndex(p, cs[1..])
      case None => None
      case Some(i) => Some(i + 1)
  }

  /** `FirstIndex` finds an accepted scalar with none accepted before it, and finds none only when none is accepted. */
  lemma {:induction false} FirstIndexCorrect(p: Pattern, cs: seq<Scalar>)
    requires !p.Needle?
    ensures
      var r := FirstIndex(p, cs);
      && (r.Some? ==> Accepts(p, cs[r.value]) && forall j :: 0 <= j < r.value ==> !Accepts(p, cs[j]))
      && (r.None? ==> forall j :: 0 <= j < |cs| ==> !Accepts(p, cs[j]))
    decreases |cs|
  {
    if |cs| > 0 && !Accepts(p, cs[0]) {
      FirstIndexCorrect(p, cs[1..]);
      assert forall j :: 1 <= j < |cs| ==> cs[j] == cs[1..][j - 1];
    }
  }

  /** Reference: the index of the last scalar the pattern accepts. */
  function LastIndex(p: Pattern, cs: seq<Scalar>): (r: Option<nat>)
    requires !p.Needle?
    ensures r.Some? ==> r.value < |cs|
    decreases |cs|
  {
    if |cs| == 0 then None
    else if Accepts(p, cs[|cs| - 1]) then Some(|cs| - 1)
    else LastIndex(p, cs[..|cs| - 1])
  }

  /** `LastIndex` finds an accepted scalar with none accepted after it, and finds none only when none is accepted. */
  lemma {:induction false} LastIndexCorrect(p: Pattern, cs: seq<Scalar>)
    requires !p.Needle?
    ensures
      var r := LastIndex(p, cs);
      && (r.Some? ==> Accepts(p, cs[r.value]) && forall j :: r.value < j < |cs| ==> !Accepts(p, cs[j]))
      && (r.None? ==> forall j :: 0 <= j < |cs| ==> !Accepts(p, cs[j]))
    decreases |cs|
  {
    if |cs| > 0 && !Accepts(p, cs[|cs| - 1]) {
      LastIndexCorrect(p, cs[..|cs| - 1]);
      assert forall j :: 0 <= j < |cs| - 1 ==> cs[j] == cs[..|cs| - 1][j];
    }
  }

  /** The span of the scalar at the index found, if any. */
  function SpanAt(e: Encoding, cs: seq<Scalar>, i: Option<nat>): Option<Span>
    requires HasChars(e) && (i.Some? ==> i.value < |cs|)
  {
    match i
    case None => None
    case Some(k) => Some(ScalarSpan(e, cs, k))
  }

  /** Reference: where scalar `i` lies in the encoding of `cs`. */
  function ScalarSpan(e: Encoding, cs: seq<Scalar>, i: nat): Span
    requires HasChars(e) && i < |cs|
  {
    Span(|EncodeAll(e, cs[..i])|, |EncodeChar(e, cs[i])|)
  }

  /** The span of scalar `i` holds exactly its encoding. */
  lemma ScalarSpanContents(e: Encoding, cs: seq<Scalar>, i: nat)
    requires HasChars(e) && i < |cs|
    ensures ScalarSpan(e, cs, i).End() <= |EncodeAll(e, cs)|
    ensures
      var sp := ScalarSpan(e, cs, i);
      EncodeAll(e, cs)[sp.start..sp.End()] == EncodeChar(e, cs[i])
  {
    assert cs == cs[..i] + [cs[i]] + cs[i + 1..];
    EncodeAllConcat(e, cs[..i] + [cs[i]], cs[i + 1..]);
    EncodeAllConcat(e, cs[..i], [cs[i]]);
    EncodeAllSingle(e, cs[i]);
  }

  /** Scalar `i + 1` of `cs` is scalar `i` of its tail, behind the first scalar's encoding. */
  lemma ScalarSpanTail(e: Encoding, cs: seq<Scalar>, i: nat)
    requires HasChars(e) && i + 1 < |cs|
    ensures
      var sp := ScalarSpan(e, cs[1..], i);
      ScalarSpan(e, cs, i + 1) == Span(|EncodeChar(e, cs[0])| + sp.start, sp.len)
    ensures Some(ScalarSpan(e, cs, i + 1)) == Shift(Some(ScalarSpan(e, cs[1..], i)), |EncodeChar(e, cs[0])|)
  {
    assert cs[..i + 1][1..] == cs[1..][..i];
    assert cs[..i + 1][0] == cs[0];
  }

  /** One step of the forward loop over a scalar's encoding followed by more text. */
  lemma FirstScalarCons(e: Encoding, p: Pattern, c: Scalar, tail: seq<int>)
    requires HasChars(e) && !p.Needle? && UnitsOk(e, tail)
    ensures UnitsOk(e, EncodeChar(e, c) + tail)
    ensures
      FirstScalar(e, p, EncodeChar(e, c) + tail) ==
        if Accepts(p, c) then Some(Span(0, |EncodeChar(e, c)|))
        else Shift(FirstScalar(e, p, tail), |EncodeChar(e, c)|)
  {
    DecodeBufEncode(e, c, tail);
  }

  /** On the encoding of any list of scalars, `first_match` is the span of the first accepted scalar. */
  lemma {:induction false} FirstScalarSpec(e: Encoding, p: Pattern, cs: seq<Scalar>)
    requires HasChars(e) && !p.Needle?
    ensures UnitsOk(e, EncodeAll(e, cs))
    ensures FirstScalar(e, p, EncodeAll(e, cs)) == SpanAt(e, cs, FirstIndex(p, cs))
    decreases |cs|
  {
    if |cs| > 0 {
      var tail := EncodeAll(e, cs[1..]);
      assert EncodeAll(e, cs) == EncodeChar(e, cs[0]) + tail;
      FirstScalarCons(e, p, cs[0], tail);
      if Accepts(p, cs[0]) {
        assert cs[..0] == [];
      } else {
        FirstScalarSpec(e, p, cs[1..]);
        FirstIndexTail(e, p, cs);
      }
    }
  }

  /** When the first scalar is not accepted, the reference span is the tail's, moved past the first encoding. */
  lemma FirstIndexTail(e: Encoding, p: Pattern, cs: seq<Scalar>)
    requires HasChars(e) && !p.Needle? && |cs| > 0 && !Accepts(p, cs[0])
    ensures SpanAt(e, cs, FirstIndex(p, cs)) == Shift(SpanAt(e, cs[1..], FirstIndex(p, cs[1..])), |EncodeChar(e, cs[0])|)
  {
    var t := FirstIndex(p, cs[1..]);
    assert FirstIndex(p, cs) == if t.None? then None else Some(t.value + 1);
    SpanAtTail(e, cs, t);
  }

  /** `SpanAt` of an index one past `t` in `cs` is `SpanAt` of `t` in `cs[1..]`, moved past the first scalar. */
  lemma SpanAtTail(e: Encoding, cs: seq<Scalar>, t: Option<nat>)
    requires HasChars(e) && |cs| > 0 && (t.Some? ==> t.value + 1 < |cs|)
    ensures
      SpanAt(e, cs, if t.None? then None else Some(t.value + 1)) ==
        Shift(SpanAt(e, cs[1..], t), |EncodeChar(e, cs[0])|)
  {
    if t.Some? {
      ScalarSpanTail(e, cs, t.value);
    }
  }

  /** One step of the backward loop over text followed by a scalar's encoding. */
  lemma LastScalarSnoc(e: Encoding, p: Pattern, init: seq<int>, c: Scalar)
    requires HasChars(e) && !p.Needle? && UnitsOk(e, init)
    ensures UnitsOk(e, init + EncodeChar(e, c))
    ensures
      LastScalar(e, p, init + EncodeChar(e, c)) ==
        if Accepts(p, c) then Some(Span(|init|, |EncodeChar(e, c)|)) else LastScalar(e, p, init)
  {
    var t := EncodeChar(e, c);
    DecodeBackEncode(e, init, c);
    match e {
      case Utf8 => LastScalarUnfold(e, p, init + t, c, init);
      case Utf16 => LastScalarUnfold(e, p, init + t, c, init);
      case Utf32 => LastScalarUnfold(e, p, init + t, c, init);
    }
    assert |init + t| - |init| == |t|;
  }

  /** One step of the backward loop, given what `decode_back` returned. */
  lemma LastScalarUnfold(e: Encoding, p: Pattern, s: seq<int>, c: Scalar, rest: seq<int>)
    requires HasChars(e) && !p.Needle? && UnitsOk(e, s) && DecodeBack(e, s) == Some((c, rest))
    ensures UnitsOk(e, rest)
    ensures LastScalar(e, p, s) == if Accepts(p, c) then Some(Span(|rest|, |s| - |rest|)) else LastScalar(e, p, rest)
  {
    assert UnitsOk(e, rest) by {
      UnitsOkSlice(e, s, 0, |rest|);
    }
  }

  /** The whole prefix up to and including the scalar at the index found, if any. */
  function PrefixAt(e: Encoding, cs: seq<Scalar>, i: Option<nat>): Option<Span>
    requires HasChars(e) && (i.Some? ==> i.value < |cs|)
  {
    match SpanAt(e, cs, i)
    case None => None
    case Some(sp) => Some(Span(0, sp.End()))
  }

  /** When the last scalar is not accepted, the reference spans are those of the text before it. */
  lemma LastIndexInit(e: Encoding, p: Pattern, cs: seq<Scalar>)
    requires HasChars(e) && !p.Needle? && |cs| > 0 && !Accepts(p, cs[|cs| - 1])
    ensures
      var k := |cs| - 1;
      SpanAt(e, cs, LastIndex(p, cs)) == SpanAt(e, cs[..k], LastIndex(p, cs[..k]))
  {
    var k := |cs| - 1;
    assert LastIndex(p, cs) == LastIndex(p, cs[..k]);
    SpanAtPrefix(e, cs, k, LastIndex(p, cs[..k]));
  }

  /** An index below `k` lies at the same place in the encoding of `cs[..k]` as in that of `cs`. */
  lemma SpanAtPrefix(e: Encoding, cs: seq<Scalar>, k: nat, t: Option<nat>)
    requires HasChars(e) && k <= |cs| && (t.Some? ==> t.value < k)
    ensures SpanAt(e, cs, t) == SpanAt(e, cs[..k], t)
  {
    if t.Some? {
      var i := t.value;
      assert cs[..k][..i] == cs[..i];
      assert cs[..k][i] == cs[i];
    }
  }

  /** When the last scalar is accepted, it is the one the reference finds. */
  lemma LastIndexLast(e: Encoding, p: Pattern, cs: seq<Scalar>)
    requires HasChars(e) && !p.Needle? && |cs| > 0 && Accepts(p, cs[|cs| - 1])
    ensures
      var k := |cs| - 1;
      SpanAt(e, cs, LastIndex(p, cs)) == Some(Span(|EncodeAll(e, cs[..k])|, |EncodeChar(e, cs[k])|))
  {
  }

  /** On the encoding of any list of scalars, `last_match` is the span of the last accepted scalar. */
  lemma {:induction false} LastScalarSpec(e: Encoding, p: Pattern, cs: seq<Scalar>)
    requires HasChars(e) && !p.Needle?
    ensures UnitsOk(e, EncodeAll(e, cs))
    ensures LastScalar(e, p, EncodeAll(e, cs)) == SpanAt(e, cs, LastIndex(p, cs))
    decreases |cs|
  {
    if |cs| > 0 {
      var k := |cs| - 1;
      EncodeAllSnoc(e, cs);
      LastScalarSnoc(e, p, EncodeAll(e, cs[..k]), cs[k]);
      if Accepts(p, cs[k]) {
        LastIndexLast(e, p, cs);
      } else {
        LastScalarSpec(e, p, cs[..k]);
        LastIndexInit(e, p, cs);
      }
    }
  }

  /**
   * On any input the written backward loop stops where the intended one
   * does, but reports the whole prefix that ends with the match.
   */
  lemma {:induction false} LastScalarAsWrittenPrefix(e: Encoding, p: Pattern, s: seq<int>)
    requires HasChars(e) && !p.Needle? && UnitsOk(e, s)
    ensures
      LastScalarAsWritten(e, p, s) ==
        match LastScalar(e, p, s)
        case None => None
        case Some(m) => Some(Span(0, m.End()))
    decreases |s|
  {
    match DecodeBack(e, s)
    case None =>
    case Some((c, rest)) =>
      if !Accepts(p, c) {
        UnitsOkSlice(e, s, 0, |rest|);
        LastScalarAsWrittenPrefix(e, p, rest);
      }
  }

  /**
   * On valid text the written backward loop reports the whole prefix that
   * ends with the last accepted scalar, instead of that scalar alone.
   */
  lemma LastScalarAsWrittenSpec(e: Encoding, p: Pattern, cs: seq<Scalar>)
    requires HasChars(e) && !p.Needle?
    ensures UnitsOk(e, EncodeAll(e, cs))
    ensures LastScalarAsWritten(e, p, EncodeAll(e, cs)) == PrefixAt(e, cs, LastIndex(p, cs))
  {
    LastScalarSpec(e, p, cs);
    LastScalarAsWrittenPrefix(e, p, EncodeAll(e, cs));
  }

  /** 'b' in UTF-8 "ab": the written loop returns "ab", the intended one "b". */
  lemma LastScalarAsWrittenCounterexample()
    ensures UnitsOk(Utf8, [0x61, 0x62])
    ensures LastScalarAsWritten(Utf8, Char(0x62), [0x61, 0x62]) == Some(Span(0, 2))
    ensures LastScalar(Utf8, Char(0x62), [0x61, 0x62]) == Some(Span(1, 1))
  {
    var cs: seq<Scalar> := [0x61, 0x62];
    assert EncodeAll(Utf8, cs[1..]) == [0x62] by {
      assert cs[1..][1..] == [];
    }
    assert EncodeAll(Utf8, cs) == [0x61, 0x62];
    LastScalarAsWrittenSpec(Utf8, Char(0x62), cs);
    LastScalarSpec(Utf8, Char(0x62), cs);
    assert cs[..1] == [0x61];
    assert cs[..1][1..] == [];
  }

  /** `first_match_unchecked` agrees with `first_match` on valid text. */
  lemma {:induction false} FirstScalarUncheckedAgrees(e: Encoding, p: Pattern, s: seq<int>)
    requires HasChars(e) && !p.Needle? && Valid(e, s)
    ensures FirstScalarUnchecked(e, p, s) == FirstScalar(e, p, s)
    decreases |s|
  {
    if |s| > 0 {
      var (c, rest) := DecodeBufUnchecked(e, s);
      FirstScalarStep(e, p, s);
      FirstScalarUncheckedStep(e, p, s);
      if !Accepts(p, c) {
        FirstScalarUncheckedAgrees(e, p, rest);
      }
    }
  }

  /** One step of the checked forward loop on valid text, in terms of `decode_buf_unchecked`. */
  lemma FirstScalarStep(e: Encoding, p: Pattern, s: seq<int>)
    requires HasChars(e) && !p.Needle? && Valid(e, s) && |s| > 0
    ensures
      var (c, rest) := DecodeBufUnchecked(e, s);
      && Valid(e, rest)
      && FirstScalar(e, p, s) == if Accepts(p, c) then Some(Span(0, EncodingLen(e, c))) else Shift(FirstScalar(e, p, rest), |s| - |rest|)
  {
    var (c, rest) := DecodeBufUnchecked(e, s);
    assert DecodeBuf(e, s) == Some((c, rest));
  }

  /** One step of the unchecked forward loop, unfolded. */
  lemma FirstScalarUncheckedStep(e: Encoding, p: Pattern, s: seq<int>)
    requires HasChars(e) && !p.Needle? && Valid(e, s) && |s| > 0
    ensures
      var (c, rest) := DecodeBufUnchecked(e, s);
      && Valid(e, rest)
      && FirstScalarUnchecked(e, p, s) ==
        if Accepts(p, c) then Some(Span(0, EncodingLen(e, c))) else Shift(FirstScalarUnchecked(e, p, rest), |s| - |rest|)
  {
  }

  /**
   * The value the as-written UTF-16 `decode_buf_unchecked` gives for the
   * scalar `c` (src/utf.rs:225): a scalar stored as a pair comes out 0x10000 low.
   */
  function Lowered(c: Scalar): int {
    if c >= 0x1_0000 then c - 0x1_0000 else c
  }

  /** The scalars that the as-written decoder turns into `d`: `d` itself below 0x10000, and `d + 0x10000`. */
  function LoweredTo(d: Scalar): (r: seq<Scalar>)
    ensures forall c: Scalar :: c in r <==> Lowered(c) == d
  {
    (if d < 0x1_0000 then [d] else []) + (if d + 0x1_0000 <= 0x10_FFFF then [d + 0x1_0000] else [])
  }

  /**
   * `first_match_unchecked` of a `char` pattern on UTF-16 text as written
   * (src/pattern.rs:103-115): each value comes from the as-written
   * `decode_buf_unchecked`, which leaves out the 0x10000 offset of a pair, and
   * is compared with the wanted `char`; the match is cut with the as-written
   * `encoding_len`, and that cut panics past the end of the slice.
   */
  function FirstCharUnchecked16AsWritten(d: Scalar, s: seq<int>): (r: Checked<Option<Span>>)
    requires Valid(Utf16, s)
    ensures r.Value? && r.value.Some? ==> r.value.value.End() <= |s|
    decreases |s|
  {
    if |s| == 0 then Value(None)
    else
      var (v, rest) := Utf16Codec.DecodeBufUncheckedAsWritten(s);
      Utf16Codec.DecodeBufUncheckedAsWrittenOffset(s);
      if v == d then
        var n := EncodingLenAsWritten(Utf16, d);
        if n <= |s| then Value(Some(Span(0, n))) else Panic
      else
        assert rest == DecodeBufUnchecked(Utf16, s).1;
        ShiftChecked(FirstCharUnchecked16AsWritten(d, rest), |s| - |rest|)
  }

  /** One step of the as-written UTF-16 `char` search, in terms of the corrected decoder. */
  lemma FirstCharUnchecked16AsWrittenStep(d: Scalar, s: seq<int>)
    requires Valid(Utf16, s) && |s| > 0
    ensures
      var (c, rest) := DecodeBufUnchecked(Utf16, s);
      var n := EncodingLenAsWritten(Utf16, d);
      && Valid(Utf16, rest)
      && FirstCharUnchecked16AsWritten(d, s) ==
        if Lowered(c) == d then (if n <= |s| then Value(Some(Span(0, n))) else Panic)
        else ShiftChecked(FirstCharUnchecked16AsWritten(d, rest), |s| - |rest|)
  {
    var (c, rest) := DecodeBufUnchecked(Utf16, s);
    assert (c, rest) == Utf16Codec.DecodeBufUnchecked(s);
    FirstCharUnchecked16AsWrittenUnfold(d, s);
    Utf16Codec.DecodeBufUncheckedAsWrittenOffset(s);
    assert Utf16Codec.DecodeBufUncheckedAsWritten(s).0 == Lowered(c);
  }

  /** `FirstCharUnchecked16AsWritten` unfolded once: the remainder after a step is valid text. */
  lemma FirstCharUnchecked16AsWrittenUnfold(d: Scalar, s: seq<int>)
    requires Valid(Utf16, s) && |s| > 0
    ensures
      var (v, rest) := Utf16Codec.DecodeBufUncheckedAsWritten(s);
      var n := EncodingLenAsWritten(Utf16, d);
      && rest == DecodeBufUnchecked(Utf16, s).1
      && Valid(Utf16, rest)
      && FirstCharUnchecked16AsWritten(d, s) ==
        if v == d then (if n <= |s| then Value(Some(Span(0, n))) else Panic)
        else ShiftChecked(FirstCharUnchecked16AsWritten(d, rest), |s| - |rest|)
  {
    Utf16Codec.DecodeBufUncheckedAsWrittenOffset(s);
  }

  /** How the as-written search for `d` relates to a corrected match `m` on `s`. */
  predicate LoweredRelated(d: Scalar, s: seq<int>, m: Option<Span>, w: Checked<Option<Span>>) {
    var n := EncodingLenAsWritten(Utf16, d);
    match m
    case None => w == Value(None)
    case Some(m) => w == if m.start + n <= |s| then Value(Some(Span(m.start, n))) else Panic
  }

  /** Shifting both matches by the units of one skipped scalar keeps them related. */
  lemma LoweredRelatedShift(d: Scalar, s: seq<int>, rest: seq<int>, m: Option<Span>, w: Checked<Option<Span>>)
    requires |rest| <= |s| && LoweredRelated(d, rest, m, w)
    ensures LoweredRelated(d, s, Shift(m, |s| - |rest|), ShiftChecked(w, |s| - |rest|))
  {
  }

  /**
   * As written, searching UTF-16 text for `d` finds the first scalar that the
   * decoder lowers to `d`, which is the corrected search for the set
   * `LoweredTo(d)`, and cuts the as-written `encoding_len` of `d` there.
   */
  lemma {:induction false} FirstCharUnchecked16AsWrittenIs(d: Scalar, s: seq<int>)
    requires Valid(Utf16, s)
    ensures LoweredRelated(d, s, FirstScalarUnchecked(Utf16, AnyOf(LoweredTo(d)), s), FirstCharUnchecked16AsWritten(d, s))
    decreases |s|
  {
    if |s| > 0 {
      var p := AnyOf(LoweredTo(d));
      var (c, rest) := DecodeBufUnchecked(Utf16, s);
      FirstScalarUncheckedStep(Utf16, p, s);
      FirstCharUnchecked16AsWrittenStep(d, s);
      assert Accepts(p, c) <==> Lowered(c) == d;
      if !Accepts(p, c) {
        FirstCharUnchecked16AsWrittenIs(d, rest);
        LoweredRelatedShift(d, s, rest, FirstScalarUnchecked(Utf16, p, rest), FirstCharUnchecked16AsWritten(d, rest));
      }
    }
  }

  /**
   * On the valid text `D83D DE00` (U+1F600), searching for U+F600 as written
   * matches the lone high surrogate `[D83D]` and leaves the lone low
   * surrogate `[DE00]`, while searching for U+1F600 finds nothing; the
   * corrected search does the opposite.
   */
  lemma FirstCharUnchecked16AsWrittenCounterexample()
    ensures Valid(Utf16, [0xD83D, 0xDE00])
    ensures FirstCharUnchecked16AsWritten(0xF600, [0xD83D, 0xDE00]) == Value(Some(Span(0, 1)))
    ensures !Valid(Utf16, [0xD83D]) && !Valid(Utf16, [0xDE00])
    ensures FirstScalarUnchecked(Utf16, Char(0xF600), [0xD83D, 0xDE00]) == None
    ensures FirstCharUnchecked16AsWritten(0x1F600, [0xD83D, 0xDE00]) == Value(None)
    ensures FirstScalarUnchecked(Utf16, Char(0x1F600), [0xD83D, 0xDE00]) == Some(Span(0, 2))
  {
    var s: seq<int> := [0xD83D, 0xDE00];
    Utf16Codec.DecodeBufUncheckedAsWrittenCounterexample();
    assert Rfc2781.DecodeAll([0xD83D, 0xDE00]) == [0x1F600];
  }

  /** `last_match_unchecked` agrees with `last_match` on valid text. */
  lemma {:induction false} LastScalarUncheckedAgrees(e: Encoding, p: Pattern, s: seq<int>)
    requires HasChars(e) && !p.Needle? && Valid(e, s)
    ensures LastScalarUnchecked(e, p, s) == LastScalar(e, p, s)
    decreases |s|
  {
    if |s| > 0 {
      var (c, rest) := DecodeBackUnchecked(e, s);
      LastScalarStep(e, p, s);
      LastScalarUncheckedStep(e, p, s);
      if !Accepts(p, c) {
        LastScalarUncheckedAgrees(e, p, rest);
      }
    }
  }

  /** One step of the checked backward loop on valid text, in terms of `decode_back_unchecked`. */
  lemma LastScalarStep(e: Encoding, p: Pattern, s: seq<int>)
    requires HasChars(e) && !p.Needle? && Valid(e, s) && |s| > 0
    ensures
      var (c, rest) := DecodeBackUnchecked(e, s);
      && UnitsOk(e, rest)
      && LastScalar(e, p, s) == if Accepts(p, c) then Some(Span(|rest|, |s| - |rest|)) else LastScalar(e, p, rest)
  {
    var (c, rest) := DecodeBackUnchecked(e, s);
    LastScalarUnfold(e, p, s, c, rest);
  }

  /** One step of the unchecked backward loop, unfolded. */
  lemma LastScalarUncheckedStep(e: Encoding, p: Pattern, s: seq<int>)
    requires HasChars(e) && !p.Needle? && Valid(e, s) && |s| > 0
    ensures
      var (c, rest) := DecodeBackUnchecked(e, s);
      LastScalarUnchecked(e, p, s) ==
        if Accepts(p, c) then Some(Span(|rest|, |s| - |rest|)) else LastScalarUnchecked(e, p, rest)
  {
  }

  // ---------------------------------------------------------------------
  // The pattern interface
  // ---------------------------------------------------------------------

  /** `Pattern::first_match`. */
  function FirstMatch(e: Encoding, p: Pattern, s: seq<int>): (r: Option<Span>)
    requires Searchable(e, p) && UnitsOk(e, s)
    ensures r.Some? ==> r.value.End() <= |s|
  {
    if p.Needle? then FirstNeedle(p.units, s) else FirstScalar(e, p, s)
  }

  /** `Pattern::first_match_unchecked`; the substring pattern keeps the default, which calls `first_match`. */
  function FirstMatchUnchecked(e: Encoding, p: Pattern, s: seq<int>): Option<Span>
    requires Searchable(e, p) && Valid(e, s)
  {
    if p.Needle? then FirstNeedle(p.units, s) else FirstScalarUnchecked(e, p, s)
  }

  /** `RevPattern::last_match` (with the corrected loops). */
  function LastMatch(e: Encoding, p: Pattern, s: seq<int>): (r: Option<Span>)
    requires Searchable(e, p) && UnitsOk(e, s)
    ensures r.Some? ==> r.value.End() <= |s|
  {
    if p.Needle? then LastNeedle(p.units, s) else LastScalar(e, p, s)
  }

  /** `RevPattern::last_match_unchecked` (with the corrected loops). */
  function LastMatchUnchecked(e: Encoding, p: Pattern, s: seq<int>): Option<Span>
    requires Searchable(e, p) && Valid(e, s)
  {
    if p.Needle? then LastNeedle(p.units, s) else LastScalarUnchecked(e, p, s)
  }

  /** The unchecked searches agree with the checked ones on valid text. */
  lemma UncheckedAgrees(e: Encoding, p: Pattern, s: seq<int>)
    requires Searchable(e, p) && Valid(e, s)
    ensures FirstMatchUnchecked(e, p, s) == FirstMatch(e, p, s)
    ensures LastMatchUnchecked(e, p, s) == LastMatch(e, p, s)
  {
    if !p.Needle? {
      FirstScalarUncheckedAgrees(e, p, s);
      LastScalarUncheckedAgrees(e, p, s);
    }
  }

  /**
   * On valid text a scalar pattern's first and last matches are the spans
   * of the first and last accepted scalars, and each holds exactly that
   * scalar's encoding.
   */
  lemma ScalarMatchCorrect(e: Encoding, p: Pattern, s: seq<int>)
    requires HasChars(e) && !p.Needle? && Valid(e, s)
    ensures
      var cs := Scalars(e, s);
      var f := FirstMatch(e, p, s);
      && (f.Some? <==> FirstIndex(p, cs).Some?)
      && (f.Some? ==>
            && f.value == ScalarSpan(e, cs, FirstIndex(p, cs).value)
            && s[f.value.start..f.value.End()] == EncodeChar(e, cs[FirstIndex(p, cs).value]))
    ensures
      var cs := Scalars(e, s);
      var l := LastMatch(e, p, s);
      && (l.Some? <==> LastIndex(p, cs).Some?)
      && (l.Some? ==>
            && l.value == ScalarSpan(e, cs, LastIndex(p, cs).value)
            && s[l.value.start..l.value.End()] == EncodeChar(e, cs[LastIndex(p, cs).value]))
  {
    var cs := Scalars(e, s);
    FirstScalarSpec(e, p, cs);
    LastScalarSpec(e, p, cs);
    if FirstIndex(p, cs).Some? {
      ScalarSpanContents(e, cs, FirstIndex(p, cs).value);
    }
    if LastIndex(p, cs).Some? {
      ScalarSpanContents(e, cs, LastIndex(p, cs).value);
    }
  }

  /**
   * The safety contract of `Pattern` and `RevPattern`: on valid text, with a
   * valid needle, every match is a subslice that is itself valid text.
   */
  lemma MatchValid(e: Encoding, p: Pattern, s: seq<int>)
    requires Searchable(e, p) && Valid(e, s)
    requires p.Needle? ==> Valid(e, p.units)
    ensures
      var f := FirstMatch(e, p, s);
      f.Some? ==> f.value.End() <= |s| && Valid(e, s[f.value.start..f.value.End()])
    ensures
      var l := LastMatch(e, p, s);
      l.Some? ==> l.value.End() <= |s| && Valid(e, s[l.value.start..l.value.End()])
  {
    if p.Needle? {
      NeedleMatchValid(e, p.units, s);
    } else {
      ScalarMatchValid(e, p, s);
    }
  }

  /** `MatchValid` for a substring: a match is a copy of the needle. */
  lemma NeedleMatchValid(e: Encoding, n: seq<int>, s: seq<int>)
    requires Valid(e, n)
    ensures
      var f := FirstNeedle(n, s);
      f.Some? ==> f.value.End() <= |s| && Valid(e, s[f.value.start..f.value.End()])
    ensures
      var l := LastNeedle(n, s);
      l.Some? ==> l.value.End() <= |s| && Valid(e, s[l.value.start..l.value.End()])
  {
    var f := FirstNeedle(n, s);
    if f.Some? {
      assert s[f.value.start..f.value.End()] == n;
    }
    var l := LastNeedle(n, s);
    if l.Some? {
      assert s[l.value.start..l.value.End()] == n;
    }
  }

  /** `MatchValid` for the scalar patterns: each match holds one encoded scalar. */
  lemma ScalarMatchValid(e: Encoding, p: Pattern, s: seq<int>)
    requires HasChars(e) && !p.Needle? && Valid(e, s)
    ensures
      var f := FirstMatch(e, p, s);
      f.Some? ==> f.value.End() <= |s| && Valid(e, s[f.value.start..f.value.End()])
    ensures
      var l := LastMatch(e, p, s);
      l.Some? ==> l.value.End() <= |s| && Valid(e, s[l.value.start..l.value.End()])
  {
    ScalarMatchCorrect(e, p, s);
    var cs := Scalars(e, s);
    if FirstIndex(p, cs).Some? {
      assert Valid(e, EncodeChar(e, cs[FirstIndex(p, cs).value]));
    }
    if LastIndex(p, cs).Some? {
      assert Valid(e, EncodeChar(e, cs[LastIndex(p, cs).value]));
    }
  }
}
