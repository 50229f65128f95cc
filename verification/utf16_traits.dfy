/**
 * The default (non-const) `CharTraits` for `UtfCharTraits<u16>`: the
 * surrogate-pairing check of `validate_range` and the two-ended
 * `validate_subrange` used when slicing text that is already known to be valid.
 */
module Utf16Traits {
  import opened Wrappers
  import opened Units
  import opened UtfErrors
  import opened Rfc2781

  /** The `while let` loop of `validate_range` from index `i`. */
  function Run(s: seq<U16>, i: nat): Outcome<UtfError>
    requires i <= |s|
    decreases |s| - i
  {
    if i == |s| then Pass
    else if IsHigh(s[i]) then
      if i + 1 == |s| then Fail(UtfError(i, None))
      else if !IsLow(s[i + 1]) then Fail(UtfError(i, Some(2)))
      else Run(s, i + 2)
    else if IsLow(s[i]) then Fail(UtfError(i, Some(1)))
    else Run(s, i + 1)
  }

  /** Well-formed text that has a well-formed prefix continues well-formed after it. */
  lemma WellFormedRest(s: seq<U16>, i: nat)
    requires i <= |s| && WellFormed(s) && WellFormed(s[..i])
    ensures WellFormed(s[i..])
  {
    WellFormedIsPaired(s);
    if i < |s| && IsLow(s[i]) {
      if i > 0 {
        assert s[..i][i - 1] == s[i - 1];
      }
      WellFormedIsPaired(s[..i]);
      assert false;
    }
    assert Boundary(s, i);
    SliceWellFormed(s, i, |s|);
    assert s[i..|s|] == s[i..];
  }

  /** After a well-formed prefix of well-formed text comes a unit that is not a low surrogate, and a high one is followed by a low one. */
  lemma WellFormedAt(s: seq<U16>, i: nat)
    requires i < |s| && WellFormed(s) && WellFormed(s[..i])
    ensures !IsLow(s[i])
    ensures IsHigh(s[i]) ==> i + 1 < |s| && IsLow(s[i + 1])
  {
    WellFormedRest(s, i);
    var r := s[i..];
    assert r[0] == s[i];
    if IsHigh(s[i]) {
      assert r[1] == s[i + 1];
    }
  }

  /** The shape of the error the loop reports. */
  predicate ErrorShape(s: seq<U16>, e: UtfError) {
    && e.pos < |s|
    && (e.len == None ==> e.pos == |s| - 1 && IsHigh(s[e.pos]))
    && (e.len == Some(2) ==> e.pos + 1 < |s| && IsHigh(s[e.pos]) && !IsLow(s[e.pos + 1]))
    && (e.len == Some(1) ==> IsLow(s[e.pos]))
    && (e.len == None || e.len == Some(1) || e.len == Some(2))
  }

  /** A well-formed prefix followed by a surrogate pair is a longer well-formed prefix. */
  lemma PairExtends(s: seq<U16>, i: nat)
    requires i + 1 < |s| && WellFormed(s[..i]) && IsHigh(s[i]) && IsLow(s[i + 1])
    ensures WellFormed(s[..i + 2])
  {
    var t := s[i..i + 2];
    assert t[0] == s[i] && t[1] == s[i + 1] && t[2..] == [];
    WellFormedConcat(s[..i], t);
    assert s[..i] + t == s[..i + 2];
  }

  /** A well-formed prefix followed by a unit outside the surrogate range is a longer well-formed prefix. */
  lemma SingleExtends(s: seq<U16>, i: nat)
    requires i < |s| && WellFormed(s[..i]) && !IsHigh(s[i]) && !IsLow(s[i])
    ensures WellFormed(s[..i + 1])
  {
    var t := s[i..i + 1];
    assert t[0] == s[i] && t[1..] == [];
    WellFormedConcat(s[..i], t);
    assert s[..i] + t == s[..i + 1];
  }

  lemma {:induction false} RunCorrect(s: seq<U16>, i: nat)
    requires i <= |s| && WellFormed(s[..i])
    ensures Run(s, i).Pass? <==> WellFormed(s)
    ensures Run(s, i).Fail? ==>
      var e := Run(s, i).error;
      i <= e.pos && ErrorShape(s, e) && WellFormed(s[..e.pos])
    decreases |s| - i
  {
    if i == |s| {
      assert s[..i] == s;
    } else {
      if IsHigh(s[i]) && i + 1 < |s| && IsLow(s[i + 1]) {
        PairExtends(s, i);
        RunCorrect(s, i + 2);
      } else if !IsHigh(s[i]) && !IsLow(s[i]) {
        SingleExtends(s, i);
        RunCorrect(s, i + 1);
      } else if WellFormed(s) {
        WellFormedAt(s, i);
      }
    }
  }

  /**
   * `validate_range`: `Pass` exactly for correctly paired surrogates (section
   * 2.2 of RFC 2781); otherwise the error is at the first unit that breaks
   * the pairing, with the shape the source gives it: a trailing high surrogate
   * is `{pos, None}`, a high surrogate followed by anything but a low one is
   * `{pos, Some(2)}`, a lone low surrogate is `{pos, Some(1)}`.
   */
  function ValidateRange(s: seq<U16>): (r: Outcome<UtfError>)
    ensures r.Pass? <==> WellFormed(s)
    ensures r.Pass? <==> Paired(s)
    ensures r.Fail? ==> ErrorShape(s, r.error) && WellFormed(s[..r.error.pos])
  {
    assert s[..0] == [];
    RunCorrect(s, 0);
    WellFormedIffPaired(s);
    Run(s, 0)
  }

  /**
   * `validate_subrange`: a slice that starts with a low surrogate or ends with
   * a high surrogate was cut inside a pair. The const-feature version is the
   * same text.
   */
  function ValidateSubrange(s: seq<U16>): (r: Outcome<UtfError>)
    ensures r == Fail(UtfError(0, Some(1))) <==> |s| > 0 && IsLow(s[0])
    ensures |s| > 0 ==> (r == Fail(UtfError(|s| - 1, None)) <==> !IsLow(s[0]) && IsHigh(s[|s| - 1]))
    ensures r.Pass? <==> |s| == 0 || (!IsLow(s[0]) && !IsHigh(s[|s| - 1]))
  {
    if |s| > 0 && IsLow(s[0]) then Fail(UtfError(0, Some(1)))
    else if |s| > 0 && IsHigh(s[|s| - 1]) then Fail(UtfError(|s| - 1, None))
    else Pass
  }

  /** On any slice of well-formed text the two-ended check agrees with `validate_range`. */
  lemma SubrangeCorrect(b: seq<U16>, lo: nat, hi: nat)
    requires WellFormed(b) && lo <= hi <= |b|
    ensures ValidateSubrange(b[lo..hi]).Pass? <==> WellFormed(b[lo..hi])
    ensures ValidateSubrange(b[lo..hi]).Pass? <==> ValidateRange(b[lo..hi]).Pass?
  {
    var t := b[lo..hi];
    SliceWellFormed(b, lo, hi);
    if lo < hi {
      WellFormedIsPaired(b);
      assert t[0] == b[lo];
      assert t[|t| - 1] == b[hi - 1];
    }
  }

  /** The contract of `validate_subrange`: it succeeds wherever `validate_range` does. */
  lemma SubrangeAcceptsValid(s: seq<U16>)
    requires ValidateRange(s).Pass?
    ensures ValidateSubrange(s).Pass?
  {
    SubrangeCorrect(s, 0, |s|);
    assert s[0..|s|] == s;
  }
}
