/**
 * The const-feature `CharTraits` for `UtfCharTraits<u16>`: a hand-written
 * surrogate-pairing loop. As written it does not advance past a unit outside
 * the surrogates and does not step over the low half of a pair, so it is
 * modelled with an iteration budget (`fuel`; `None` = budget exhausted).
 * Its `validate_subrange` is the same text as the default one
 * (`Utf16Traits.ValidateSubrange`).
 */
module ConstUtf16 {
  import opened Wrappers
  import opened Units
  import opened UtfErrors
  import opened Rfc2781
  import Utf16Traits

  /** The guard `!(0xDC00 <= c) && (c <= 0xDFFF)` as Rust parses it: `!` binds to the first comparison only. */
  predicate NotLowAsWritten(c: U16) {
    !(0xDC00 <= c) && c <= 0xDFFF
  }

  /** The guard as evidently intended: `c` is not a low surrogate. */
  predicate NotLow(c: U16) {
    !(0xDC00 <= c && c <= 0xDFFF)
  }

  /** As parsed, the guard only asks whether `c` lies below the low surrogates, so it lets everything above them through. */
  lemma GuardPrecedence(c: U16)
    ensures NotLowAsWritten(c) <==> c < 0xDC00
    ensures NotLowAsWritten(c) ==> NotLow(c)
    ensures NotLow(c) && !NotLowAsWritten(c) <==> c > 0xDFFF
  {
  }

  /** The `while i < buf.len()` loop of `validate_range` as written, from index `i`. */
  function RangeAsWritten(s: seq<U16>, i: nat, fuel: nat): Option<Outcome<UtfError>>
    requires i <= |s|
    decreases fuel
  {
    if i >= |s| then Some(Pass)
    else if fuel == 0 then None
    else
      var c := s[i];
      if IsHigh(c) then
        if i + 1 >= |s| then Some(Fail(UtfError(i + 1, None)))
        else if NotLowAsWritten(s[i + 1]) then Some(Fail(UtfError(i + 1, Some(2))))
        else RangeAsWritten(s, i + 1, fuel - 1)
      else if IsLow(c) then Some(Fail(UtfError(i, Some(1))))
      else RangeAsWritten(s, i, fuel - 1)
  }

  /** As written, the loop never accepts a non-empty buffer. */
  lemma {:induction false} RangeAsWrittenNeverPasses(s: seq<U16>, i: nat, fuel: nat)
    requires i < |s|
    ensures RangeAsWritten(s, i, fuel) != Some(Pass)
    decreases fuel
  {
    if fuel > 0 {
      if IsHigh(s[i]) && i + 1 < |s| && !NotLowAsWritten(s[i + 1]) {
        RangeAsWrittenNeverPasses(s, i + 1, fuel - 1);
      } else if !IsHigh(s[i]) && !IsLow(s[i]) {
        RangeAsWrittenNeverPasses(s, i, fuel - 1);
      }
    }
  }

  /** A unit outside the surrogates at the current index keeps the loop there forever. */
  lemma {:induction false} RangeAsWrittenStuck(s: seq<U16>, i: nat, fuel: nat)
    requires i < |s| && !IsHigh(s[i]) && !IsLow(s[i])
    ensures RangeAsWritten(s, i, fuel) == None
    decreases fuel
  {
    if fuel > 0 {
      RangeAsWrittenStuck(s, i, fuel - 1);
    }
  }

  /**
   * "A" never finishes; a valid pair is reported as a lone low surrogate; a
   * high surrogate followed by U+E000 slips past the guard and then never finishes.
   */
  lemma RangeAsWrittenCounterexamples(fuel: nat)
    ensures WellFormed([0x41]) && RangeAsWritten([0x41], 0, fuel) == None
    ensures WellFormed([0xD83D, 0xDE00])
    ensures RangeAsWritten([0xD83D, 0xDE00], 0, fuel + 2) == Some(Fail(UtfError(1, Some(1))))
    ensures !WellFormed([0xD800, 0xE000]) && RangeAsWritten([0xD800, 0xE000], 0, fuel + 1) == None
  {
    var a: seq<U16> := [0x41];
    assert a[1..] == [];
    RangeAsWrittenStuck(a, 0, fuel);
    var b: seq<U16> := [0xD83D, 0xDE00];
    assert b[2..] == [];
    var c: seq<U16> := [0xD800, 0xE000];
    RangeAsWrittenStuck(c, 1, fuel);
  }

  /**
   * `validate_range` with the evident intent: the index advances past every
   * unit and pair, and the guard tests for a low surrogate as a whole. The
   * error positions are the const version's own: a trailing high surrogate is
   * `{len, None}`, a high surrogate followed by anything but a low one is
   * `{i + 1, Some(2)}` where `i + 1` indexes the offending unit, a lone low
   * surrogate is `{i, Some(1)}`.
   */
  method ValidateRange(s: seq<U16>) returns (r: Outcome<UtfError>)
    ensures r.Pass? <==> WellFormed(s)
    ensures r.Pass? <==> Utf16Traits.ValidateRange(s).Pass?
    ensures r.Fail? && r.error.len == None ==> r.error.pos == |s| && IsHigh(s[|s| - 1])
    ensures r.Fail? && r.error.len == Some(2) ==>
      0 < r.error.pos < |s| && IsHigh(s[r.error.pos - 1]) && !IsLow(s[r.error.pos])
    ensures r.Fail? && r.error.len == Some(1) ==> r.error.pos < |s| && IsLow(s[r.error.pos])
    ensures r.Fail? ==> r.error.len == None || r.error.len == Some(1) || r.error.len == Some(2)
    ensures r.Fail? ==> forall q :: r.error.pos < q <= |s| ==> !WellFormed(s[..q])
  {
    var i := 0;
    assert s[..0] == [];
    while i < |s|
      invariant i <= |s| && WellFormed(s[..i])
      decreases |s| - i
    {
      var c := s[i];
      if 0xD800 <= c && c <= 0xDBFF {
        i := i + 1;
        if i >= |s| {
          NotWellFormedFrom(s, i - 1);
          return Fail(UtfError(i, None));
        }
        var d := s[i];
        if NotLow(d) {
          NotWellFormedFrom(s, i - 1);
          BrokenAt(s, i - 1);
          return Fail(UtfError(i, Some(2)));
        }
        ExtendPrefix(s, i - 1, 2);
        i := i + 1;
      } else if 0xDC00 <= c && c <= 0xDFFF {
        NotWellFormedFrom(s, i);
        BrokenAt(s, i);
        return Fail(UtfError(i, Some(1)));
      } else {
        ExtendPrefix(s, i, 1);
        i := i + 1;
      }
    }
    assert s[..i] == s;
    return Pass;
  }

  /** One more unit or pair at the end of a well-formed prefix keeps it well-formed. */
  lemma ExtendPrefix(s: seq<U16>, i: nat, w: nat)
    requires i + w <= |s| && WellFormed(s[..i])
    requires w == 1 ==> !IsHigh(s[i]) && !IsLow(s[i])
    requires w == 2 ==> IsHigh(s[i]) && IsLow(s[i + 1])
    requires w == 1 || w == 2
    ensures WellFormed(s[..i + w])
  {
    var t := s[i..i + w];
    assert t[0] == s[i];
    if w == 2 {
      assert t[1] == s[i + 1] && t[2..] == [];
    } else {
      assert t[1..] == [];
    }
    WellFormedConcat(s[..i], t);
    assert s[..i] + t == s[..i + w];
  }

  /** After a pairing failure at the end of a well-formed prefix, no longer prefix is well-formed. */
  lemma BrokenAt(s: seq<U16>, i: nat)
    requires i < |s| && WellFormed(s[..i])
    requires IsLow(s[i]) || (IsHigh(s[i]) && (i + 1 == |s| || !IsLow(s[i + 1])))
    ensures forall q :: i < q <= |s| ==> !WellFormed(s[..q])
  {
    forall q | i < q <= |s|
      ensures !WellFormed(s[..q])
    {
      var p := s[..q];
      assert p[..i] == s[..i] && p[i] == s[i];
      if i + 1 < q {
        assert p[i + 1] == s[i + 1];
      }
      NotWellFormedFrom(p, i);
    }
  }

  /** A pairing failure right after a well-formed prefix means the buffer is not well-formed. */
  lemma NotWellFormedFrom(s: seq<U16>, i: nat)
    requires i < |s| && WellFormed(s[..i])
    requires IsLow(s[i]) || (IsHigh(s[i]) && (i + 1 == |s| || !IsLow(s[i + 1])))
    ensures !WellFormed(s)
    ensures !Utf16Traits.ValidateRange(s).Pass?
  {
    if WellFormed(s) {
      Utf16Traits.WellFormedAt(s, i);
    }
  }
}
