/**
 * The const-feature `CharTraits` for `UtfCharTraits<u8>`: a hand-written
 * validation loop and a hand-written backward walk for `validate_subrange`.
 * Both loops have paths that do not advance their index, so the as-written
 * versions are modelled with an iteration budget (`fuel`); `None` means the
 * budget ran out, and a result that is `None` for every budget is a loop that
 * never ends.
 */
module ConstUtf8 {
  import opened Wrappers
  import opened Units
  import opened UtfErrors
  import opened Rfc3629
  import Utf8Traits

  /** Result of reading the continuation bytes after a lead byte. */
  datatype Follow = Read(last: nat) | Stop(error: UtfError)

  /**
   * Reads bytes `start + j .. start + need` after a lead at `start`, as the
   * unrolled `i += 1; if i < len ... else return Err` blocks do: running off
   * the end is `{pos, None}`, a byte that is not a continuation byte is
   * `{pos, Some(j)}`; on success `last` is the index of the last byte read.
   */
  function FollowConts(s: seq<Byte>, start: nat, j: nat, need: nat): (r: Follow)
    requires start < |s| && 1 <= j <= need + 1 && need <= 3 && start + j - 1 < |s|
    ensures r.Read? ==> r.last == start + need < |s|
    decreases need + 1 - j
  {
    if j > need then Read(start + need)
    else if start + j >= |s| then Stop(UtfError(start + j, None))
    else if !IsCont(s[start + j]) then Stop(UtfError(start + j, Some(j)))
    else FollowConts(s, start, j + 1, need)
  }

  /**
   * The `while i < buf.len()` loop of `validate_range` as written, from
   * index `i` with `fuel` iterations left. An ASCII byte `continue`s without
   * advancing, a byte `0xF8..0xFF` matches no branch, and after a multi-byte
   * lead the index is left on the last continuation byte.
   */
  function RangeAsWritten(s: seq<Byte>, i: nat, fuel: nat): Option<Outcome<UtfError>>
    requires i <= |s|
    decreases fuel
  {
    if i >= |s| then Some(Pass)
    else if fuel == 0 then None
    else
      var c := s[i];
      if c < 0x80 then RangeAsWritten(s, i, fuel - 1)
      else if IsCont(c) then Some(Fail(UtfError(i, Some(1))))
      else if 0xC0 <= c < 0xF8 then
        var need := if c < 0xE0 then 1 else if c < 0xF0 then 2 else 3;
        match FollowConts(s, i, 1, need)
        case Stop(e) => Some(Fail(e))
        case Read(l) => RangeAsWritten(s, l, fuel - 1)
      else RangeAsWritten(s, i, fuel - 1)
  }

  /** As written, the loop never accepts a non-empty buffer, whatever the budget. */
  lemma {:induction false} RangeAsWrittenNeverPasses(s: seq<Byte>, i: nat, fuel: nat)
    requires i < |s|
    ensures RangeAsWritten(s, i, fuel) != Some(Pass)
    decreases fuel
  {
    if fuel > 0 {
      var c := s[i];
      if c < 0x80 || c >= 0xF8 {
        RangeAsWrittenNeverPasses(s, i, fuel - 1);
      } else if !IsCont(c) {
        var need := if c < 0xE0 then 1 else if c < 0xF0 then 2 else 3;
        match FollowConts(s, i, 1, need)
        case Stop(_) =>
        case Read(l) => RangeAsWrittenNeverPasses(s, l, fuel - 1);
      }
    }
  }

  /** A buffer that starts with an ASCII byte keeps the loop at index 0 forever. */
  lemma {:induction false} RangeAsWrittenDivergesOnAscii(s: seq<Byte>, fuel: nat)
    requires |s| > 0 && s[0] < 0x80
    ensures RangeAsWritten(s, 0, fuel) == None
    decreases fuel
  {
    if fuel > 0 {
      RangeAsWrittenDivergesOnAscii(s, fuel - 1);
    }
  }

  /** The one-letter text "A" is well-formed, yet the loop never finishes on it; "é" is rejected at its second byte. */
  lemma RangeAsWrittenCounterexamples(fuel: nat)
    ensures WellFormed([0x41]) && RangeAsWritten([0x41], 0, fuel) == None
    ensures WellFormed([0xC3, 0xA9]) && RangeAsWritten([0xC3, 0xA9], 0, fuel + 2) == Some(Fail(UtfError(1, Some(1))))
  {
    var a: seq<Byte> := [0x41];
    assert a[..1] == a && a[1..] == [];
    assert ValidSeq(a);
    RangeAsWrittenDivergesOnAscii(a, fuel);
    var b: seq<Byte> := [0xC3, 0xA9];
    assert b[..2] == b && b[2..] == [];
    assert ValidSeq(b);
    assert FollowConts(b, 0, 1, 1) == Read(1);
  }

  /** A failed scan at a boundary of a well-formed prefix means the whole buffer is not well-formed. */
  lemma FailsAt(s: seq<Byte>, i: nat)
    requires i < |s| && WellFormed(s[..i]) && !Utf8Traits.ScanAt(s, i).Complete?
    ensures !WellFormed(s)
  {
    if WellFormed(s) {
      Utf8Traits.ScanAtWellFormed(s, i);
    }
  }

  /** A complete sequence at the end of a well-formed prefix extends it. */
  lemma ExtendPrefix(s: seq<Byte>, i: nat)
    requires i < |s| && WellFormed(s[..i])
    requires 0 < Width(s[i]) && i + Width(s[i]) <= |s| && ValidSeq(s[i..i + Width(s[i])])
    ensures WellFormed(s[..i + Width(s[i])])
  {
    var w := Width(s[i]);
    var front, seq1 := s[..i], s[i..i + w];
    assert front + seq1 == s[..i + w];
    Utf8Traits.ValidSeqWellFormed(seq1);
    WellFormedConcat(front, seq1);
  }

  /** A well-formed prefix that reaches past position `i` of a well-formed prefix holds the whole sequence at `i`. */
  lemma SequenceWithin(s: seq<Byte>, i: nat, t: nat)
    requires i < t <= |s| && WellFormed(s[..i]) && WellFormed(s[..t])
    ensures 0 < Width(s[i]) && i + Width(s[i]) <= t && ValidSeq(s[i..i + Width(s[i])])
  {
    var r := s[..t];
    assert r[..i] == s[..i];
    WellFormedRest(r, i);
    var q := r[i..];
    assert q[0] == s[i];
    WellFormedHead(q);
    assert q[..Width(s[i])] == s[i..i + Width(s[i])];
  }

  /** Before the end of a well-formed prefix, no continuation byte is itself preceded by a well-formed prefix. */
  lemma NoStrayBefore(s: seq<Byte>, i: nat)
    requires i <= |s| && WellFormed(s[..i])
    ensures forall t :: 0 <= t < i && WellFormed(s[..t]) ==> !IsCont(s[t])
  {
    forall t | 0 <= t < i && WellFormed(s[..t])
      ensures !IsCont(s[t])
    {
      SequenceWithin(s, t, i);
    }
  }

  /** Before the end of a well-formed prefix, a two-byte lead preceded by a well-formed prefix is followed by a continuation byte. */
  lemma NoBrokenPairBefore(s: seq<Byte>, i: nat)
    requires i <= |s| && WellFormed(s[..i])
    ensures forall t :: 0 <= t < i && t + 1 < |s| && WellFormed(s[..t]) && Width(s[t]) == 2 ==> IsCont(s[t + 1])
  {
    forall t | 0 <= t < i && t + 1 < |s| && WellFormed(s[..t]) && Width(s[t]) == 2
      ensures IsCont(s[t + 1])
    {
      SequenceWithin(s, t, i);
      assert s[t..t + 2][1] == s[t + 1];
    }
  }

  /** When the sequence at the end of a well-formed prefix is broken, no longer prefix is well-formed. */
  lemma BrokenAt(s: seq<Byte>, i: nat)
    requires i < |s| && WellFormed(s[..i]) && !Utf8Traits.ScanAt(s, i).Complete?
    ensures forall q :: i < q <= |s| ==> !WellFormed(s[..q])
  {
    forall q | i < q <= |s| && WellFormed(s[..q])
      ensures false
    {
      SequenceWithin(s, i, q);
    }
  }

  /**
   * What an error found at the sequence starting at `i`, after a
   * well-formed prefix, says about the whole buffer: it is not well-formed,
   * no prefix past the error is, and the two UTF-8 error positions the const
   * validator promises hold.
   */
  lemma FailureFacts(s: seq<Byte>, i: nat, err: UtfError)
    requires i < |s| && WellFormed(s[..i]) && !Utf8Traits.ScanAt(s, i).Complete?
    requires err.len == None ==> err.pos == |s|
    requires err.len != None ==> i <= err.pos < |s|
    requires IsCont(s[i]) ==> err == UtfError(i, Some(1))
    requires Width(s[i]) == 2 && i + 1 < |s| && !IsCont(s[i + 1]) ==> err == UtfError(i + 1, Some(1))
    ensures !WellFormed(s)
    ensures forall q :: err.pos < q <= |s| ==> !WellFormed(s[..q])
    ensures forall t :: 0 <= t < |s| && WellFormed(s[..t]) && IsCont(s[t]) ==> err == UtfError(t, Some(1))
    ensures forall t :: 0 <= t && t + 1 < |s| && WellFormed(s[..t]) && Width(s[t]) == 2 && !IsCont(s[t + 1]) ==>
      err == UtfError(t + 1, Some(1))
  {
    FailsAt(s, i);
    NoStrayBefore(s, i);
    NoBrokenPairBefore(s, i);
    BrokenAt(s, i);
  }

  /** In well-formed text no continuation byte or broken two-byte sequence follows a well-formed prefix. */
  lemma PassFacts(s: seq<Byte>)
    requires WellFormed(s)
    ensures forall t :: 0 <= t < |s| && WellFormed(s[..t]) ==> !IsCont(s[t])
    ensures forall t :: 0 <= t && t + 1 < |s| && WellFormed(s[..t]) && Width(s[t]) == 2 ==> IsCont(s[t + 1])
  {
    assert s[..|s|] == s;
    NoStrayBefore(s, |s|);
    NoBrokenPairBefore(s, |s|);
  }

  /**
   * One sequence of `validate_range` with the evident intent, at the lead
   * byte `i`: a stray continuation byte or bad lead is `{i, Some(1)}`; a bad
   * `j`-th following byte at `k` is `{k, Some(j)}`; a sequence cut off by the
   * end is `{len, None}`; a complete sequence is no error.
   */
  method CheckAt(s: seq<Byte>, i: nat) returns (err: Option<UtfError>)
    requires i < |s|
    ensures err.None? <==> Utf8Traits.ScanAt(s, i).Complete?
    ensures err.Some? && err.value.len == None ==> err.value.pos == |s|
    ensures err.Some? && err.value.len != None ==> i <= err.value.pos < |s| && 1 <= err.value.len.value <= 3
    ensures IsCont(s[i]) ==> err == Some(UtfError(i, Some(1)))
    ensures Width(s[i]) == 2 && i + 1 < |s| && !IsCont(s[i + 1]) ==> err == Some(UtfError(i + 1, Some(1)))
  {
    var c := s[i];
    var n := Width(c);
    if n == 0 {
      return Some(UtfError(i, Some(1)));
    }
    var j := 1;
    while j < n
      invariant 1 <= j <= n && i + j <= |s|
      invariant j > 1 ==> SecondOk(c, s[i + 1])
      invariant forall k :: i + 2 <= k < i + j ==> IsCont(s[k])
      decreases n - j
    {
      if i + j == |s| {
        return Some(UtfError(i + j, None));
      }
      var ok := if j == 1 then SecondOk(c, s[i + 1]) else IsCont(s[i + j]);
      if !ok {
        Utf8Traits.ValidSeqAt(s, i);
        return Some(UtfError(i + j, Some(j)));
      }
      j := j + 1;
    }
    Utf8Traits.ValidSeqAt(s, i);
    return None;
  }

  /**
   * `validate_range` with the evident intent: the index advances past every
   * sequence, and the ranges of section 4 of RFC 3629 are checked (the lead
   * bytes C0, C1 and F5 to FF and the restricted second bytes after E0, ED, F0
   * and F4). Errors are those of `CheckAt` at the first sequence that is not
   * complete.
   */
  method ValidateRange(s: seq<Byte>) returns (r: Outcome<UtfError>)
    ensures r.Pass? <==> WellFormed(s)
    ensures r.Pass? <==> Utf8Traits.ValidateRange(s).Pass?
    ensures r.Fail? ==> r.error.pos <= |s|
    ensures r.Fail? && r.error.len == None ==> r.error.pos == |s|
    ensures r.Fail? && r.error.len != None ==> r.error.pos < |s| && 1 <= r.error.len.value <= 3
    ensures r.Fail? ==> forall q :: r.error.pos < q <= |s| ==> !WellFormed(s[..q])
    ensures forall t :: 0 <= t < |s| && WellFormed(s[..t]) && IsCont(s[t]) ==> r == Fail(UtfError(t, Some(1)))
    ensures forall t :: 0 <= t && t + 1 < |s| && WellFormed(s[..t]) && Width(s[t]) == 2 && !IsCont(s[t + 1]) ==>
      r == Fail(UtfError(t + 1, Some(1)))
  {
    var i := 0;
    assert s[..0] == [];
    while i < |s|
      invariant i <= |s| && WellFormed(s[..i])
      decreases |s| - i
    {
      var err := CheckAt(s, i);
      if err.Some? {
        FailureFacts(s, i, err.value);
        return Fail(err.value);
      }
      ExtendPrefix(s, i);
      i := i + Width(s[i]);
    }
    assert s[..i] == s;
    PassFacts(s);
    return Pass;
  }

  /**
   * The backward walk of `validate_subrange` as written, at reversed index
   * `i` and buffer index `l`: a continuation byte `continue`s without moving.
   */
  function SubrangeLoop(s: seq<Byte>, i: nat, l: nat, fuel: nat): Option<Outcome<UtfError>>
    requires l < |s|
    decreases fuel
  {
    if i >= 3 then Some(Fail(UtfError(|s|, None)))
    else if fuel == 0 then None
    else if IsCont(s[l]) then SubrangeLoop(s, i, l, fuel - 1)
    else if (s[l] < 0x80 && i == 0) || (0xC0 <= s[l] <= 0xDF && i == 1) || i == 2 then Some(Pass)
    else if l == 0 then Some(Fail(UtfError(|s|, None)))
    else SubrangeLoop(s, i + 1, l - 1, fuel - 1)
  }

  /** `validate_subrange` as written. */
  function SubrangeAsWritten(s: seq<Byte>, fuel: nat): Option<Outcome<UtfError>> {
    if |s| == 0 then Some(Pass)
    else if IsCont(s[0]) then Some(Fail(UtfError(0, Some(1))))
    else if |s| == 1 then Some(Pass)
    else SubrangeLoop(s, 0, |s| - 1, fuel)
  }

  lemma {:induction false} SubrangeLoopStuck(s: seq<Byte>, i: nat, l: nat, fuel: nat)
    requires l < |s| && i < 3 && IsCont(s[l])
    ensures SubrangeLoop(s, i, l, fuel) == None
    decreases fuel
  {
    if fuel > 0 {
      SubrangeLoopStuck(s, i, l, fuel - 1);
    }
  }

  /**
   * The walk never ends on a buffer of two or more bytes whose last byte is a
   * continuation byte, such as the well-formed "é" = C3 A9.
   */
  lemma SubrangeAsWrittenDiverges(s: seq<Byte>, fuel: nat)
    requires |s| >= 2 && !IsCont(s[0]) && IsCont(s[|s| - 1])
    ensures SubrangeAsWritten(s, fuel) == None
  {
    SubrangeLoopStuck(s, 0, |s| - 1, fuel);
  }

  lemma SubrangeAsWrittenCounterexample(fuel: nat)
    ensures WellFormed([0xC3, 0xA9]) && SubrangeAsWritten([0xC3, 0xA9], fuel) == None
  {
    var b: seq<Byte> := [0xC3, 0xA9];
    assert b[..2] == b && b[2..] == [];
    assert ValidSeq(b);
    SubrangeAsWrittenDiverges(b, fuel);
  }

  /**
   * Whenever the backward walk does finish, it gives the same answer as the
   * iterator version of the default feature.
   */
  lemma SubrangeAgreesWhenFinished(s: seq<Byte>, fuel: nat)
    requires SubrangeAsWritten(s, fuel).Some?
    ensures SubrangeAsWritten(s, fuel).value == Utf8Traits.ValidateSubrangeAsWritten(s)
  {
    if |s| >= 2 && !IsCont(s[0]) {
      SubrangeAgreesLoop(s, fuel);
    }
  }

  lemma SubrangeAgreesLoop(s: seq<Byte>, fuel: nat)
    requires |s| >= 2 && !IsCont(s[0])
    requires SubrangeLoop(s, 0, |s| - 1, fuel).Some?
    ensures SubrangeLoop(s, 0, |s| - 1, fuel).value ==
      (if Utf8Traits.RevScanAccepts(s, 0) then Pass else Fail(UtfError(|s|, None)))
  {
    var n := |s|;
    if IsCont(s[n - 1]) {
      SubrangeLoopStuck(s, 0, n - 1, fuel);
    } else if s[n - 1] >= 0x80 {
      assert !IsCont(s[n - 2]) by {
        if IsCont(s[n - 2]) { SubrangeLoopStuck(s, 1, n - 2, fuel - 1); }
      }
      if !(0xC0 <= s[n - 2] <= 0xDF) && n >= 3 {
        assert !IsCont(s[n - 3]) by {
          if IsCont(s[n - 3]) { SubrangeLoopStuck(s, 2, n - 3, fuel - 2); }
        }
        assert SubrangeLoop(s, 2, n - 3, fuel - 2) == Some(Pass);
        assert Utf8Traits.RevScanAccepts(s, 2);
        assert Utf8Traits.RevScanAccepts(s, 1);
      } else if !(0xC0 <= s[n - 2] <= 0xDF) {
        assert !Utf8Traits.RevScanAccepts(s, 2);
      } else {
        assert Utf8Traits.RevScanAccepts(s, 1);
      }
    }
  }
}
