/**
 * The default (non-const) `CharTraits` for `UtfCharTraits<u8>`: full
 * validation through the standard library's UTF-8 check, and the boundary-only
 * `validate_subrange` used when slicing text that is already known to be valid.
 */
module Utf8Traits {
  import opened Wrappers
  import opened Units
  import opened UtfErrors
  import opened Rfc3629

  /** Outcome of examining the sequence that starts at one position. */
  datatype Scan = Complete(width: nat) | Invalid(errorLen: nat) | Truncated

  /** Checks bytes `k .. w-1` of the sequence at `i`, each of which must be a continuation byte. */
  function ScanConts(s: seq<Byte>, i: nat, k: nat, w: nat): (r: Scan)
    requires 2 <= k <= w <= 4 && i + k <= |s|
    ensures r.Complete? <==> i + w <= |s| && forall m :: i + k <= m < i + w ==> IsCont(s[m])
    ensures r.Complete? ==> r.width == w
    ensures r.Invalid? ==> k <= r.errorLen < w
    decreases w - k
  {
    if k == w then Complete(w)
    else if i + k == |s| then Truncated
    else if !IsCont(s[i + k]) then Invalid(k)
    else ScanConts(s, i, k + 1, w)
  }

  /**
   * One step of `core::str::from_utf8` at position `i`: the table of section 4
   * of RFC 3629 decides the width from the first byte and the allowed range of
   * the second; an error reports how many bytes were consumed before the bad one.
   */
  function ScanAt(s: seq<Byte>, i: nat): (r: Scan)
    requires i < |s|
    ensures r.Complete? <==> 0 < Width(s[i]) && i + Width(s[i]) <= |s| && ValidSeq(s[i..i + Width(s[i])])
    ensures r.Complete? ==> r.width == Width(s[i])
    ensures r.Invalid? ==> 1 <= r.errorLen <= 3 && i + r.errorLen <= |s|
  {
    var w := Width(s[i]);
    if w == 0 then Invalid(1)
    else if w == 1 then
      ValidSeqAt(s, i);
      Complete(1)
    else if i + 1 == |s| then Truncated
    else if !SecondOk(s[i], s[i + 1]) then
      ValidSeqAt(s, i);
      Invalid(1)
    else
      ValidSeqAt(s, i);
      ScanConts(s, i, 2, w)
  }

  /** `ValidSeq` of the bytes at `i`, stated position by position. */
  lemma ValidSeqAt(s: seq<Byte>, i: nat)
    requires i < |s|
    ensures 0 < Width(s[i]) && i + Width(s[i]) <= |s| ==>
      (ValidSeq(s[i..i + Width(s[i])]) <==>
        && (Width(s[i]) >= 2 ==> SecondOk(s[i], s[i + 1]))
        && (forall m :: i + 2 <= m < i + Width(s[i]) ==> IsCont(s[m])))
  {
    if 0 < Width(s[i]) && i + Width(s[i]) <= |s| {
      var t := s[i..i + Width(s[i])];
      assert forall k :: 0 <= k < |t| ==> t[k] == s[i + k];
    }
  }

  /** The validation loop of `from_utf8`, from position `i`. */
  function Run(s: seq<Byte>, i: nat): Outcome<Utf8Error>
    requires i <= |s|
    decreases |s| - i
  {
    if i == |s| then Pass
    else match ScanAt(s, i)
      case Complete(w) => Run(s, i + w)
      case Invalid(k) => Fail(Utf8Error(i, Some(k)))
      case Truncated => Fail(Utf8Error(i, None))
  }

  /** A single well-formed sequence is well-formed text. */
  lemma ValidSeqWellFormed(t: seq<Byte>)
    requires ValidSeq(t)
    ensures WellFormed(t)
  {
    WellFormedCons(t, []);
    assert t + [] == t;
  }

  /** Where well-formed text continues past `i`, the scan at `i` succeeds. */
  lemma ScanAtWellFormed(s: seq<Byte>, i: nat)
    requires i < |s| && WellFormed(s) && WellFormed(s[..i])
    ensures ScanAt(s, i).Complete?
  {
    WellFormedRest(s, i);
    var r := s[i..];
    var w := Width(s[i]);
    assert r[0] == s[i];
    assert r[..w] == s[i..i + w];
  }

  /** A well-formed prefix followed by one well-formed sequence is a longer well-formed prefix. */
  lemma PrefixExtends(s: seq<Byte>, i: nat, w: nat)
    requires i + w <= |s| && WellFormed(s[..i]) && ValidSeq(s[i..i + w])
    ensures WellFormed(s[..i + w])
  {
    ValidSeqWellFormed(s[i..i + w]);
    WellFormedConcat(s[..i], s[i..i + w]);
    assert s[..i] + s[i..i + w] == s[..i + w];
  }

  /** From a well-formed prefix, the loop passes exactly when the whole text is well-formed. */
  lemma {:induction false} RunPass(s: seq<Byte>, i: nat)
    requires i <= |s| && WellFormed(s[..i])
    ensures Run(s, i).Pass? <==> WellFormed(s)
    decreases |s| - i
  {
    if i == |s| {
      assert s[..i] == s;
    } else if ScanAt(s, i).Complete? {
      var w := ScanAt(s, i).width;
      PrefixExtends(s, i, w);
      RunPass(s, i + w);
    } else if WellFormed(s) {
      ScanAtWellFormed(s, i);
    }
  }

  /** When the loop fails it reports a position past a well-formed prefix where the scan fails, and the scan's length. */
  lemma {:induction false} RunFail(s: seq<Byte>, i: nat)
    requires i <= |s| && WellFormed(s[..i])
    ensures Run(s, i).Fail? ==>
      var p := Run(s, i).error.validUpTo;
      i <= p < |s| && WellFormed(s[..p]) && !ScanAt(s, p).Complete?
      && Run(s, i).error.errorLen == (if ScanAt(s, p).Invalid? then Some(ScanAt(s, p).errorLen) else None)
    decreases |s| - i
  {
    if i < |s| && ScanAt(s, i).Complete? {
      var w := ScanAt(s, i).width;
      PrefixExtends(s, i, w);
      RunFail(s, i + w);
    }
  }

  /** After the longest valid prefix no longer prefix is valid. */
  lemma LongestPrefix(s: seq<Byte>, p: nat, q: nat)
    requires p < q <= |s| && WellFormed(s[..p]) && !ScanAt(s, p).Complete?
    ensures !WellFormed(s[..q])
  {
    if WellFormed(s[..q]) {
      var u := s[..q];
      assert u[..p] == s[..p];
      ScanAtWellFormed(u, p);
    }
  }

  /** Everything `from_utf8` promises, proved about the loop from position 0. */
  lemma RunFromStart(s: seq<Byte>)
    ensures Run(s, 0).Pass? <==> WellFormed(s)
    ensures Run(s, 0).Fail? ==>
      var e := Run(s, 0).error;
      && e.validUpTo < |s| && WellFormed(s[..e.validUpTo])
      && (forall q :: e.validUpTo < q <= |s| ==> !WellFormed(s[..q]))
      && (e.errorLen.Some? ==> 1 <= e.errorLen.value <= 3 && e.validUpTo + e.errorLen.value <= |s|)
  {
    assert s[..0] == [];
    RunPass(s, 0);
    RunFail(s, 0);
    var r := Run(s, 0);
    if r.Fail? {
      forall q | r.error.validUpTo < q <= |s|
        ensures !WellFormed(s[..q])
      {
        LongestPrefix(s, r.error.validUpTo, q);
      }
    }
  }

  /**
   * `core::str::from_utf8` over a byte slice: `Pass` exactly for
   * well-formed UTF-8; on failure `validUpTo` is the length of the longest
   * well-formed prefix and `errorLen` is the number of bytes of the invalid
   * sequence (1 to 3) or `None` when the input ends inside a sequence.
   */
  function FromUtf8(s: seq<Byte>): (r: Outcome<Utf8Error>)
    ensures r.Pass? <==> WellFormed(s)
    ensures r.Fail? ==> r.error.validUpTo < |s| && WellFormed(s[..r.error.validUpTo])
    ensures r.Fail? ==> forall q :: r.error.validUpTo < q <= |s| ==> !WellFormed(s[..q])
    ensures r.Fail? && r.error.errorLen.Some? ==>
      1 <= r.error.errorLen.value <= 3 && r.error.validUpTo + r.error.errorLen.value <= |s|
  {
    RunFromStart(s);
    Run(s, 0)
  }

  /** `validate_range`: `from_utf8` with its error converted to `UtfError`. */
  function ValidateRange(s: seq<Byte>): (r: Outcome<UtfError>)
    ensures r.Pass? <==> WellFormed(s)
    ensures r.Fail? ==> FromUtf8(s).Fail? && r.error == FromUtf8Error(FromUtf8(s).error)
    ensures r.Fail? ==> r.error.pos < |s| && WellFormed(s[..r.error.pos])
  {
    match FromUtf8(s)
    case Pass => Pass
    case Fail(e) => Fail(FromUtf8Error(e))
  }

  /**
   * The scan of the as-written `validate_subrange` over the reversed buffer,
   * from reversed index `i`: continuation bytes are skipped; an ASCII byte at
   * index 0, a two-byte lead at index 1, or anything at index 2 accepts; any
   * other byte is skipped as well.
   */
  predicate RevScanAccepts(s: seq<Byte>, i: nat)
    decreases |s| - i
  {
    i < |s| &&
      var c := s[|s| - 1 - i];
      if IsCont(c) then RevScanAccepts(s, i + 1)
      else if (c < 0x80 && i == 0) || (0xC0 <= c <= 0xDF && i == 1) || i == 2 then true
      else RevScanAccepts(s, i + 1)
  }

  /** `validate_subrange` as written. */
  function ValidateSubrangeAsWritten(s: seq<Byte>): (r: Outcome<UtfError>)
    ensures |s| == 0 ==> r == Pass
    ensures |s| > 0 && IsCont(s[0]) ==> r == Fail(UtfError(0, Some(1)))
    ensures |s| == 1 && !IsCont(s[0]) ==> r == Pass
    ensures r.Fail? ==> r == Fail(UtfError(0, Some(1))) || r == Fail(UtfError(|s|, None))
  {
    if |s| == 0 then Pass
    else if IsCont(s[0]) then Fail(UtfError(0, Some(1)))
    else if |s| == 1 then Pass
    else if RevScanAccepts(s, 0) then Pass
    else Fail(UtfError(|s|, None))
  }

  /** A lone lead byte, cut from valid text, is accepted although it is not valid. */
  lemma SubrangeAcceptsLoneLead()
    ensures WellFormed([0xC3, 0xA9]) && [0xC3, 0xA9][0..1] == [0xC3]
    ensures ValidateSubrangeAsWritten([0xC3]) == Pass && !WellFormed([0xC3])
  {
    var s: seq<Byte> := [0xC3, 0xA9];
    assert s[..2] == s && s[2..] == [];
    assert ValidSeq(s);
  }

  /** A sequence cut off at the end is accepted because the byte two places from the end is not a continuation byte. */
  lemma SubrangeAcceptsTruncated()
    ensures WellFormed([0x41, 0x42, 0xC3, 0xA9]) && [0x41, 0x42, 0xC3, 0xA9][0..3] == [0x41, 0x42, 0xC3]
    ensures ValidateSubrangeAsWritten([0x41, 0x42, 0xC3]) == Pass && !WellFormed([0x41, 0x42, 0xC3])
  {
    var s: seq<Byte> := [0x41, 0x42, 0xC3, 0xA9];
    assert s[1..] == [0x42, 0xC3, 0xA9] && s[1..][1..] == [0xC3, 0xA9];
    ValidSeqWellFormed([0xC3, 0xA9]);
    var t: seq<Byte> := [0x41, 0x42, 0xC3];
    assert t[1..] == [0x42, 0xC3] && t[1..][1..] == [0xC3];
    assert RevScanAccepts(t, 2);
  }

  /** A complete four-byte sequence is rejected: its lead sits at reversed index 3, which no case accepts. */
  lemma SubrangeRejectsFourByte()
    ensures WellFormed([0xF0, 0x9F, 0x98, 0x80])
    ensures ValidateSubrangeAsWritten([0xF0, 0x9F, 0x98, 0x80]) == Fail(UtfError(4, None))
  {
    var s: seq<Byte> := [0xF0, 0x9F, 0x98, 0x80];
    assert s[..4] == s && s[4..] == [];
    assert ValidSeq(s);
    assert !RevScanAccepts(s, 3);
  }

  /** Length a lead byte announces, read from its marker bits (`0xxxxxxx`, `110xxxxx`, `1110xxxx`, `11110xxx`); 0 otherwise. */
  function LeadLen(b: Byte): nat {
    if b < 0x80 then 1
    else if 0xC0 <= b <= 0xDF then 2
    else if 0xE0 <= b <= 0xEF then 3
    else if 0xF0 <= b <= 0xF7 then 4
    else 0
  }

  /** Number of continuation bytes at the end of `s`. */
  function TrailingConts(s: seq<Byte>): (n: nat)
    ensures n <= |s|
    ensures forall k :: |s| - n <= k < |s| ==> IsCont(s[k])
    ensures n < |s| ==> !IsCont(s[|s| - 1 - n])
    decreases |s|
  {
    if |s| == 0 || !IsCont(s[|s| - 1]) then 0
    else
      var n := TrailingConts(s[..|s| - 1]);
      assert forall k :: 0 <= k < |s| - 1 ==> s[..|s| - 1][k] == s[k];
      n + 1
  }

  /**
   * `validate_subrange` with the evident intent: the slice must start at a
   * boundary, and the last lead byte must announce exactly the bytes that
   * follow it (at most three continuation bytes are inspected).
   */
  function ValidateSubrange(s: seq<Byte>): (r: Outcome<UtfError>)
    ensures |s| == 0 ==> r == Pass
    ensures |s| > 0 && IsCont(s[0]) ==> r == Fail(UtfError(0, Some(1)))
    ensures r.Fail? ==> r == Fail(UtfError(0, Some(1))) || r == Fail(UtfError(|s|, None))
  {
    if |s| == 0 then Pass
    else if IsCont(s[0]) then Fail(UtfError(0, Some(1)))
    else
      var n := TrailingConts(s);
      if n <= 3 && LeadLen(s[|s| - 1 - n]) == n + 1 then Pass
      else Fail(UtfError(|s|, None))
  }

  /**
   * Inside well-formed text, for a slice that starts at a boundary: the last
   * lead byte announces exactly the bytes after it iff the slice ends at a boundary.
   */
  lemma LastLeadAnnounces(b: seq<Byte>, lo: nat, hi: nat)
    requires WellFormed(b) && lo < hi <= |b| && !IsCont(b[lo])
    ensures var t := b[lo..hi]; var n := TrailingConts(t);
      n <= 3 && LeadLen(t[|t| - 1 - n]) == n + 1 <==> Boundary(b, hi)
  {
    var n := TrailingConts(b[lo..hi]);
    TrailingRun(b, lo, hi);
    var j := hi - 1 - n;
    SequenceAt(b, j);
    var w := Width(b[j]);
    assert LeadLen(b[j]) == w;
    if w > n + 1 {
      assert IsCont(b[hi]);
    }
  }

  /** The trailing continuation run of a slice that starts with a non-continuation byte, in the buffer's own indices. */
  lemma TrailingRun(b: seq<Byte>, lo: nat, hi: nat)
    requires lo < hi <= |b| && !IsCont(b[lo])
    ensures
      var n := TrailingConts(b[lo..hi]);
      && lo <= hi - 1 - n
      && b[lo..hi][hi - lo - 1 - n] == b[hi - 1 - n]
      && !IsCont(b[hi - 1 - n])
      && forall k :: hi - 1 - n < k < hi ==> IsCont(b[k])
  {
    var t := b[lo..hi];
    assert t[0] == b[lo];
    var n := TrailingConts(t);
    forall k | hi - 1 - n < k < hi
      ensures IsCont(b[k])
    {
      assert t[k - lo] == b[k];
    }
  }

  /**
   * On a slice of well-formed text the corrected boundary check accepts
   * exactly the well-formed slices, that is, it agrees with `validate_range`.
   */
  lemma SubrangeCorrect(b: seq<Byte>, lo: nat, hi: nat)
    requires WellFormed(b) && lo <= hi <= |b|
    ensures ValidateSubrange(b[lo..hi]).Pass? <==> WellFormed(b[lo..hi])
    ensures ValidateSubrange(b[lo..hi]).Pass? <==> ValidateRange(b[lo..hi]).Pass?
  {
    var t := b[lo..hi];
    if lo < hi {
      assert t[0] == b[lo];
      SliceWellFormed(b, lo, hi);
      if !IsCont(t[0]) {
        LastLeadAnnounces(b, lo, hi);
      }
    }
  }

  /** The contract of `validate_subrange`: it succeeds wherever `validate_range` does. */
  lemma SubrangeAcceptsValid(s: seq<Byte>)
    requires ValidateRange(s).Pass?
    ensures ValidateSubrange(s).Pass?
  {
    SubrangeCorrect(s, 0, |s|);
    assert s[0..|s|] == s;
  }
}
