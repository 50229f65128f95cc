/**
 * Lexicographic comparison of unit sequences: the slice `Ord` the default
 * policies delegate to, and the hand-written compare loop of the const and raw policies.
 */
module Lex {

  datatype Ordering = Less | Equal | Greater {
    /** `Ordering::reverse` */
    function Reverse(): Ordering {
      match this
      case Less => Greater
      case Equal => Equal
      case Greater => Less
    }
  }

  /** Slice `cmp`: element-wise, and a proper prefix orders first. */
  function LexCmp(a: seq<int>, b: seq<int>): Ordering
    decreases |a|
  {
    if |a| == 0 && |b| == 0 then Equal
    else if |a| == 0 then Less
    else if |b| == 0 then Greater
    else if a[0] < b[0] then Less
    else if a[0] > b[0] then Greater
    else LexCmp(a[1..], b[1..])
  }

  /** Comparison returns Equal exactly for equal sequences. */
  lemma {:induction false} LexCmpEqualIff(a: seq<int>, b: seq<int>)
    ensures LexCmp(a, b) == Equal <==> a == b
    decreases |a|
  {
    if |a| > 0 && |b| > 0 && a[0] == b[0] {
      LexCmpEqualIff(a[1..], b[1..]);
      if a[1..] == b[1..] {
        assert a == [a[0]] + a[1..] && b == [b[0]] + b[1..];
      }
    }
  }

  /** Swapping the operands reverses the result. */
  lemma {:induction false} LexCmpAntisymmetric(a: seq<int>, b: seq<int>)
    ensures LexCmp(b, a) == LexCmp(a, b).Reverse()
    decreases |a|
  {
    if |a| > 0 && |b| > 0 && a[0] == b[0] {
      LexCmpAntisymmetric(a[1..], b[1..]);
    }
  }

  /** `Less` is transitive. */
  lemma {:induction false} LexCmpTransitive(a: seq<int>, b: seq<int>, c: seq<int>)
    requires LexCmp(a, b) == Less && LexCmp(b, c) == Less
    ensures LexCmp(a, c) == Less
    decreases |a|
  {
    if |a| > 0 && |b| > 0 && |c| > 0 && a[0] == b[0] && b[0] == c[0] {
      LexCmpTransitive(a[1..], b[1..], c[1..]);
    }
  }

  /** A proper prefix compares Less than the longer sequence. */
  lemma {:induction false} ProperPrefixIsLess(a: seq<int>, rest: seq<int>)
    requires |rest| > 0
    ensures LexCmp(a, a + rest) == Less
    decreases |a|
  {
    if |a| > 0 {
      assert (a + rest)[1..] == a[1..] + rest;
      ProperPrefixIsLess(a[1..], rest);
    }
  }

  /** Comparing past a common prefix: the result is decided by what follows it. */
  lemma {:induction false} LexCmpSkipPrefix(a: seq<int>, b: seq<int>, i: nat)
    requires i <= |a| && i <= |b| && a[..i] == b[..i]
    ensures LexCmp(a, b) == LexCmp(a[i..], b[i..])
    decreases i
  {
    if i > 0 {
      assert a[0] == a[..i][0] && b[0] == b[..i][0];
      assert a[1..][..i - 1] == a[..i][1..];
      assert b[1..][..i - 1] == b[..i][1..];
      LexCmpSkipPrefix(a[1..], b[1..], i - 1);
      assert a[1..][i - 1..] == a[i..];
      assert b[1..][i - 1..] == b[i..];
    }
  }

  /**
   * The compare loop of the const UTF policies and of `RawCharTraits`:
   * Less/Greater at the first differing index, otherwise ordered by length.
   */
  method CompareUnits(r1: seq<int>, r2: seq<int>) returns (o: Ordering)
    ensures o == LexCmp(r1, r2)
    ensures forall k :: 0 <= k < |r1| && k < |r2| && r1[..k] == r2[..k] && r1[k] != r2[k] ==>
              (o == Less <==> r1[k] < r2[k]) && o != Equal
    ensures (forall k :: 0 <= k < |r1| && k < |r2| ==> r1[k] == r2[k]) ==>
              (o == Less <==> |r1| < |r2|) && (o == Equal <==> |r1| == |r2|)
  {
    var i := 0;
    while i < |r1| && i < |r2|
      invariant 0 <= i <= |r1| && i <= |r2|
      invariant r1[..i] == r2[..i]
    {
      if r1[i] < r2[i] {
        LexCmpSkipPrefix(r1, r2, i);
        return Less;
      } else if r1[i] == r2[i] {
        assert r1[..i + 1] == r1[..i] + [r1[i]];
        assert r2[..i + 1] == r2[..i] + [r2[i]];
        i := i + 1;
        continue;
      } else {
        LexCmpSkipPrefix(r1, r2, i);
        return Greater;
      }
    }
    LexCmpSkipPrefix(r1, r2, i);
    if |r1| < |r2| {
      o := Less;
    } else if |r1| == |r2| {
      o := Equal;
    } else {
      o := Greater;
    }
  }
}
