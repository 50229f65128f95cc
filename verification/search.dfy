/**
 * The search and split API of `BasicStr` on top of the pattern engine:
 * `split_once`, `find`, `rsplit_once`, `rfind`, and the `Split` and `RSplit`
 * iterators. Each call runs the `_unchecked` matcher on the string's own
 * elements, which are valid text, and turns the match into an offset with
 * `offset_from` on the string's start.
 */
module Search {
  import opened Wrappers
  import opened Units
  import opened Policy
  import opened Patterns

  /** A pattern usable on text of encoding `e`; a substring pattern is itself a `BasicStr`, so valid text. */
  predicate PatternOk(e: Encoding, p: Pattern) {
    Searchable(e, p) && (p.Needle? ==> Valid(e, p.units))
  }

  /** The text on either side of a valid window of valid text is valid; an empty window must sit at an end. */
  lemma AroundValid(e: Encoding, s: seq<int>, lo: nat, hi: nat)
    requires Valid(e, s) && lo <= hi <= |s| && Valid(e, s[lo..hi])
    requires lo == hi ==> lo == 0 || lo == |s|
    ensures Valid(e, s[..lo]) && Valid(e, s[hi..])
  {
    if lo < hi {
      ValidWindow(e, s, lo, hi);
    } else if lo == 0 {
      assert s[..lo] == s[lo..hi];
      assert s[hi..] == s;
    } else {
      assert s[..lo] == s;
      assert s[hi..] == s[lo..hi];
    }
  }

  /** An empty first match only comes from the empty needle, at offset 0. */
  lemma FirstMatchEmpty(e: Encoding, p: Pattern, s: seq<int>)
    requires PatternOk(e, p) && Valid(e, s)
    ensures
      var f := FirstMatch(e, p, s);
      f.Some? && f.value.len == 0 ==> p.Needle? && |p.units| == 0 && f.value.start == 0
  {
    if p.Needle? {
      if |p.units| == 0 {
        assert OccursAt(p.units, s, 0);
      }
    } else {
      ScalarMatchCorrect(e, p, s);
    }
  }

  /** An empty last match only comes from the empty needle, at the end of the text. */
  lemma LastMatchEmpty(e: Encoding, p: Pattern, s: seq<int>)
    requires PatternOk(e, p) && Valid(e, s)
    ensures
      var l := LastMatch(e, p, s);
      l.Some? && l.value.len == 0 ==> p.Needle? && |p.units| == 0 && l.value.start == |s|
  {
    if p.Needle? {
      if |p.units| == 0 {
        assert OccursAt(p.units, s, |s|);
      }
    } else {
      ScalarMatchCorrect(e, p, s);
    }
  }

  /** What the search API takes from the pattern contracts about a first match in valid text. */
  lemma FirstMatchFacts(e: Encoding, p: Pattern, s: seq<int>, m: Span)
    requires PatternOk(e, p) && Valid(e, s)
    requires FirstMatch(e, p, s) == Some(m)
    ensures m.End() <= |s|
    ensures Valid(e, s[..m.start]) && Valid(e, s[m.End()..])
  {
    MatchValid(e, p, s);
    if m.len > 0 {
      AroundValid(e, s, m.start, m.End());
    } else {
      FirstMatchEmpty(e, p, s);
      AroundValid(e, s, m.start, m.End());
    }
  }

  /** What the search API takes from the pattern contracts about a last match in valid text. */
  lemma LastMatchFacts(e: Encoding, p: Pattern, s: seq<int>, m: Span)
    requires PatternOk(e, p) && Valid(e, s)
    requires LastMatch(e, p, s) == Some(m)
    ensures m.End() <= |s|
    ensures Valid(e, s[..m.start]) && Valid(e, s[m.End()..])
  {
    MatchValid(e, p, s);
    if m.len > 0 {
      AroundValid(e, s, m.start, m.End());
    } else {
      LastMatchEmpty(e, p, s);
      AroundValid(e, s, m.start, m.End());
    }
  }

  /**
   * `split_once`: the text before and the text after the first match; the
   * two with the match between them give back the string.
   */
  function SplitOnce(e: Encoding, p: Pattern, s: seq<int>): (r: Option<(seq<int>, seq<int>)>)
    requires PatternOk(e, p) && Valid(e, s)
    ensures r.Some? <==> FirstMatch(e, p, s).Some?
    ensures r.Some? ==>
      var m := FirstMatch(e, p, s).value;
      && m.End() <= |s|
      && |r.value.0| == m.start
      && r.value.0 + s[m.start..m.End()] + r.value.1 == s
  {
    var f := FirstMatchUnchecked(e, p, s);
    UncheckedAgrees(e, p, s);
    if f.None? then None
    else
      var m := f.value;
      FirstMatchFacts(e, p, s, m);
      CutJoin(s, m.start, m.End());
      Some((s[..m.start], s[m.End()..]))
  }

  /** `find`: the offset of the first match, which is the length of `split_once`'s left part. */
  function Find(e: Encoding, p: Pattern, s: seq<int>): (r: Option<nat>)
    requires PatternOk(e, p) && Valid(e, s)
    ensures r.Some? <==> SplitOnce(e, p, s).Some?
    ensures r.Some? ==> r.value == |SplitOnce(e, p, s).value.0|
  {
    var f := FirstMatchUnchecked(e, p, s);
    UncheckedAgrees(e, p, s);
    if f.None? then None else Some(f.value.start)
  }

  /**
   * `rsplit_once`: the text before and the text after the last match; the
   * two with the match between them give back the string.
   */
  function RSplitOnce(e: Encoding, p: Pattern, s: seq<int>): (r: Option<(seq<int>, seq<int>)>)
    requires PatternOk(e, p) && Valid(e, s)
    ensures r.Some? <==> LastMatch(e, p, s).Some?
    ensures r.Some? ==>
      var m := LastMatch(e, p, s).value;
      && m.End() <= |s|
      && |r.value.0| == m.start
      && r.value.0 + s[m.start..m.End()] + r.value.1 == s
  {
    var f := LastMatchUnchecked(e, p, s);
    UncheckedAgrees(e, p, s);
    if f.None? then None
    else
      var m := f.value;
      LastMatchFacts(e, p, s, m);
      CutJoin(s, m.start, m.End());
      Some((s[..m.start], s[m.End()..]))
  }

  /** The parts `split_once` returns are themselves valid text, which is why it may build them unchecked. */
  lemma SplitOnceValid(e: Encoding, p: Pattern, s: seq<int>)
    requires PatternOk(e, p) && Valid(e, s)
    ensures
      var r := SplitOnce(e, p, s);
      r.Some? ==> Valid(e, r.value.0) && Valid(e, r.value.1)
  {
    var r := SplitOnce(e, p, s);
    if r.Some? {
      var m := FirstMatch(e, p, s).value;
      FirstMatchFacts(e, p, s, m);
      PartsOfSplit(s, m, r.value.0, r.value.1);
    }
  }

  /** The parts `rsplit_once` returns are themselves valid text. */
  lemma RSplitOnceValid(e: Encoding, p: Pattern, s: seq<int>)
    requires PatternOk(e, p) && Valid(e, s)
    ensures
      var r := RSplitOnce(e, p, s);
      r.Some? ==> Valid(e, r.value.0) && Valid(e, r.value.1)
  {
    var r := RSplitOnce(e, p, s);
    if r.Some? {
      var m := LastMatch(e, p, s).value;
      LastMatchFacts(e, p, s, m);
      PartsOfSplit(s, m, r.value.0, r.value.1);
    }
  }

  /** Cutting text at two offsets and putting the three pieces back together gives the text. */
  lemma CutJoin(s: seq<int>, lo: nat, hi: nat)
    requires lo <= hi <= |s|
    ensures s[..lo] + s[lo..hi] + s[hi..] == s
  {
    assert s[..lo] + s[lo..hi] == s[..hi];
  }

  /** Text cut around a span: the left part is everything before it and the right part everything after. */
  lemma PartsOfSplit(s: seq<int>, m: Span, left: seq<int>, right: seq<int>)
    requires m.End() <= |s| && |left| == m.start && left + s[m.start..m.End()] + right == s
    ensures left == s[..m.start] && right == s[m.End()..]
  {
    var whole := left + s[m.start..m.End()] + right;
    assert whole[..m.start] == left;
    assert whole[m.End()..] == right;
  }

  /** `rfind`: the offset of the last match, which is the length of `rsplit_once`'s left part. */
  function RFind(e: Encoding, p: Pattern, s: seq<int>): (r: Option<nat>)
    requires PatternOk(e, p) && Valid(e, s)
    ensures r.Some? <==> RSplitOnce(e, p, s).Some?
    ensures r.Some? ==> r.value == |RSplitOnce(e, p, s).value.0|
  {
    var f := LastMatchUnchecked(e, p, s);
    UncheckedAgrees(e, p, s);
    if f.None? then None else Some(f.value.start)
  }

  /** With a fixed needle, the first match is the needle, so `find` is the first offset where it occurs. */
  lemma FindNeedle(e: Encoding, n: seq<int>, s: seq<int>)
    requires Valid(e, n) && Valid(e, s)
    ensures
      var r := Find(e, Needle(n), s);
      && (r.Some? <==> exists i :: OccursAt(n, s, i))
      && (r.Some? ==> OccursAt(n, s, r.value) && forall j :: 0 <= j < r.value ==> !OccursAt(n, s, j))
  {
  }

  /** With a fixed needle, `rfind` is the last offset where it occurs. */
  lemma RFindNeedle(e: Encoding, n: seq<int>, s: seq<int>)
    requires Valid(e, n) && Valid(e, s)
    ensures
      var r := RFind(e, Needle(n), s);
      && (r.Some? <==> exists i :: OccursAt(n, s, i))
      && (r.Some? ==> OccursAt(n, s, r.value) && forall j :: r.value < j ==> !OccursAt(n, s, j))
  {
  }

  // ---------------------------------------------------------------------
  // `Split` and `RSplit`
  // ---------------------------------------------------------------------

  /** The iterator state: the text not yet split, `None` once the iterator is exhausted. */
  predicate StateOk(e: Encoding, st: Option<seq<int>>) {
    st.Some? ==> Valid(e, st.value)
  }

  /**
   * `Split::next` (and `RSplit::next_back`, the same code): take the text;
   * on a first match yield the text before it and keep the text after it;
   * with no match yield the whole text and keep nothing. Returns the new
   * state and the item.
   */
  function NextFront(e: Encoding, p: Pattern, st: Option<seq<int>>): (r: (Option<seq<int>>, Option<seq<int>>))
    requires PatternOk(e, p) && StateOk(e, st)
    ensures st.None? ==> r == (None, None)
    ensures st.Some? ==> r.1.Some?
    ensures st.Some? && FirstMatch(e, p, st.value).None? ==> r == (None, st)
    ensures st.Some? && FirstMatch(e, p, st.value).Some? ==>
      var m := FirstMatch(e, p, st.value).value;
      && r.0.Some? && m.End() <= |st.value|
      && |r.1.value| == m.start
      && r.1.value + st.value[m.start..m.End()] + r.0.value == st.value
  {
    if st.None? then (None, None)
    else
      var parts := SplitOnce(e, p, st.value);
      if parts.None? then (None, st)
      else (Some(parts.value.1), Some(parts.value.0))
  }

  /**
   * `RSplit::next` (and `Split::next_back`, the same code): on a last match
   * yield the text after it and keep the text before it; with no match
   * yield the whole text and keep nothing.
   */
  function NextBack(e: Encoding, p: Pattern, st: Option<seq<int>>): (r: (Option<seq<int>>, Option<seq<int>>))
    requires PatternOk(e, p) && StateOk(e, st)
    ensures st.None? ==> r == (None, None)
    ensures st.Some? ==> r.1.Some?
    ensures st.Some? && LastMatch(e, p, st.value).None? ==> r == (None, st)
    ensures st.Some? && LastMatch(e, p, st.value).Some? ==>
      var m := LastMatch(e, p, st.value).value;
      && r.0.Some? && m.End() <= |st.value|
      && |r.0.value| == m.start
      && r.0.value + st.value[m.start..m.End()] + r.1.value == st.value
  {
    if st.None? then (None, None)
    else
      var parts := RSplitOnce(e, p, st.value);
      if parts.None? then (None, st)
      else (Some(parts.value.0), Some(parts.value.1))
  }

  /** Both iterators keep their state valid text and yield only valid text. */
  lemma StepsKeepValid(e: Encoding, p: Pattern, st: Option<seq<int>>)
    requires PatternOk(e, p) && StateOk(e, st)
    ensures StateOk(e, NextFront(e, p, st).0) && StateOk(e, NextFront(e, p, st).1)
    ensures StateOk(e, NextBack(e, p, st).0) && StateOk(e, NextBack(e, p, st).1)
  {
    if st.Some? {
      SplitOnceValid(e, p, st.value);
      RSplitOnceValid(e, p, st.value);
    }
  }

  /** Once exhausted, both iterators return `None` forever, whichever end is asked. */
  lemma Fused(e: Encoding, p: Pattern, st: Option<seq<int>>)
    requires PatternOk(e, p) && StateOk(e, st)
    ensures NextFront(e, p, st).1.None? ==> st.None? && NextFront(e, p, st).0.None?
    ensures NextBack(e, p, st).1.None? ==> st.None? && NextBack(e, p, st).0.None?
    ensures NextFront(e, p, st).0.None? ==> NextFront(e, p, NextFront(e, p, st).0) == (None, None)
    ensures NextBack(e, p, st).0.None? ==> NextBack(e, p, NextBack(e, p, st).0) == (None, None)
  {
  }

  /** With the empty needle, `split_once` cuts off nothing: the left part is empty, the right part is the text. */
  lemma EmptyNeedleSplitOnce(e: Encoding, s: seq<int>)
    requires Valid(e, s) && Valid(e, [])
    ensures SplitOnce(e, Needle([]), s) == Some(([], s))
  {
    EmptyNeedleMatches(s);
    var r := SplitOnce(e, Needle([]), s);
    PartsOfSplit(s, Span(0, 0), r.value.0, r.value.1);
  }

  /** The `Split` step that follows from an empty cut. */
  lemma EmptyNeedleStep(e: Encoding, s: seq<int>)
    requires Valid(e, s) && Valid(e, [])
    requires SplitOnce(e, Needle([]), s) == Some(([], s))
    ensures NextFront(e, Needle([]), Some(s)) == (Some(s), Some([]))
  {
  }

  /** With the empty needle `Split` never ends: every call yields an empty item and keeps the whole text. */
  lemma EmptyNeedleNeverEnds(e: Encoding, s: seq<int>)
    requires Valid(e, s) && Valid(e, [])
    ensures NextFront(e, Needle([]), Some(s)) == (Some(s), Some([]))
  {
    EmptyNeedleSplitOnce(e, s);
    EmptyNeedleStep(e, s);
  }

  /** Every match of the pattern takes at least one element (all but the empty needle). */
  predicate Advances(p: Pattern) {
    p.Needle? ==> |p.units| > 0
  }

  /** A match of an advancing pattern is never empty. */
  lemma MatchesAdvance(e: Encoding, p: Pattern, s: seq<int>)
    requires PatternOk(e, p) && Advances(p) && Valid(e, s)
    ensures FirstMatch(e, p, s).Some? ==> FirstMatch(e, p, s).value.len > 0
    ensures LastMatch(e, p, s).Some? ==> LastMatch(e, p, s).value.len > 0
  {
    FirstMatchEmpty(e, p, s);
    LastMatchEmpty(e, p, s);
  }

  /** The items `Split` yields from state `st`, calling `next` until it returns `None`. */
  function SplitItems(e: Encoding, p: Pattern, st: Option<seq<int>>): (items: seq<seq<int>>)
    requires PatternOk(e, p) && Advances(p) && StateOk(e, st)
    ensures st.Some? ==> |items| > 0
    decreases if st.None? then 0 else |st.value| + 1
  {
    if st.None? then []
    else
      StepsKeepValid(e, p, st);
      MatchesAdvance(e, p, st.value);
      var (next, item) := NextFront(e, p, st);
      [item.value] + SplitItems(e, p, next)
  }

  /** The items `RSplit` yields from state `st`, last piece first. */
  function RSplitItems(e: Encoding, p: Pattern, st: Option<seq<int>>): (items: seq<seq<int>>)
    requires PatternOk(e, p) && Advances(p) && StateOk(e, st)
    ensures st.Some? ==> |items| > 0
    decreases if st.None? then 0 else |st.value| + 1
  {
    if st.None? then []
    else
      StepsKeepValid(e, p, st);
      MatchesAdvance(e, p, st.value);
      var (next, item) := NextBack(e, p, st);
      [item.value] + RSplitItems(e, p, next)
  }

  /** The pieces joined front to back with `sep` between neighbours. */
  function Join(items: seq<seq<int>>, sep: seq<int>): seq<int>
    decreases |items|
  {
    if |items| == 0 then []
    else if |items| == 1 then items[0]
    else items[0] + sep + Join(items[1..], sep)
  }

  /** The pieces joined in reverse order (the first piece goes last) with `sep` between neighbours. */
  function JoinBack(items: seq<seq<int>>, sep: seq<int>): seq<int>
    decreases |items|
  {
    if |items| == 0 then []
    else if |items| == 1 then items[0]
    else JoinBack(items[1..], sep) + sep + items[0]
  }

  /** `Join` of a first piece and at least one more. */
  lemma JoinCons(x: seq<int>, rest: seq<seq<int>>, sep: seq<int>)
    requires |rest| > 0
    ensures Join([x] + rest, sep) == x + sep + Join(rest, sep)
  {
    assert ([x] + rest)[1..] == rest;
  }

  /** `JoinBack` of a first piece and at least one more. */
  lemma JoinBackCons(x: seq<int>, rest: seq<seq<int>>, sep: seq<int>)
    requires |rest| > 0
    ensures JoinBack([x] + rest, sep) == JoinBack(rest, sep) + sep + x
  {
    assert ([x] + rest)[1..] == rest;
  }

  /** The separator every match of a `char` or substring pattern consists of. */
  function Separator(e: Encoding, p: Pattern): seq<int>
    requires p.Needle? || (p.Char? && HasChars(e))
  {
    if p.Needle? then p.units else EncodeChar(e, p.c)
  }

  /** A first match of a `char` or substring pattern in valid text is exactly its separator. */
  lemma FirstMatchIsSeparator(e: Encoding, p: Pattern, s: seq<int>, m: Span)
    requires PatternOk(e, p) && (p.Needle? || p.Char?) && Valid(e, s)
    requires FirstMatch(e, p, s) == Some(m)
    ensures m.End() <= |s| && s[m.start..m.End()] == Separator(e, p)
  {
    if p.Char? {
      ScalarMatchCorrect(e, p, s);
      FirstIndexCorrect(p, Scalars(e, s));
    }
  }

  /** A last match of a `char` or substring pattern in valid text is exactly its separator. */
  lemma LastMatchIsSeparator(e: Encoding, p: Pattern, s: seq<int>, m: Span)
    requires PatternOk(e, p) && (p.Needle? || p.Char?) && Valid(e, s)
    requires LastMatch(e, p, s) == Some(m)
    ensures m.End() <= |s| && s[m.start..m.End()] == Separator(e, p)
  {
    if p.Char? {
      ScalarMatchCorrect(e, p, s);
      LastIndexCorrect(p, Scalars(e, s));
    }
  }

  /** One `Split` step at a match: the item, the separator and the new state make up the text, and the state shrinks. */
  lemma SplitStep(e: Encoding, p: Pattern, s: seq<int>)
    requires PatternOk(e, p) && Advances(p) && (p.Needle? || p.Char?) && Valid(e, s)
    requires FirstMatch(e, p, s).Some?
    ensures
      var (next, item) := NextFront(e, p, Some(s));
      && next.Some? && item.Some? && Valid(e, next.value) && |next.value| < |s|
      && item.value + Separator(e, p) + next.value == s
  {
    StepsKeepValid(e, p, Some(s));
    MatchesAdvance(e, p, s);
    FirstMatchIsSeparator(e, p, s, FirstMatch(e, p, s).value);
  }

  /** One `RSplit` step at a match: the new state, the separator and the item make up the text, and the state shrinks. */
  lemma RSplitStep(e: Encoding, p: Pattern, s: seq<int>)
    requires PatternOk(e, p) && Advances(p) && (p.Needle? || p.Char?) && Valid(e, s)
    requires LastMatch(e, p, s).Some?
    ensures
      var (next, item) := NextBack(e, p, Some(s));
      && next.Some? && item.Some? && Valid(e, next.value) && |next.value| < |s|
      && next.value + Separator(e, p) + item.value == s
  {
    StepsKeepValid(e, p, Some(s));
    MatchesAdvance(e, p, s);
    LastMatchIsSeparator(e, p, s, LastMatch(e, p, s).value);
  }

  /** `SplitItems` of live text: the item of one step, then the items of the state it leaves. */
  lemma SplitItemsUnfold(e: Encoding, p: Pattern, s: seq<int>)
    requires PatternOk(e, p) && Advances(p) && Valid(e, s)
    ensures StateOk(e, NextFront(e, p, Some(s)).0)
    ensures SplitItems(e, p, Some(s)) == [NextFront(e, p, Some(s)).1.value] + SplitItems(e, p, NextFront(e, p, Some(s)).0)
  {
    StepsKeepValid(e, p, Some(s));
  }

  /** `RSplitItems` of live text: the item of one step, then the items of the state it leaves. */
  lemma RSplitItemsUnfold(e: Encoding, p: Pattern, s: seq<int>)
    requires PatternOk(e, p) && Advances(p) && Valid(e, s)
    ensures StateOk(e, NextBack(e, p, Some(s)).0)
    ensures RSplitItems(e, p, Some(s)) == [NextBack(e, p, Some(s)).1.value] + RSplitItems(e, p, NextBack(e, p, Some(s)).0)
  {
    StepsKeepValid(e, p, Some(s));
  }

  /** Splitting on a `char` or a non-empty substring and joining the items with it gives back the text. */
  lemma {:induction false} SplitJoin(e: Encoding, p: Pattern, s: seq<int>)
    requires PatternOk(e, p) && Advances(p) && (p.Needle? || p.Char?) && Valid(e, s)
    ensures Join(SplitItems(e, p, Some(s)), Separator(e, p)) == s
    decreases |s|
  {
    SplitItemsUnfold(e, p, s);
    var (next, item) := NextFront(e, p, Some(s));
    if FirstMatch(e, p, s).Some? {
      SplitStep(e, p, s);
      SplitJoin(e, p, next.value);
      JoinCons(item.value, SplitItems(e, p, next), Separator(e, p));
    }
  }

  /** Splitting from the back and joining the items in reverse order gives back the text. */
  lemma {:induction false} RSplitJoin(e: Encoding, p: Pattern, s: seq<int>)
    requires PatternOk(e, p) && Advances(p) && (p.Needle? || p.Char?) && Valid(e, s)
    ensures JoinBack(RSplitItems(e, p, Some(s)), Separator(e, p)) == s
    decreases |s|
  {
    RSplitItemsUnfold(e, p, s);
    var (next, item) := NextBack(e, p, Some(s));
    if LastMatch(e, p, s).Some? {
      RSplitStep(e, p, s);
      RSplitJoin(e, p, next.value);
      JoinBackCons(item.value, RSplitItems(e, p, next), Separator(e, p));
    }
  }
}
