/**
 * `BasicCStr`: a slice of units that ends in its policy's zero terminator,
 * holds no terminator before that, and is valid text as a whole (terminator
 * included). It is built from a slice by the checking constructors, split off
 * the front of a slice, or found in memory by scanning for the terminator.
 */
module CStrs {
  import opened Wrappers
  import opened Units
  import opened UtfErrors
  import opened Lex
  import opened Policy
  import Rfc3629
  import Rfc2781
  import BasicStrs

  /** A C string: its policy and its units, the terminator included. */
  datatype BasicCStr = BasicCStr(e: Encoding, chars: seq<int>)

  /** Exactly one terminator, and it is the last unit. */
  predicate Terminated(e: Encoding, s: seq<int>) {
    && |s| > 0
    && IsZeroTerm(e, s[|s| - 1])
    && forall k :: 0 <= k < |s| - 1 ==> !IsZeroTerm(e, s[k])
  }

  /** The invariant of every `BasicCStr`, as its `unsafe` constructors demand it. */
  predicate Inv(c: BasicCStr) {
    Terminated(c.e, c.chars) && Valid(c.e, c.chars)
  }

  /** A slice has at most one terminated prefix. */
  lemma TerminatedPrefixUnique(e: Encoding, s: seq<int>, m: nat, n: nat)
    requires m <= |s| && n <= |s|
    requires Terminated(e, s[..m]) && Terminated(e, s[..n])
    ensures m == n
  {
    assert forall k :: 0 <= k < m ==> s[..m][k] == s[k];
    assert forall k :: 0 <= k < n ==> s[..n][k] == s[k];
  }

  /** The `while i < len - 1` scan: whether any of `s[i..n]` is a terminator. */
  function NoTermFrom(e: Encoding, s: seq<int>, i: nat, n: nat): (r: bool)
    requires i <= n <= |s|
    ensures r <==> forall k :: i <= k < n ==> !IsZeroTerm(e, s[k])
    decreases n - i
  {
    i == n || (!IsZeroTerm(e, s[i]) && NoTermFrom(e, s, i + 1, n))
  }

  /** The `for (i, &c) in chars.iter().enumerate()` scan: the index of the first terminator at or after `i`. */
  function FirstTerm(e: Encoding, s: seq<int>, i: nat): (r: Option<nat>)
    requires i <= |s|
    ensures r.Some? ==> i <= r.value < |s| && IsZeroTerm(e, s[r.value])
    ensures r.Some? ==> forall k :: i <= k < r.value ==> !IsZeroTerm(e, s[k])
    ensures r.None? ==> forall k :: i <= k < |s| ==> !IsZeroTerm(e, s[k])
    decreases |s| - i
  {
    if i == |s| then None
    else if IsZeroTerm(e, s[i]) then Some(i)
    else FirstTerm(e, s, i + 1)
  }

  /** The last unit of a terminated prefix is the first terminator of the whole slice. */
  lemma TerminatedFindsFirst(e: Encoding, s: seq<int>, n: nat)
    requires 0 < n <= |s| && Terminated(e, s[..n])
    ensures FirstTerm(e, s, 0) == Some(n - 1)
  {
    assert forall k :: 0 <= k < n ==> s[..n][k] == s[k];
  }

  /** The first terminator of `s` ends its one terminated prefix; with no terminator there is none. */
  lemma FirstTermIsPrefix(e: Encoding, s: seq<int>)
    ensures FirstTerm(e, s, 0).Some? ==> Terminated(e, s[..FirstTerm(e, s, 0).value + 1])
    ensures forall n :: 0 < n <= |s| && Terminated(e, s[..n]) ==>
      FirstTerm(e, s, 0).Some? && n == FirstTerm(e, s, 0).value + 1
  {
    var f := FirstTerm(e, s, 0);
    if f.Some? {
      var p := s[..f.value + 1];
      assert forall k :: 0 <= k < |p| ==> p[k] == s[k];
    }
    forall n | 0 < n <= |s| && Terminated(e, s[..n])
      ensures f == Some(n - 1)
    {
      TerminatedFindsFirst(e, s, n);
    }
  }

  /**
   * `from_chars_with_null` (and `_mut`) as written: the guard on the last
   * unit is inverted, so an empty slice or one whose last unit is the
   * terminator is refused, and otherwise the scan for an earlier terminator
   * and the validation decide.
   */
  function FromCharsWithNullAsWritten(e: Encoding, chars: seq<int>): (r: Option<BasicCStr>)
    requires UnitsOk(e, chars)
    ensures Terminated(e, chars) ==> r == None
    ensures r.Some? ==> r.value == BasicCStr(e, chars) && !Inv(r.value)
    ensures r.Some? <==>
      |chars| > 0 && (forall k :: 0 <= k < |chars| ==> !IsZeroTerm(e, chars[k])) && Valid(e, chars)
  {
    if |chars| == 0 then None
    else if IsZeroTerm(e, chars[|chars| - 1]) then None
    else if !NoTermFrom(e, chars, 0, |chars| - 1) then None
    else
      match ValidateRange(e, chars)
      case Pass => Some(BasicCStr(e, chars))
      case Fail(_) => None
  }

  /** "A\0" is refused and "A", which has no terminator, is accepted. */
  lemma FromCharsWithNullAsWrittenCounterexample()
    ensures Inv(BasicCStr(Raw, [0x41, 0]))
    ensures FromCharsWithNullAsWritten(Raw, [0x41, 0]) == None
    ensures FromCharsWithNullAsWritten(Raw, [0x41]) == Some(BasicCStr(Raw, [0x41]))
    ensures !Inv(BasicCStr(Raw, [0x41]))
  {
    assert NoTermFrom(Raw, [0x41], 0, 0);
  }

  /** `from_chars_with_null` (and `_mut`) as documented: the slice is accepted exactly when it is a valid C string. */
  function FromCharsWithNull(e: Encoding, chars: seq<int>): (r: Option<BasicCStr>)
    requires UnitsOk(e, chars)
    ensures r.Some? <==> Terminated(e, chars) && Valid(e, chars)
    ensures r.Some? ==> r.value == BasicCStr(e, chars) && Inv(r.value)
  {
    if |chars| == 0 then None
    else if !IsZeroTerm(e, chars[|chars| - 1]) then None
    else if !NoTermFrom(e, chars, 0, |chars| - 1) then None
    else
      match ValidateRange(e, chars)
      case Pass => Some(BasicCStr(e, chars))
      case Fail(_) => None
  }

  /**
   * On valid text that is not empty and holds no terminator before its last
   * unit, the two constructors are exact opposites: the inverted guard
   * refuses every slice the intended one accepts and accepts every other.
   */
  lemma GuardInverted(e: Encoding, chars: seq<int>)
    requires Valid(e, chars) && |chars| > 0
    requires forall k :: 0 <= k < |chars| - 1 ==> !IsZeroTerm(e, chars[k])
    ensures FromCharsWithNull(e, chars).Some? <==> FromCharsWithNullAsWritten(e, chars).None?
  {
  }

  /**
   * `split_from_chars` (and `_mut`): the prefix through the first terminator
   * and the rest of the slice, when that prefix is valid; `None` when there
   * is no terminator or the prefix is invalid.
   */
  function SplitFromChars(e: Encoding, chars: seq<int>): (r: Option<(BasicCStr, seq<int>)>)
    requires UnitsOk(e, chars)
    ensures r.Some? ==> r.value.0.e == e && r.value.0.chars + r.value.1 == chars && Inv(r.value.0)
    ensures FirstTerm(e, chars, 0).None? ==> r == None
  {
    match FirstTerm(e, chars, 0)
    case None => None
    case Some(i) =>
      var left := chars[..i + 1];
      var right := chars[i + 1..];
      assert left + right == chars;
      FirstTermIsPrefix(e, chars);
      UnitsOkSlice(e, chars, 0, i + 1);
      match ValidateRange(e, left)
      case Pass => Some((BasicCStr(e, left), right))
      case Fail(_) => None
  }

  /** `split_from_chars` finds the one C string at the front of the slice exactly when it is there. */
  lemma SplitFromCharsSpec(e: Encoding, chars: seq<int>)
    requires UnitsOk(e, chars)
    ensures SplitFromChars(e, chars).Some? <==>
      exists n :: 0 < n <= |chars| && Terminated(e, chars[..n]) && Valid(e, chars[..n])
    ensures forall n :: 0 < n <= |chars| && Terminated(e, chars[..n]) && Valid(e, chars[..n]) ==>
      SplitFromChars(e, chars) == Some((BasicCStr(e, chars[..n]), chars[n..]))
  {
    FirstTermIsPrefix(e, chars);
    var r := SplitFromChars(e, chars);
    if r.Some? {
      var n := FirstTerm(e, chars, 0).value + 1;
      assert 0 < n <= |chars| && Terminated(e, chars[..n]) && Valid(e, chars[..n]);
    }
  }

  /** `Terminated` prefix length of memory that holds a terminator: what the `from_raw` loops compute. */
  function TermLen(e: Encoding, mem: seq<int>): (n: nat)
    requires exists k :: 0 <= k < |mem| && mem[k] == ZeroTerm(e)
    ensures 0 < n <= |mem| && Terminated(e, mem[..n])
  {
    FirstTermIsPrefix(e, mem);
    FirstTerm(e, mem, 0).value + 1
  }

  /**
   * The `while *end != zero_term()` loop of `from_raw`, `from_raw_mut`,
   * `validate_from_raw` and `validate_from_raw_mut`: the length of the
   * slice from `begin` through the first terminator. `mem` stands for the
   * units readable from `begin`.
   */
  method ScanToTerm(e: Encoding, mem: seq<int>) returns (n: nat)
    requires exists k :: 0 <= k < |mem| && mem[k] == ZeroTerm(e)
    ensures 0 < n <= |mem| && Terminated(e, mem[..n])
    ensures n == TermLen(e, mem)
  {
    ghost var k :| 0 <= k < |mem| && mem[k] == ZeroTerm(e);
    var i := 0;
    while mem[i] != ZeroTerm(e)
      invariant i <= k
      invariant forall j :: 0 <= j < i ==> mem[j] != ZeroTerm(e)
      decreases k - i
    {
      i := i + 1;
    }
    n := i + 1;
    var p := mem[..n];
    assert forall j :: 0 <= j < n ==> p[j] == mem[j];
    FirstTermIsPrefix(e, mem);
    TerminatedPrefixUnique(e, mem, n, TermLen(e, mem));
  }

  /**
   * `from_raw` (and `_mut`): the C string through the first terminator,
   * unchecked; the caller promises that those units are valid text.
   */
  method FromRaw(e: Encoding, mem: seq<int>) returns (c: BasicCStr)
    requires exists k :: 0 <= k < |mem| && mem[k] == ZeroTerm(e)
    requires Valid(e, mem[..TermLen(e, mem)])
    ensures c.e == e && c.chars == mem[..TermLen(e, mem)] && Inv(c)
  {
    var n := ScanToTerm(e, mem);
    c := BasicCStr(e, mem[..n]);
  }

  /**
   * `validate_from_raw` (and `_mut`): the C string through the first
   * terminator when `validate_range` accepts it, otherwise that call's error.
   */
  method ValidateFromRaw(e: Encoding, mem: seq<int>) returns (r: Result<BasicCStr, UtfError>)
    requires UnitsOk(e, mem)
    requires exists k :: 0 <= k < |mem| && mem[k] == ZeroTerm(e)
    ensures r.Ok? <==> Valid(e, mem[..TermLen(e, mem)])
    ensures r.Ok? ==> r.value.e == e && r.value.chars == mem[..TermLen(e, mem)] && Inv(r.value)
    ensures r.Err? ==> UnitsOk(e, mem[..TermLen(e, mem)]) && ValidateRange(e, mem[..TermLen(e, mem)]) == Fail(r.error)
  {
    var n := ScanToTerm(e, mem);
    UnitsOkSlice(e, mem, 0, n);
    match ValidateRange(e, mem[..n])
    case Pass =>
      r := Ok(BasicCStr(e, mem[..n]));
    case Fail(err) =>
      r := Err(err);
  }

  /** The terminator on its own is valid text in every policy. */
  lemma TerminatorValid(e: Encoding)
    ensures Valid(e, [ZeroTerm(e)])
  {
    var z := [ZeroTerm(e)];
    assert z[1..] == [];
    match e
    case Utf8 =>
      assert z[..1] == z;
      assert Rfc3629.ValidSeq(z);
    case Utf16 =>
    case Utf32 =>
    case Raw =>
  }

  /** `as_basic_str_with_nul`: the whole slice, terminator included, as a string. */
  function AsBasicStrWithNul(c: BasicCStr): (r: BasicStrs.BasicStr)
    requires Inv(c)
    ensures r.e == c.e && r.chars == c.chars && BasicStrs.Inv(r)
  {
    BasicStrs.BasicStr(c.e, c.chars)
  }

  /**
   * `as_basic_str_without_nul`: the slice without its terminator, which is
   * still valid text (the terminator is a whole scalar on its own).
   */
  function AsBasicStrWithoutNul(c: BasicCStr): (r: BasicStrs.BasicStr)
    requires Inv(c)
    ensures r.e == c.e && r.chars + [ZeroTerm(c.e)] == c.chars && BasicStrs.Inv(r)
    ensures forall k :: 0 <= k < |r.chars| ==> !IsZeroTerm(r.e, r.chars[k])
  {
    var n := |c.chars|;
    TerminatorValid(c.e);
    assert c.chars[n - 1..n] == [ZeroTerm(c.e)];
    if n == 1 then
      assert c.chars[..0] == [];
      BasicStrs.BasicStr(c.e, [])
    else
      ValidWindow(c.e, c.chars, n - 1, n);
      assert c.chars[..n - 1] + [ZeroTerm(c.e)] == c.chars;
      BasicStrs.BasicStr(c.e, c.chars[..n - 1])
  }

  /** `==`: element-wise over the units, terminator included. */
  predicate Eq(a: BasicCStr, b: BasicCStr) {
    a.chars == b.chars
  }

  /** `cmp`: the policy's `compare` on the two slices, terminators included. */
  function Cmp(a: BasicCStr, b: BasicCStr): (r: Ordering)
    requires a.e == b.e
    ensures r == Equal <==> Eq(a, b)
  {
    Compare(a.e, a.chars, b.chars)
  }

  /** `partial_cmp`: always `Some(cmp)`. */
  function PartialCmp(a: BasicCStr, b: BasicCStr): (r: Option<Ordering>)
    requires a.e == b.e
    ensures r.Some? && (r.value == Equal <==> Eq(a, b))
  {
    Some(Cmp(a, b))
  }

  /** Appending a terminator that is below every other unit does not change the order. */
  lemma {:induction false} TerminatorKeepsOrder(x: seq<int>, y: seq<int>)
    requires forall k :: 0 <= k < |x| ==> x[k] > 0
    requires forall k :: 0 <= k < |y| ==> y[k] > 0
    ensures LexCmp(x + [0], y + [0]) == LexCmp(x, y)
    decreases |x|
  {
    if |x| > 0 && |y| > 0 {
      assert (x + [0])[1..] == x[1..] + [0];
      assert (y + [0])[1..] == y[1..] + [0];
      if x[0] == y[0] {
        TerminatorKeepsOrder(x[1..], y[1..]);
      }
    }
  }

  /** Comparing C strings with their terminators orders them as their text without the terminators. */
  lemma CmpWithoutNul(a: BasicCStr, b: BasicCStr)
    requires Inv(a) && Inv(b) && a.e == b.e
    ensures Cmp(a, b) == BasicStrs.Cmp(AsBasicStrWithoutNul(a), AsBasicStrWithoutNul(b))
  {
    var x := AsBasicStrWithoutNul(a).chars;
    var y := AsBasicStrWithoutNul(b).chars;
    assert forall k :: 0 <= k < |x| ==> x[k] == a.chars[k];
    assert forall k :: 0 <= k < |y| ==> y[k] == b.chars[k];
    TerminatorKeepsOrder(x, y);
  }
}
