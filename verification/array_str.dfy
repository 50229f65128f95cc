/**
 * `BasicArrayString`: exactly `N` units held by value that are valid text
 * for the policy. It is built by `from_chars` (validating), from a standard
 * string of length exactly `N` (`TryFrom<&str>`), or from an array of `char`
 * (`From<[char; N]>`, always valid), and it derefs to `BasicStr`.
 */
module ArrayStrings {
  import opened Wrappers
  import opened Units
  import opened UtfErrors
  import opened Lex
  import opened Policy
  import BasicStrs

  /** An array string of length `n`: the policy, the const parameter `N` and the array. */
  datatype BasicArrayString = BasicArrayString(e: Encoding, n: nat, chars: seq<int>)

  /** The invariant of every `BasicArrayString`: `N` units of valid text. */
  predicate Inv(a: BasicArrayString) {
    |a.chars| == a.n && Valid(a.e, a.chars)
  }

  /** `LengthError<N>`: the length of the string that did not fit, and the required `N`. */
  datatype LengthError = LengthError(len: nat, required: nat)

  /** `from_chars`: the array string over `chars` when `validate_range` accepts them, otherwise that call's error. */
  function FromChars(e: Encoding, n: nat, chars: seq<int>): (r: Result<BasicArrayString, UtfError>)
    requires UnitsOk(e, chars) && |chars| == n
    ensures r.Ok? <==> Valid(e, chars)
    ensures r.Ok? ==> r.value == BasicArrayString(e, n, chars) && Inv(r.value)
    ensures r.Err? ==> ValidateRange(e, chars) == Fail(r.error)
    ensures r.Err? ==> r.error.pos < n && Valid(e, chars[..r.error.pos])
  {
    match ValidateRange(e, chars)
    case Pass => Ok(BasicArrayString(e, n, chars))
    case Fail(err) => Err(err)
  }

  /** `as_basic_str` (and `Deref`): the slice over the array. */
  function AsBasicStr(a: BasicArrayString): (r: BasicStrs.BasicStr)
    requires Inv(a)
    ensures r.e == a.e && r.chars == a.chars && |r.chars| == a.n && BasicStrs.Inv(r)
  {
    BasicStrs.BasicStr(a.e, a.chars)
  }

  /** The array constructor accepts exactly what the slice constructor accepts, with the same text or error. */
  lemma FromCharsAgrees(e: Encoding, n: nat, chars: seq<int>)
    requires UnitsOk(e, chars) && |chars| == n
    ensures FromChars(e, n, chars).Ok? <==> BasicStrs.FromChars(e, chars).Ok?
    ensures FromChars(e, n, chars).Ok? ==>
      AsBasicStr(FromChars(e, n, chars).value) == BasicStrs.FromChars(e, chars).value
    ensures FromChars(e, n, chars).Err? ==> FromChars(e, n, chars).error == BasicStrs.FromChars(e, chars).error
  {
  }

  /**
   * `TryFrom<&str> for ArrayString<N>`: a standard string of exactly `N`
   * bytes is copied in without a check; any other length is a `LengthError`
   * carrying that length.
   */
  function TryFromStr(n: nat, x: seq<int>): (r: Result<BasicArrayString, LengthError>)
    requires Valid(Utf8, x)
    ensures r.Ok? <==> |x| == n
    ensures r.Ok? ==> r.value == BasicArrayString(Utf8, n, x) && Inv(r.value)
    ensures r.Err? ==> r.error == LengthError(|x|, n) && r.error.len != r.error.required
  {
    if |x| != n then Err(LengthError(|x|, n))
    else Ok(BasicArrayString(Utf8, n, x))
  }

  /** For a string of the right length, `try_from` builds what the validating `from_chars` builds. */
  lemma TryFromIsFromChars(n: nat, x: seq<int>)
    requires Valid(Utf8, x) && |x| == n
    ensures FromChars(Utf8, n, x).Ok? && TryFromStr(n, x).value == FromChars(Utf8, n, x).value
  {
  }

  /** `From<[char; N]> for U32ArrayString<N>`: every array of scalars is valid `char` text. */
  function FromCharArray(n: nat, x: seq<Scalar>): (r: BasicArrayString)
    requires |x| == n
    ensures r.e == Utf32 && r.n == n && r.chars == x && Inv(r)
    ensures FromChars(Utf32, n, x) == Ok(r)
  {
    BasicArrayString(Utf32, n, x)
  }

  /** `as_chars` */
  function AsChars(a: BasicArrayString): (r: seq<int>)
    requires Inv(a)
    ensures |r| == a.n && Valid(a.e, r)
  {
    a.chars
  }

  /** `into_chars`: the array; building from it again gives the same string. */
  function IntoChars(a: BasicArrayString): (r: seq<int>)
    requires Inv(a)
    ensures |r| == a.n && UnitsOk(a.e, r) && FromChars(a.e, a.n, r) == Ok(a)
  {
    a.chars
  }

  /** `==` between array strings of any two lengths: the arrays as slices. */
  predicate Eq(a: BasicArrayString, b: BasicArrayString) {
    a.chars == b.chars
  }

  /** `==` against a string slice. */
  predicate EqStr(a: BasicArrayString, s: BasicStrs.BasicStr) {
    a.chars == s.chars
  }

  /** Equal array strings have the same length `N`, and equal ones compare equal as slices. */
  lemma EqSameLength(a: BasicArrayString, b: BasicArrayString)
    requires Inv(a) && Inv(b)
    ensures Eq(a, b) ==> a.n == b.n
    ensures Eq(a, b) <==> BasicStrs.Eq(AsBasicStr(a), AsBasicStr(b))
    ensures EqStr(a, AsBasicStr(b)) <==> Eq(a, b)
  {
  }

  /** `partial_cmp` between array strings of any two lengths: `Some` of the policy's `compare`. */
  function PartialCmp(a: BasicArrayString, b: BasicArrayString): (r: Option<Ordering>)
    requires Inv(a) && Inv(b) && a.e == b.e
    ensures r.Some? && (r.value == Equal <==> Eq(a, b))
    ensures r == BasicStrs.PartialCmp(AsBasicStr(a), AsBasicStr(b))
  {
    Some(Compare(a.e, a.chars, b.chars))
  }

  /** `partial_cmp` against a string slice. */
  function PartialCmpStr(a: BasicArrayString, s: BasicStrs.BasicStr): (r: Option<Ordering>)
    requires Inv(a) && a.e == s.e
    ensures r.Some? && (r.value == Equal <==> EqStr(a, s))
    ensures r == BasicStrs.PartialCmp(AsBasicStr(a), s)
  {
    Some(Compare(a.e, a.chars, s.chars))
  }

  /** `cmp` between array strings of the same length. */
  function Cmp(a: BasicArrayString, b: BasicArrayString): (r: Ordering)
    requires Inv(a) && Inv(b) && a.e == b.e && a.n == b.n
    ensures Some(r) == PartialCmp(a, b)
    ensures r == Equal <==> Eq(a, b)
  {
    Compare(a.e, a.chars, b.chars)
  }
}
