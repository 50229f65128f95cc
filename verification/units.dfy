/** Element types and the small arithmetic vocabulary the encodings are written in. */
module Units {
  import opened Wrappers

  /** A `u8` value. */
  type Byte = x: int | 0 <= x < 0x100

  /** A `u16` value. */
  type U16 = x: int | 0 <= x < 0x1_0000

  /** A Rust `char`: a Unicode scalar value (no surrogates, at most 0x10FFFF). */
  predicate IsScalar(x: int) {
    0 <= x < 0xD800 || 0xE000 <= x < 0x11_0000
  }

  type Scalar = x: int | 0 <= x < 0xD800 || 0xE000 <= x < 0x11_0000

  /** `char::from_u32`: the scalar with value `v`, if `v` is one. */
  function FromU32(v: int): (r: Option<Scalar>)
    ensures r.Some? <==> IsScalar(v)
    ensures r.Some? ==> r.value == v
  {
    if IsScalar(v) then Some(v as Scalar) else None
  }

  /** A non-empty sequence is its front followed by its last element. */
  lemma SnocParts<T>(s: seq<T>)
    requires |s| > 0
    ensures s == s[..|s| - 1] + [s[|s| - 1]]
  {
  }

  /** A sequence is its first `w` elements followed by the rest. */
  lemma PrefixSuffix<T>(s: seq<T>, w: nat)
    requires w <= |s|
    ensures s[..w] + s[w..] == s
  {
  }

  /** The head and tail of `a ++ b` for non-empty `a`, and `[] ++ b`. */
  lemma ConsConcat<T>(a: seq<T>, b: seq<T>)
    ensures |a| == 0 ==> a + b == b
    ensures |a| > 0 ==> (a + b)[0] == a[0] && (a + b)[1..] == a[1..] + b
  {
    if |a| > 0 {
      assert (a + b)[1..] == a[1..] + b;
    }
  }

  /** Concatenation is associative. */
  lemma ConcatAssoc<T>(x: seq<T>, y: seq<T>, z: seq<T>)
    ensures x + (y + z) == (x + y) + z
  {
  }

  /** `2^k` */
  function Pow2(k: nat): (r: nat)
    ensures r >= 1
  {
    if k == 0 then 1 else 2 * Pow2(k - 1)
  }

  /**
   * Bitwise OR of two naturals, defined bit by bit from the least significant end.
   * Used only where the source ORs two fields that may overlap.
   */
  function BitOr(a: nat, b: nat): nat
    decreases a + b
  {
    if a == 0 then b
    else if b == 0 then a
    else 2 * BitOr(a / 2, b / 2) + (if a % 2 == 1 || b % 2 == 1 then 1 else 0)
  }

  /** OR of a value shifted left by `k` bits with a `k`-bit value is their sum. */
  lemma {:induction false} BitOrDisjoint(a: nat, b: nat, k: nat)
    requires b < Pow2(k)
    ensures BitOr(a * Pow2(k), b) == a * Pow2(k) + b
  {
    if k == 0 {
      assert b == 0;
    } else if a == 0 || b == 0 {
    } else {
      var x := a * Pow2(k);
      assert x == 2 * (a * Pow2(k - 1));
      assert x / 2 == a * Pow2(k - 1);
      assert x % 2 == 0;
      assert b / 2 < Pow2(k - 1);
      BitOrDisjoint(a, b / 2, k - 1);
      assert BitOr(x, b) == 2 * BitOr(x / 2, b / 2) + b % 2;
    }
  }
}
