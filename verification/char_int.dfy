/**
 * The `Char` implementations: conversions between an element type and its
 * companion integer type `Int` (always `i32` in the source).
 */
module CharInt {
  import opened Wrappers
  import opened Units

  /** The four element types that implement `Char`. */
  datatype CharType = U8 | U16 | CharScalar | U32

  /** An `i32` value. */
  type I32 = x: int | -0x8000_0000 <= x < 0x8000_0000

  const U32_MODULUS: int := 0x1_0000_0000

  /** The values of each element type. */
  predicate InType(t: CharType, x: int) {
    match t
    case U8 => 0 <= x < 0x100
    case U16 => 0 <= x < 0x1_0000
    case CharScalar => IsScalar(x)
    case U32 => 0 <= x < U32_MODULUS
  }

  /** `v as u32` for an `i32` v: two's-complement reinterpretation. */
  function AsU32(v: I32): (r: int)
    ensures 0 <= r < U32_MODULUS
    ensures (r - v) % U32_MODULUS == 0
  {
    if v < 0 then v + U32_MODULUS else v
  }

  /** `into_int`: `self as i32`, which wraps for `u32` values of 2^31 and above. */
  function IntoInt(t: CharType, x: int): I32
    requires InType(t, x)
  {
    if t == U32 && x >= 0x8000_0000 then x - U32_MODULUS else x
  }

  /** `from_int`: `try_into` for u8/u16, `char::from_u32(v as u32)` for char, `Some(v as u32)` for u32. */
  function FromInt(t: CharType, v: I32): (r: Option<int>)
    ensures r.Some? ==> InType(t, r.value)
  {
    match t
    case U8 => if 0 <= v < 0x100 then Some(v) else None
    case U16 => if 0 <= v < 0x1_0000 then Some(v) else None
    case CharScalar => if IsScalar(AsU32(v)) then Some(AsU32(v)) else None
    case U32 => Some(AsU32(v))
  }

  /** `from_int_lossy`: truncating casts; for char, `from_u32(..).unwrap_or('\0')`. */
  function FromIntLossy(t: CharType, v: I32): (r: int)
    ensures InType(t, r)
  {
    match t
    case U8 => v % 0x100
    case U16 => v % 0x1_0000
    case CharScalar => if IsScalar(AsU32(v)) then AsU32(v) else 0
    case U32 => AsU32(v)
  }

  /** `Char::MAX` */
  function Max(t: CharType): (r: int)
    ensures InType(t, r)
  {
    match t
    case U8 => 0xFF
    case U16 => 0xFFFF
    case CharScalar => 0x10_FFFF
    case U32 => 0xFFFF_FFFF
  }

  /** `Char::MIN` */
  function Min(t: CharType): (r: int)
    ensures InType(t, r)
  {
    0
  }

  /** Converting to the integer type and back yields the same value, checked and lossy alike. */
  lemma RoundTrip(t: CharType, x: int)
    requires InType(t, x)
    ensures FromInt(t, IntoInt(t, x)) == Some(x)
    ensures FromIntLossy(t, IntoInt(t, x)) == x
  {
  }

  /** `into_int` is injective, so `Eq` on elements agrees with `Eq` on their integers. */
  lemma IntoIntInjective(t: CharType, x: int, y: int)
    requires InType(t, x) && InType(t, y)
    ensures IntoInt(t, x) == IntoInt(t, y) <==> x == y
  {
  }

  /** u8 and u16 `from_int` fails exactly outside the type's range; the lossy form keeps the low bits. */
  lemma NarrowFromInt(t: CharType, v: I32)
    requires t == U8 || t == U16
    ensures var m := if t == U8 then 0x100 else 0x1_0000;
      && (FromInt(t, v).None? <==> (v < 0 || v >= m))
      && 0 <= FromIntLossy(t, v) < m
      && (v - FromIntLossy(t, v)) % m == 0
  {
  }

  /** char `from_int` succeeds exactly on scalar values; the lossy form maps everything else to '\0'. */
  lemma ScalarFromInt(v: I32)
    ensures FromInt(CharScalar, v).Some? <==> IsScalar(v)
    ensures FromInt(CharScalar, v).Some? ==> FromInt(CharScalar, v).value == v
    ensures !IsScalar(v) ==> FromIntLossy(CharScalar, v) == 0
  {
  }

  /** `MAX.into_int()` bounds every value from above and `MIN.into_int()` from below, for u8, u16 and char. */
  lemma MaxMinBound(t: CharType, x: int)
    requires t != U32 && InType(t, x)
    ensures IntoInt(t, Min(t)) <= IntoInt(t, x) <= IntoInt(t, Max(t))
  {
  }

  /** For u32 the wrap in `as i32` breaks both bounds: MAX maps to -1, below the integer of 1. */
  lemma U32MaxMinWrap()
    ensures IntoInt(U32, Max(U32)) == -1
    ensures IntoInt(U32, Max(U32)) < IntoInt(U32, 1)
    ensures IntoInt(U32, 0x8000_0000) < IntoInt(U32, Min(U32))
  {
  }

  /** Corrected u32 `into_int` into a wider (`i64`) integer type: no wrap. */
  function IntoIntWide(t: CharType, x: int): (r: int)
    requires InType(t, x)
    ensures 0 <= r <= Max(t)
    ensures t != U32 ==> r == IntoInt(t, x)
  {
    x
  }

  /** With the wider integer type the u32 bounds hold for every value. */
  lemma WideMaxMinBound(x: int)
    requires InType(U32, x)
    ensures IntoIntWide(U32, Min(U32)) <= IntoIntWide(U32, x) <= IntoIntWide(U32, Max(U32))
  {
  }
}
