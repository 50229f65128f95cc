# rust-basic-string in Dafny

This project models the core of `rust-basic-string`, a Rust library of C++-style strings. The strings are generic over their element type (`u8`, `u16`, `char`, `u32`). They are also generic over an encoding policy, `CharTraits`, which decides what "valid text" is.

The model covers these parts:

- **The element types.** The `Char` trait converts each element type to an `i32` and back (`CharInt`).
- **The encoding policies.** The four implementations are UTF-8, UTF-16, UTF-32 (`char`) and raw bytes.
  - Each one has a full validator `validate_range` and a boundary-only `validate_subrange` (`Utf8Traits`, `Utf16Traits`, `Policy`).
  - The hand-written `const`-feature validators are modelled too (`ConstUtf8`, `ConstUtf16`).
  - Each policy also has a `compare` and a zero terminator (`Lex`, `Policy`).
- **The codecs.** `IntoChars` and `DecodeRev` decode the first or the last scalar of a buffer and encode a scalar into one (`Utf8Codec`, `Utf16Codec`, `Utf32Codec`).
- **The validated wrappers.** These are `BasicStr` (`BasicStrs`), `BasicCStr` (`CStrs`), `BasicString` (`Strings`) and `BasicArrayString` (`ArrayStrings`). The model covers their constructors, slicing, comparison, `unicode_iter`, `push` and `push_str`.
- **The pattern engine.** It finds the first or last match of a substring, a `char`, a `Fn(char) -> bool` or a set of `char`s (`Patterns`).
- **The search API built on it.** This covers `split_once`, `find`, `rsplit_once`, `rfind` and the `Split`/`RSplit` iterators (`Search`).

UTF-8 and UTF-16 are specified independently, after RFC 3629 (`Rfc3629`) and RFC 2781 (`Rfc2781`). Those two modules also specify the standard-library calls the source relies on: `str::from_utf8`, `char::encode_utf8`, `char::len_utf8` and `char::encode_utf16`.

Elements are modelled as `int`s, and `Policy.UnitsOk` says each one is a value of the encoding's element type. `Policy.Valid` is the validity each wrapper maintains as its invariant.

Where the source's code does something other than what its documentation and its callers evidently rely on, the model follows a common pattern:

- A member named `...AsWritten` models the code as written.
- A lemma exhibits the discrepancy on a concrete input.
- A corrected member carries the intended property, and the rest of the model is built on it.

These cases are listed under "## Findings".

## Model

| member | source | states |
|---|---|---|
| CharInt.AsU32 | src/traits.rs:104-112 | `u32` values pass through `i32` by two's-complement reinterpretation: the result is the `i32` reduced modulo 2^32 into `[0, 2^32)` |
| CharInt.FromInt | src/traits.rs:23-25 | `from_int` yields only values of the element type (`u8`, `u16`, a scalar value, `u32`) |
| CharInt.FromIntLossy | src/traits.rs:26-27 | `from_int_lossy` always yields a value of the element type |
| CharInt.Max | src/traits.rs:16-17 | `MAX` is a value of the element type |
| CharInt.Min | src/traits.rs:18-19 | `MIN` is a value of the element type |
| CharInt.RoundTrip | src/traits.rs:8-9 | for every element type, `from_int(into_int(x)) == Some(x)` and `from_int_lossy(into_int(x)) == x`, the round trip the `Char` safety contract requires |
| CharInt.IntoIntInjective | src/traits.rs:11 | `into_int` is injective, so `Eq` on elements agrees with `Eq` on their integers |
| CharInt.NarrowFromInt | src/traits.rs:45-51 | for `u8`/`u16`, `from_int` is `None` exactly when the value is negative or at least 2^8/2^16, and `from_int_lossy` truncates modulo 2^8/2^16 (`as u8`, `as u16`; lines 68-74 for `u16`) |
| CharInt.ScalarFromInt | src/traits.rs:91-97 | for `char`, `from_int` is `Some` exactly on scalar values and returns the value itself; `from_int_lossy` maps everything else to `'\0'` |
| CharInt.MaxMinBound | src/traits.rs:16-19 | for `u8`, `u16` and `char`, `MIN.into_int() <= x.into_int() <= MAX.into_int()` for every value `x` |
| CharInt.U32MaxMinWrap | src/traits.rs:104-112 | for `u32`, `MAX.into_int()` is -1, below `1.into_int()`, and `0x8000_0000.into_int()` is below `MIN.into_int()`: the bound of lines 16-19 fails |
| CharInt.IntoIntWide | src/traits.rs:104-112 | the corrected `into_int` for a wide integer type: every value maps into `[0, MAX]`, and for `u8`, `u16` and `char` it is the source's `into_int` |
| CharInt.WideMaxMinBound | src/traits.rs:16-19 | with an integer type wide enough for `u32` (the evident intent), `MIN <= x <= MAX` holds for `u32` too |
| Units.FromU32 | src/utf.rs:145 | `char::from_u32` is `Some` exactly on scalar values (below 0x110000, outside the surrogates), and then returns the value |
| Units.BitOrDisjoint | src/utf.rs:122 | OR of a value shifted left by `k` bits with a value below 2^k is their sum, which is how the decoders' ORs are read |
| Lex.LexCmpEqualIff | src/utf_char_traits.rs:38-40 | slice ordering says `Equal` exactly when the slices are equal (`Lex.LexCmp` is the slice ordering) |
| Lex.LexCmpAntisymmetric | src/utf_char_traits.rs:38-40 | comparing the other way round gives the reversed ordering |
| Lex.LexCmpTransitive | src/utf_char_traits.rs:38-40 | `Less` is transitive, so `compare` is a total order as `Ord` requires |
| Lex.ProperPrefixIsLess | src/utf_char_traits.rs:38-40 | a proper prefix orders before the longer slice |
| Lex.LexCmpSkipPrefix | src/utf_char_traits.rs:38-40 | a common prefix does not affect the ordering |
| Lex.CompareUnits | src/utf_const_char_traits.rs:150-170 | the hand-written compare loop returns slice ordering: the first differing unit decides, otherwise the shorter slice is `Less` and equal lengths are `Equal` (the same loop is at lines 237-257 and 287-307, and at src/cstr_raw_traits_const.rs:14-34) |
| UtfErrors.FromUtf8Error | src/utf.rs:92-99 | a standard-library `Utf8Error` becomes the `UtfError` with `pos = valid_up_to()` and `len = error_len()` |
| Rfc3629.Encode | src/utf.rs:169-177 | `char::encode_utf8` writes `len_utf8(c)` bytes laid out as in section 3 of RFC 3629 |
| Rfc3629.EncodeIsValidSeq | src/utf.rs:169-173 | the encoding of any scalar is one sequence of the section 4 grammar, and it decodes back to the scalar |
| Rfc3629.DecodeSeqEncodes | src/utf.rs:138-163 | decoding a well-formed sequence and encoding the result gives the same bytes |
| Rfc3629.EncodeWellFormed | src/utf.rs:169-173 | a scalar's encoding is well-formed UTF-8 on its own |
| Rfc3629.WellFormedConcat | src/utf_char_traits.rs:6-8 | well-formed UTF-8 is closed under concatenation (what `push_str` and `push` rely on) |
| Rfc3629.WellFormedSplit | src/str.rs:386-398 | cutting well-formed UTF-8 at a scalar boundary leaves two well-formed halves |
| Rfc3629.SliceWellFormed | src/traits.rs:148-166 | a non-empty slice of well-formed UTF-8 is well-formed exactly when both of its ends are scalar boundaries, which is the reason `validate_subrange` may check only the ends |
| Rfc3629.SequenceAt | src/utf.rs:138-163 | at a boundary of well-formed text sits one complete sequence of the length its lead byte announces, followed by another boundary |
| Rfc3629.WellFormedHead | src/utf.rs:118-136 | non-empty well-formed text starts with one complete sequence and continues with well-formed text |
| Rfc3629.DecodeEncodeAll | src/utf_char_traits.rs:6-8 | decoding the encoding of any list of scalars gives the list back |
| Rfc3629.EncodeDecodeAll | src/utf_char_traits.rs:6-8 | encoding the decoded scalars of well-formed text gives the text back |
| Rfc3629.EncodeAllConcat | src/string.rs:112-117 | encoding a concatenation of scalar lists concatenates the encodings |
| Rfc3629.EncodeAll | src/utf.rs:169-173 | encoding scalars one after another with `encode_utf8` gives well-formed UTF-8 |
| Rfc2781.WellFormedIffPaired | src/utf_char_traits.rs:62-83 | the section 2.2 decoding succeeds exactly on unit sequences in which every high surrogate is followed by a low one and every low surrogate follows a high one |
| Rfc2781.WellFormedConcat | src/utf_char_traits.rs:62-83 | well-formed UTF-16 is closed under concatenation |
| Rfc2781.SliceWellFormed | src/utf_char_traits.rs:85-99 | a slice of well-formed UTF-16 is well-formed exactly when neither end splits a surrogate pair |
| Rfc2781.Encode | src/utf.rs:250-252 | `char::encode_utf16` writes one unit below 0x10000 and two units at or above it |
| Rfc2781.DecodePair | src/utf.rs:239 | a surrogate pair decodes to a scalar of at least 0x10000 |
| Rfc2781.EncodeWellFormed | src/utf.rs:250-252 | a scalar's encoding is well-formed, and a two-unit encoding is a high surrogate followed by a low one |
| Rfc2781.DecodePairEncode | src/utf.rs:250-252 | the two units of a scalar of at least 0x10000 decode back to the scalar |
| Rfc2781.EncodeDecodePair | src/utf.rs:232-244 | re-encoding a decoded surrogate pair gives the pair back |
| Rfc2781.DecodeEncodeAll | src/utf_char_traits.rs:62-83 | decoding the encoding of any list of scalars gives the list back |
| Rfc2781.EncodeDecodeAll | src/utf_char_traits.rs:62-83 | encoding the decoded scalars of well-formed UTF-16 gives the text back |
| Rfc2781.EncodeAllConcat | src/string.rs:112-117 | encoding a concatenation of scalar lists concatenates the encodings |
| Rfc2781.EncodeAll | src/utf.rs:250-252 | encoding scalars one after another with `encode_utf16` gives well-formed UTF-16 |
| Utf8Traits.ScanAt | src/utf_char_traits.rs:6-8 | the per-sequence step of the standard-library check: it is complete exactly when a whole section 4 sequence starts at the position, and otherwise gives an error length of 1 to 3 |
| Utf8Traits.RunPass | src/utf_char_traits.rs:6-8 | the standard-library check, started after a well-formed prefix, passes exactly when the whole buffer is well-formed |
| Utf8Traits.RunFail | src/utf_char_traits.rs:6-8 | when it fails, it reports the end of the longest well-formed prefix, where no complete sequence starts |
| Utf8Traits.LongestPrefix | src/utf_char_traits.rs:6-8 | no prefix longer than the reported `valid_up_to` is well-formed |
| Utf8Traits.RunFromStart | src/utf_char_traits.rs:6-8 | from the start, the check passes exactly on well-formed UTF-8, and a failure's `valid_up_to` is the length of the longest well-formed prefix, with an `error_len` of 1 to 3 inside the buffer |
| Utf8Traits.FromUtf8 | src/utf_char_traits.rs:6-8 | `str::from_utf8` is `Ok` exactly on well-formed UTF-8; an error's `valid_up_to` is the longest well-formed prefix and its `error_len` lies within the buffer |
| Utf8Traits.ValidateRange | src/utf_char_traits.rs:6-8 | `validate_range` passes exactly on well-formed UTF-8; an error is `from_utf8`'s error converted, at the end of a well-formed prefix |
| Utf8Traits.ValidateSubrangeAsWritten | src/utf_char_traits.rs:10-36 | the boundary check as written: empty passes, a leading continuation byte is `{0, Some(1)}`, a single non-continuation byte passes, and any other error is `{len, None}` (`Utf8Traits.RevScanAccepts` is the backward scan) |
| Utf8Traits.SubrangeAcceptsLoneLead | src/utf_char_traits.rs:18-19 | as written, the slice `[0xC3]` cut from "é" passes although it is not valid |
| Utf8Traits.SubrangeAcceptsTruncated | src/utf_char_traits.rs:21-30 | as written, "AB" plus the lead byte of "é", cut from "ABé", passes although it is not valid |
| Utf8Traits.SubrangeRejectsFourByte | src/utf_char_traits.rs:21-30 | as written, the valid four-byte "😀" is rejected with `{4, None}` |
| Utf8Traits.TrailingConts | src/utf_char_traits.rs:21-23 | the backward walk over trailing continuation bytes stops at the last byte that is not one |
| Utf8Traits.ValidateSubrange | src/utf_char_traits.rs:10-36 | the corrected boundary check keeps the source's error values: empty passes, a leading continuation byte is `{0, Some(1)}`, and any other error is `{len, None}` |
| Utf8Traits.SubrangeCorrect | src/traits.rs:148-166 | on any slice of well-formed UTF-8, the corrected check passes exactly when the slice is well-formed, which is exactly when `validate_range` passes on it |
| Utf8Traits.SubrangeAcceptsValid | src/traits.rs:148-166 | every buffer `validate_range` accepts, the corrected `validate_subrange` accepts too |
| Utf16Traits.RunCorrect | src/utf_char_traits.rs:62-83 | the pairing loop passes exactly on well-formed UTF-16; on failure the error sits at the end of a well-formed prefix and has the source's shape: a lone low surrogate is `Some(1)`, an unpaired high surrogate is `Some(2)`, and a high surrogate at the end is `None` (`Utf16Traits.Run` is that loop) |
| Utf16Traits.ValidateRange | src/utf_char_traits.rs:62-83 | `validate_range` passes exactly on well-formed (equivalently, correctly paired) UTF-16, and a failure has the error shape above |
| Utf16Traits.ValidateSubrange | src/utf_char_traits.rs:85-99 | a leading low surrogate is `{0, Some(1)}`, otherwise a trailing high surrogate is `{len - 1, None}`, otherwise the slice passes (the const version, src/utf_const_char_traits.rs:221-235, is the same code) |
| Utf16Traits.SubrangeCorrect | src/traits.rs:148-166 | on any slice of well-formed UTF-16, `validate_subrange` passes exactly when the slice is well-formed, which is exactly when `validate_range` passes on it |
| Utf16Traits.SubrangeAcceptsValid | src/traits.rs:148-166 | every buffer `validate_range` accepts, `validate_subrange` accepts too |
| ConstUtf8.FollowConts | src/utf_const_char_traits.rs:18-98 | the as-written reading of the bytes after a lead byte stops at the first one that is not a continuation byte, at the end of the buffer, or at the last byte of the sequence |
| ConstUtf8.RangeAsWrittenNeverPasses | src/utf_const_char_traits.rs:6-103 | the const `validate_range` as written never returns `Ok` on a non-empty buffer, whatever the number of iterations (`ConstUtf8.RangeAsWritten` is the loop as written, run for a given number of iterations) |
| ConstUtf8.RangeAsWrittenDivergesOnAscii | src/utf_const_char_traits.rs:11-12 | as written, a buffer starting with an ASCII byte never finishes, because `continue` skips the index increment |
| ConstUtf8.RangeAsWrittenCounterexamples | src/utf_const_char_traits.rs:6-103 | "A" never finishes, and "é" (`C3 A9`) is rejected with `{1, Some(1)}` because the index is not moved past the sequence |
| ConstUtf8.ValidateRange | src/utf_const_char_traits.rs:6-103 | the corrected const validator passes exactly on well-formed UTF-8, as the default `validate_range` does. It keeps the source's error positions, which point at the offending byte: no prefix longer than the error position is valid; a sequence cut off by the end is `{len, None}`; a stray continuation byte after a valid prefix is `{t, Some(1)}`; a non-continuation byte after a two-byte lead is `{t + 1, Some(1)}` |
| ConstUtf8.SubrangeLoopStuck | src/utf_const_char_traits.rs:126-130 | the as-written backward walk of the const `validate_subrange` never leaves a continuation byte, because `continue` skips the index updates (`ConstUtf8.SubrangeLoop` is that walk as written) |
| ConstUtf8.SubrangeAsWrittenDiverges | src/utf_const_char_traits.rs:105-148 | as written, every slice of two or more bytes that starts at a boundary and ends in a continuation byte never finishes (`ConstUtf8.SubrangeAsWritten` is the function as written, run for a given number of iterations) |
| ConstUtf8.SubrangeAsWrittenCounterexample | src/utf_const_char_traits.rs:126-146 | "é" (`C3 A9`) never finishes |
| ConstUtf8.SubrangeAgreesWhenFinished | src/utf_const_char_traits.rs:105-148 | whenever the const walk as written does finish, it agrees with the default `validate_subrange` as written |
| ConstUtf8.SubrangeAgreesLoop | src/utf_const_char_traits.rs:126-146 | the finished const loop returns what the default loop's accept condition gives: `Ok`, or `{len, None}` |
| ConstUtf16.GuardPrecedence | src/utf_const_char_traits.rs:204 | `!(0xDC00 <= c) && (c <= 0xDFFF)` holds exactly for `c < 0xDC00`. It misses units above 0xDFFF, which the intended "not a low surrogate" would include (`ConstUtf16.NotLowAsWritten` is the guard as written) |
| ConstUtf16.RangeAsWrittenNeverPasses | src/utf_const_char_traits.rs:192-219 | the const UTF-16 `validate_range` as written never returns `Ok` on a non-empty buffer (`ConstUtf16.RangeAsWritten` is the loop as written, run for a given number of iterations) |
| ConstUtf16.RangeAsWrittenStuck | src/utf_const_char_traits.rs:195-216 | as written, it never finishes once it reaches a unit that is not a surrogate, because nothing advances the index |
| ConstUtf16.RangeAsWrittenCounterexamples | src/utf_const_char_traits.rs:192-219 | "A" never finishes; the valid pair `D83D DE00` is rejected with `{1, Some(1)}`; and the invalid `D800 E000` gets past the pair check and never finishes |
| ConstUtf16.ValidateRange | src/utf_const_char_traits.rs:192-219 | the corrected const validator passes exactly on well-formed UTF-16, as the default one does. Its errors point at the offending unit: `{len, None}` for a high surrogate at the end, `{i, Some(2)}` for a unit after a high surrogate that is not a low one, `{i, Some(1)}` for a lone low surrogate. No prefix longer than the error position is valid |
| Policy.ValidateRange | src/traits.rs:146 | `validate_range` of each policy passes exactly on valid text. UTF-32 (src/utf_char_traits.rs:125-127) and raw bytes (src/cstr.rs:262-264) always pass. An error lies inside the buffer at the end of a valid prefix |
| Policy.ValidateRangeConst | src/utf_const_char_traits.rs:6-103 | the const policies' `validate_range`, corrected, accepts exactly what the default one accepts. Its errors are only for UTF-8 and UTF-16; no prefix past the error is valid, and the UTF-8 position conventions above hold (UTF-16 at lines 192-219; `char` at 279-281; raw bytes at src/cstr_raw_traits_const.rs:6-8) |
| Policy.ValidateSubrange | src/traits.rs:148-166 | `validate_subrange` passes on the empty slice and always passes for `char` and raw bytes (src/utf_char_traits.rs:129-131, src/cstr.rs:266-268) |
| Policy.ValidateSubrangeAsWritten | src/utf_char_traits.rs:10-36 | `validate_subrange` as written differs from the corrected one only for UTF-8 |
| Policy.SubrangeAcceptsValid | src/traits.rs:148-166 | anything `validate_range` accepts, `validate_subrange` accepts |
| Policy.SubrangeCorrect | src/traits.rs:148-166 | on every slice of valid text, `validate_subrange` passes exactly when the slice is valid, which is the property `get`, indexing and `split_at` rely on |
| Policy.ValidConcat | src/string.rs:112-117 | valid text followed by valid text is valid, for every policy |
| Policy.ValidWindow | src/str.rs:92-114 | cutting a valid, non-empty window out of valid text leaves valid text on both sides |
| Policy.Compare | src/utf_char_traits.rs:38-40 | `compare` is `Equal` exactly on equal slices and is antisymmetric. It is slice ordering for every policy (src/utf_char_traits.rs:101-103 and 133-135, src/cstr.rs:270-290) |
| Policy.Sentinels | src/utf_char_traits.rs:42-52 | the zero terminator is a unit of the policy, and `is_zero_term` holds exactly on it. `eof()` (-1) is the integer of no unit (lines 105-115 and 137-147; src/cstr.rs:292-302) |
| Policy.EncodeChar | src/traits.rs:201-214 | encoding a scalar gives valid text of 1 to `max_encoding_len` units |
| Policy.EncodingLen | src/traits.rs:201-214 | `encoding_len(c)` is the number of units `encode` writes for `c` |
| Policy.EncodingLenAsWritten | src/utf.rs:254-260 | `encoding_len` as written agrees with the encoding's length except for U+FFFF in UTF-16 |
| Policy.EncodeInto | src/traits.rs:201-214 | `encode` panics exactly when the buffer is shorter than `encoding_len`; otherwise it writes the encoding at the front and leaves the rest of the buffer |
| Policy.DecodeBuf | src/traits.rs:194-199 | `decode_buf` is `None` on the empty buffer, and on success the rest is a proper suffix of the buffer |
| Policy.DecodeBack | src/traits.rs:194-199 | `decode_back` is `None` on the empty buffer, and on success the rest is a proper prefix of the buffer |
| Policy.DecodeBufFits | src/pattern.rs:117-125 | with the corrected `encoding_len`, the decoded scalar's encoding length fits in the units `decode_buf` consumed, so `&slice[..encoding_len(c)]` in the pattern loops is in bounds; the as-written UTF-16 `encoding_len` breaks this at U+FFFF (`Patterns.FirstScalarAsWrittenDiffers`) |
| Policy.DecodeBufEncode | src/traits.rs:194-199 | decoding the front of a scalar's encoding followed by any units gives the scalar and those units |
| Policy.DecodeBackEncode | src/traits.rs:194-199 | decoding the back of any units followed by a scalar's encoding gives the scalar and those units |
| Policy.EncodeAll | src/traits.rs:201-214 | encoding a list of scalars one after another gives valid text |
| Policy.EncodeAllConcat | src/string.rs:112-117 | encoding is a homomorphism from scalar lists to unit sequences |
| Policy.Scalars | src/str.rs:609-637 | every valid text is the encoding of its scalars |
| Policy.ScalarsEncodeAll | src/str.rs:609-637 | the scalars of an encoded list are the list, so valid text and scalar lists correspond one to one |
| Policy.EncodeAllAgrees8 | src/utf.rs:169-173 | the policy's UTF-8 encoding of a scalar list is the section 3 encoding of RFC 3629 |
| Policy.EncodeAllAgrees16 | src/utf.rs:250-252 | the policy's UTF-16 encoding of a scalar list is the section 2.1 encoding of RFC 2781 |
| Policy.EncodeAllAgrees32 | src/utf.rs:305-308 | the `char` policy stores a scalar list as itself |
| Policy.DecodeBufValid | src/traits.rs:194-199 | on valid text, `decode_buf` yields the first scalar and the encoding of the others |
| Policy.DecodeBackValid | src/traits.rs:194-199 | on valid text, `decode_back` yields the last scalar and the encoding of the others |
| Policy.DecodeBufUnchecked | src/traits.rs:194 | on non-empty valid text, `decode_buf_unchecked` agrees with `decode_buf`; the text is the scalar's encoding followed by the valid rest |
| Policy.DecodeBackUnchecked | src/utf.rs:181-195 | on non-empty valid text, `decode_back_unchecked` agrees with `decode_back`; the text is the valid rest followed by the scalar's encoding |
| Utf8Codec.DecodeBuf | src/utf.rs:138-163 | `decode_buf` is `None` on empty input, on a continuation or `F8..FF` lead byte, and when the buffer is shorter than the lead announces; on success it consumes 1 to 4 bytes |
| Utf8Codec.DecodeBufSeq | src/utf.rs:138-163 | on a well-formed sequence followed by anything, `decode_buf` gives the sequence's scalar and the rest |
| Utf8Codec.DecodeBufEncode | src/utf.rs:138-163 | `decode_buf` inverts `encode_utf8` on any continuation |
| Utf8Codec.DecodeBufFits | src/utf.rs:138-163 | `len_utf8` of the decoded scalar is at most the number of bytes consumed |
| Utf8Codec.DecodeBufOverlong | src/utf.rs:142-145 | the forward decoder does not check the ranges of section 4 of RFC 3629: the overlong `C0 80` decodes to U+0000 although it is not well-formed |
| Utf8Codec.DecodeBufUnchecked | src/utf.rs:118-136 | on well-formed text, `decode_buf_unchecked` consumes exactly the first sequence and yields its scalar, the first decoded scalar of the text |
| Utf8Codec.DecodeBackAsWritten | src/utf.rs:197-217 | `decode_back` as written, when it returns something, consumes 1 to 4 bytes from the end and leaves a prefix |
| Utf8Codec.AssembleUncheckedSeq | src/utf.rs:118-136 | the unchecked bit assembly equals the section 3 decoding on every well-formed sequence. For three-byte leads this holds despite the wider `0x1f` mask at line 125, because bit 4 of `1110xxxx` is 0 |
| Utf8Codec.DecodeBufAgrees | src/utf.rs:118-163 | on non-empty well-formed text, the checked and the unchecked forward decoders agree |
| Utf8Codec.EncodingLen | src/utf.rs:175-177 | `len_utf8` is the length of the encoding, between 1 and `max_encoding_len` (4) |
| Utf8Codec.EncodeInto | src/utf.rs:169-173 | `encode` panics exactly when the buffer is shorter than the encoding; otherwise the returned front is the buffer's new first `len_utf8(c)` bytes and the tail is unchanged |
| Utf8Codec.EncodeIntoRoundTrip | src/traits.rs:201-214 | encoding into a `max_encoding_len` buffer always succeeds; what is written is well-formed, passes `validate_range`, and decodes back to the scalar |
| Utf8Codec.DecodeBackAsWrittenWrong | src/utf.rs:197-217 | `decode_back` as written, on any text ending in a scalar's encoding: ASCII gives `None` (line 206 requires one leading one where an ASCII byte has none), four-byte scalars give `None`, and two- and three-byte scalars come back with the lead byte's marker bits left in (line 209). It never returns the scalar |
| Utf8Codec.DecodeBackAsWrittenCounterexamples | src/utf.rs:197-217 | "A" decodes backward to `None`, and "é" to U+10E9 instead of U+00E9 |
| Utf8Codec.DecodeBackUncheckedAsWritten | src/utf.rs:181-195 | `decode_back_unchecked` as written adds the same lead-marker offset (line 187), which for four-byte scalars leaves the scalar range (`Utf8Codec.BackLoop` is the backward loop at lines 183-193) |
| Utf8Codec.DecodeBack | src/utf.rs:197-217 | the corrected `decode_back` is `None` on the empty buffer and consumes 1 to 4 bytes from the end |
| Utf8Codec.DecodeBackEncode | src/utf.rs:197-217 | the corrected `decode_back` inverts `encode_utf8` at the end of any bytes |
| Utf8Codec.DecodeBackLast | src/utf.rs:197-217 | on well-formed text, the corrected `decode_back` gives the last scalar and the encoding of the others |
| Utf8Codec.DecodeBackUnchecked | src/utf.rs:181-195 | the corrected `decode_back_unchecked` agrees with the corrected `decode_back` on well-formed text and gives the last scalar |
| Utf16Codec.PairValueAsWrittenOffset | src/utf.rs:239 | on a real surrogate pair, the value assembled as written is the scalar minus 0x10000 (`Utf16Codec.PairValueAsWritten` is that expression, also at lines 225, 269 and 284) |
| Utf16Codec.DecodeBufAsWrittenWrong | src/utf.rs:232-244 | `decode_buf` as written returns `None` on every encoded scalar of at least 0x10000 (the inverted guard at line 236), and after a scalar below 0x10000 it drops the following unit (line 242) (`Utf16Codec.DecodeBufAsWritten` is the function as written) |
| Utf16Codec.DecodeBufAsWrittenCounterexamples | src/utf.rs:232-244 | `D83D DE00` (U+1F600) gives `None`, and "AB" gives 'A' with nothing left |
| Utf16Codec.DecodeBuf | src/utf.rs:232-244 | the corrected `decode_buf`: `None` on empty input, on a leading low surrogate, and on a high surrogate not followed by a low one; a pair gives 0x10000 plus its fields and the units after it; any other unit gives itself and the units after it |
| Utf16Codec.DecodeBufEncode | src/utf.rs:232-244 | the corrected `decode_buf` inverts `encode_utf16` on any continuation |
| Utf16Codec.DecodeBufUncheckedAsWrittenOffset | src/utf.rs:221-230 | `decode_buf_unchecked` as written returns pairs 0x10000 too low (line 225), e.g. `D836 DC00` becomes the surrogate 0xD800; single units are right (`Utf16Codec.DecodeBufUncheckedAsWritten` is the function as written). The rest it leaves is the correct one |
| Utf16Codec.DecodeBufUncheckedAsWrittenCounterexample | src/utf.rs:221-230 | on the valid U+1F600 (`D83D DE00`) the as-written decoder gives U+F600, itself a valid scalar, and the rest is empty; `[D83D]` and `[DE00]` alone are not valid text |
| Utf16Codec.DecodeBufUnchecked | src/utf.rs:221-230 | the corrected `decode_buf_unchecked` agrees with the corrected `decode_buf` on well-formed text, and gives the first scalar and the rest |
| Utf16Codec.EncodingLen | src/utf.rs:254-260 | the corrected `encoding_len` is the length of `encode_utf16`'s output, 1 or 2 |
| Utf16Codec.EncodingLenAsWrittenWrong | src/utf.rs:254-260 | `encoding_len` as written (`< 0xFFFF`) is right for every scalar except U+FFFF, for which it says 2 while the encoding has 1 unit (`Utf16Codec.EncodingLenAsWritten` is the function as written) |
| Utf16Codec.EncodeInto | src/utf.rs:250-252 | `encode_utf16` panics exactly when the buffer is too short; otherwise it writes the encoding at the front and leaves the tail |
| Utf16Codec.EncodeIntoRoundTrip | src/traits.rs:201-214 | encoding into a `max_encoding_len` buffer always succeeds, and the units written are well-formed and decode back to the scalar |
| Utf16Codec.DecodeBackAsWrittenWrong | src/utf.rs:276-289 | `decode_back` as written returns scalars of at least 0x10000 as the value minus 0x10000 (line 284), and returns a trailing lone high surrogate as a "char" (line 287) (`Utf16Codec.DecodeBackAsWritten` is the function as written) |
| Utf16Codec.DecodeBack | src/utf.rs:276-289 | the corrected `decode_back` is `None` on empty input and on a trailing high surrogate, and consumes 1 or 2 units from the end |
| Utf16Codec.DecodeBackEncode | src/utf.rs:276-289 | the corrected `decode_back` inverts `encode_utf16` at the end of any units |
| Utf16Codec.DecodeBackLast | src/utf.rs:276-289 | on well-formed text, the corrected `decode_back` gives the last scalar and the encoding of the others |
| Utf16Codec.DecodeBackUnchecked | src/utf.rs:264-274 | the corrected `decode_back_unchecked` agrees with the corrected `decode_back` on well-formed text |
| Utf16Codec.DecodeBackUncheckedAsWritten | src/utf.rs:264-274 | on well-formed text, `decode_back_unchecked` as written returns what the as-written `decode_back` returns |
| Utf16Codec.DecodeBackUncheckedAsWrittenOffset | src/utf.rs:264-274 | as written, a last scalar stored as a pair comes back 0x10000 too low (line 269) and a single unit comes back right, with the correct rest; `D83D DE00` gives U+F600 and `D836 DC00` gives the surrogate 0xD800 |
| Utf32Codec.DecodeBuf | src/utf.rs:297-299 | `decode_buf` is `None` exactly on the empty buffer, and otherwise splits off the first element |
| Utf32Codec.DecodeBufUnchecked | src/utf.rs:293-295 | `decode_buf_unchecked` agrees with `decode_buf` on non-empty buffers |
| Utf32Codec.EncodingLen | src/utf.rs:310-312 | `encoding_len` is always `max_encoding_len` (1) |
| Utf32Codec.EncodeInto | src/utf.rs:305-308 | `encode` panics exactly on an empty buffer; otherwise it stores the scalar in element 0 and returns it |
| Utf32Codec.EncodeRoundTrip | src/utf.rs:293-312 | what `encode` writes decodes back to the scalar, and `decode_buf` inverts the one-element encoding on any continuation |
| Utf32Codec.DecodeBack | src/utf.rs:322-324 | `decode_back` is `None` exactly on the empty buffer, and otherwise splits off the last element |
| Utf32Codec.DecodeBackUnchecked | src/utf.rs:317-319 | `decode_back_unchecked` agrees with `decode_back` on non-empty buffers |
| Utf32Codec.DecodeBackEncode | src/utf.rs:322-324 | `decode_back` inverts the one-element encoding at the end of any buffer |
| BasicStrs.FromChars | src/str_from_chars.rs:1-8 | `from_chars` is `Ok` exactly on valid text, and then wraps the same elements; otherwise it returns `validate_range`'s error, which lies at the end of a valid prefix. It never fails for `char` or raw bytes (also `from_chars_mut`, src/str.rs:320-326) |
| BasicStrs.FromCharsConst | src/str_from_chars_const.rs:1-12 | the const `from_chars` over the corrected const validators succeeds exactly when `from_chars` does, with the same string. Its errors are UTF-8/UTF-16 only. No prefix past the error is valid. For UTF-8, a stray continuation byte at `t` is `{t, Some(1)}`, and a non-continuation byte after a two-byte lead at `t` is `{t + 1, Some(1)}` |
| BasicStrs.FromCharsConstErrorPosition | src/utf_const_char_traits.rs:18-31 | on `C3 41` the const constructor reports `{1, Some(1)}`, and the prefix `C3` before that position is not valid |
| BasicStrs.Get | src/str.rs:328-338 | `get(lo..hi)` is `Some` exactly when the range is in bounds and the piece is valid text, and then it is that piece (with the corrected UTF-8 `validate_subrange`) |
| BasicStrs.Index | src/str.rs:435-448 | indexing panics exactly when `get` would be `None`, and otherwise yields the valid piece |
| BasicStrs.IndexIsGet | src/str.rs:435-448 | indexing and `get` agree: a value exactly when `get` is `Some`, and then the same string |
| BasicStrs.FrontValidBackValid | src/str.rs:386-398 | in valid text, a valid front part leaves a valid back part |
| BasicStrs.SplitAt | src/str.rs:386-398 | `split_at(mid)` succeeds exactly when `mid` is in bounds and the front is valid; the two parts are valid, and together they are the string, with `mid` elements in the front |
| BasicStrs.SplitAtIsGet | src/str.rs:386-398 | `split_at(mid)` succeeds exactly when `get(..mid)` and `get(mid..)` are both `Some`, and then it is those two |
| BasicStrs.GetAsWritten | src/str.rs:328-338 | `get` over the as-written UTF-8 `validate_subrange` returns `Some` exactly when that check passes on the in-bounds piece. It equals the corrected `get` for every other policy |
| BasicStrs.IndexAsWritten | src/str.rs:435-448 | indexing over the as-written check yields a value exactly when the as-written `get` does, and agrees with the corrected indexing outside UTF-8 |
| BasicStrs.SplitAtAsWritten | src/str.rs:386-398 | `split_at` over the as-written check succeeds exactly when both as-written `get`s do, and agrees with the corrected one outside UTF-8 |
| BasicStrs.GetAsWrittenInvalid | src/str.rs:328-338 | as written, `get(0..1)` on "é" returns the invalid `BasicStr` `[0xC3]`, which the corrected `get` refuses |
| BasicStrs.SplitAtAsWrittenPanics | src/str.rs:386-398 | as written, `split_at(4)` on "😀A" panics, although the cut is at a scalar boundary and the corrected `split_at` succeeds |
| BasicStrs.Cmp | src/str.rs:561-565 | `cmp` is `Equal` exactly on equal strings |
| BasicStrs.PartialCmp | src/str.rs:573-577 | `partial_cmp` is always `Some`, and `Equal` exactly on equal strings (`PartialEq` at lines 567-571) |
| BasicStrs.CmpOrder | src/str.rs:561-577 | `cmp` is antisymmetric and transitive, and `partial_cmp` is `Some(cmp)` |
| BasicStrs.UnicodeChars | src/str.rs:609-637 | `unicode_iter` yields scalars whose encoding is the string, and their number lies between `len / max_encoding_len` and `len` |
| BasicStrs.UnicodeStep | src/str.rs:613-631 | one step of `unicode_iter` (a scalar decoded at the front, then the rest) keeps the iterator's yield an encoding of the string within the `size_hint` bounds |
| BasicStrs.UnicodeCharsAreScalars | src/str.rs:609-637 | the scalars `unicode_iter` yields are the string's scalars, and their number respects `size_hint` |
| CStrs.FromCharsWithNullAsWritten | src/cstr_from_chars.rs:8-30 | `from_chars_with_null` as written returns `None` on every properly terminated slice. It returns `Some` exactly on non-empty valid slices with no terminator at all, and those violate the `BasicCStr` invariant (also `from_chars_with_null_mut`, src/cstr.rs:101-123) |
| CStrs.FromCharsWithNullAsWrittenCounterexample | src/cstr_from_chars.rs:9-13 | `[0x41, 0]` is refused while `[0x41]` is accepted as a C string without a terminator |
| CStrs.NoTermFrom | src/cstr_from_chars.rs:15-21 | the scan up to the last element finds no terminator exactly when no element in that range is a terminator |
| CStrs.FromCharsWithNull | src/cstr_from_chars.rs:1-30 | the corrected `from_chars_with_null` is `Some` exactly when the slice ends in its only terminator and is valid, as the doc comment at lines 2-5 states; the result keeps the invariant |
| CStrs.GuardInverted | src/cstr_from_chars.rs:9-13 | on valid non-empty slices with no terminator before the last element, the as-written and the corrected constructors disagree on every input |
| CStrs.FirstTerm | src/cstr.rs:129-141 | the scan for the first terminator finds its first occurrence or reports that there is none |
| CStrs.SplitFromChars | src/cstr.rs:129-141 | `split_from_chars` returns a valid C string and the rest, which together are the input; no terminator means `None` |
| CStrs.SplitFromCharsSpec | src/cstr.rs:125-141 | `split_from_chars` is `Some` exactly when some terminated prefix is valid. That prefix is then the shortest terminated one, and the result is it and the rest (also `split_from_chars_mut`, lines 147-167) |
| CStrs.TermLen | src/cstr.rs:176-187 | the length `from_raw` computes, up to and including the first terminator, delimits a terminated prefix of the memory |
| CStrs.ScanToTerm | src/cstr.rs:176-181 | the `end.offset(1)` walk to the terminator stops just after the first terminator |
| CStrs.FromRaw | src/cstr.rs:169-187 | `from_raw`, under its safety precondition that the terminated range is valid, gives the C string over exactly that range |
| CStrs.ValidateFromRaw | src/cstr.rs:209-229 | `validate_from_raw` is `Ok` exactly when the terminated range is valid, and gives the C string over it; otherwise it gives `validate_range`'s error on that range (also `validate_from_raw_mut`, lines 231-251) |
| CStrs.TerminatorValid | src/cstr.rs:80-86 | the terminator on its own is valid text for every policy |
| CStrs.AsBasicStrWithNul | src/cstr.rs:71-78 | `as_basic_str_with_nul` is a valid `BasicStr` over all the elements |
| CStrs.AsBasicStrWithoutNul | src/cstr.rs:80-86 | `as_basic_str_without_nul` is a valid `BasicStr` over everything but the terminator, and it holds no terminator |
| CStrs.Cmp | src/cstr.rs:338-342 | `cmp` is `Equal` exactly on equal C strings |
| CStrs.PartialCmp | src/cstr.rs:350-354 | `partial_cmp` is always `Some`, `Equal` exactly on equal C strings (`PartialEq` at lines 344-348) |
| CStrs.TerminatorKeepsOrder | src/cstr.rs:338-342 | appending the terminator to two terminator-free slices does not change their ordering |
| CStrs.CmpWithoutNul | src/cstr.rs:338-342 | ordering C strings with their terminators is the same as ordering them without |
| Strings.New | src/string.rs:39-45 | `new` is the empty string, which is valid |
| Strings.WithCapacity | src/string.rs:47-53 | `with_capacity` is the same string as `new` |
| Strings.FromCharsUnchecked | src/string.rs:83-90 | `from_chars_unchecked` on valid units gives a valid string |
| Strings.IntoChars | src/string.rs:97-100 | `into_chars` gives valid units |
| Strings.IntoCharsRoundTrip | src/string.rs:83-100 | `into_chars` and `from_chars_unchecked` are mutually inverse |
| Strings.FromChars | src/string.rs:176-192 | `from_chars` is `Ok` exactly on valid units, with the same units. An error carries `validate_range`'s error, and both `into_bytes` and `as_bytes` return the units unchanged (lines 127-155) (`Strings.IntoBytes`, `Strings.AsBytes` and `Strings.CharsError` are those accessors) |
| Strings.FromCharsAgrees | src/string.rs:176-192 | the owned `from_chars` agrees with `BasicStr::from_chars` on success and error, and retrying on the returned units gives the same result |
| Strings.Deref | src/string.rs:207-213 | `deref` is a valid `BasicStr` over the same units |
| Strings.ResizeWithZeroTerm | src/string.rs:200 | `resize_with(len, zero_term)` keeps the first elements and fills the new ones with the terminator |
| Strings.ResizeGrows | src/string.rs:200 | growing keeps the old units as a prefix and keeps every unit a unit of the policy |
| Strings.PushWith | src/string.rs:195-204 | `push` growing by `n` units succeeds exactly when `n` covers the encoding. The string then is the old units, the encoding, and `n - encoding_len` terminators |
| Strings.PushAsWritten | src/string.rs:195-204 | `push` as written, with UTF-16's as-written `encoding_len`, appends exactly the encoding except for U+FFFF in UTF-16 |
| Strings.PushAsWrittenCounterexample | src/string.rs:195-204 | as written, pushing U+FFFF onto an empty UTF-16 string leaves `[0xFFFF, 0]`, a stray terminator, where the corrected `push` leaves `[0xFFFF]` |
| Strings.Push | src/string.rs:195-204 | the corrected `push` appends exactly the scalar's encoding, and the string stays valid |
| Strings.PushScalars | src/string.rs:195-204 | after `push(c)` the string's scalars are the old ones followed by `c` |
| Strings.PushStr | src/string.rs:112-117 | `push_str` appends the slice's units and the string stays valid |
| Strings.PushStrScalars | src/string.rs:112-117 | after `push_str(t)` the scalars are the old ones followed by `t`'s |
| Strings.PushEachIsPushStr | src/string.rs:112-117 | pushing scalars one by one appends exactly their encoding, which is what `push_str` of their encoding appends |
| Strings.PushAll | src/string.rs:195-204 | pushing any list of scalars keeps the string valid |
| Strings.Cmp | src/string.rs:278-304 | `cmp` (and `partial_cmp`) is `Equal` exactly on equal strings (`PartialEq` at lines 254-258) and is the `BasicStr` ordering of the derefs |
| Strings.FromUtf8 | src/string.rs:323-327 | `from_utf8` of a standard string gives a valid UTF-8 string over the same bytes |
| Strings.IntoUtf8 | src/string.rs:328-331 | `into_utf8` gives well-formed UTF-8, and `from_utf8` of it gives the string back |
| ArrayStrings.FromChars | src/array_str.rs:96-103 | `from_chars` is `Ok` exactly on valid arrays, with the same array; otherwise it is `validate_range`'s error, at the end of a valid prefix |
| ArrayStrings.AsBasicStr | src/array_str.rs:83-87 | `as_basic_str` (and `Deref`, lines 105-111) is a valid `BasicStr` of length `N` over the array |
| ArrayStrings.FromCharsAgrees | src/array_str.rs:96-103 | the array `from_chars` agrees with `BasicStr::from_chars` on success and error |
| ArrayStrings.TryFromStr | src/array_str.rs:183-194 | `try_from(&str)` succeeds exactly when the length is `N`. An error is a `LengthError` carrying the actual length and `N` (lines 170-180) |
| ArrayStrings.TryFromIsFromChars | src/array_str.rs:183-194 | for a string of length `N`, `try_from` builds what the validating `from_chars` builds |
| ArrayStrings.FromCharArray | src/array_str.rs:197-202 | `From<[char; N]>` gives the array as a `U32ArrayString`, which `from_chars` would also accept |
| ArrayStrings.AsChars | src/array_str.rs:68-71 | `as_chars` is `N` valid units |
| ArrayStrings.IntoChars | src/array_str.rs:73-76 | `into_chars` gives `N` units from which `from_chars` rebuilds the same array string |
| ArrayStrings.EqSameLength | src/array_str.rs:21-35 | equality across lengths is slice equality, so equal array strings have the same `N`; equality with a `BasicStr` agrees |
| ArrayStrings.PartialCmp | src/array_str.rs:39-46 | `partial_cmp` across lengths is always `Some`, `Equal` exactly on equal arrays, and is the `BasicStr` ordering |
| ArrayStrings.PartialCmpStr | src/array_str.rs:48-54 | `partial_cmp` against a `BasicStr` is always `Some` of the `BasicStr` ordering |
| ArrayStrings.Cmp | src/array_str.rs:56-60 | `cmp` is `partial_cmp`'s value and `Equal` exactly on equal arrays |
| Patterns.FirstWindow | src/pattern.rs:68-73 | the forward window loop over `lo..hi` finds the first window that equals the needle, or none in the range |
| Patterns.FirstNeedle | src/pattern.rs:63-77 | the corrected substring `first_match` is `Some` exactly when the needle occurs, at its first occurrence |
| Patterns.EmptyNeedleMatches | src/pattern.rs:63-95 | the empty needle matches at offset 0 forwards and at the end backwards |
| Patterns.FirstNeedleAsWrittenWrong | src/pattern.rs:68 | `first_match` as written is the first occurrence only when that occurrence does not end the slice; an occurrence at the end, and the empty needle in the empty slice, give `None` (`0..len - n` leaves out the last window) |
| Patterns.FirstNeedleAsWrittenCounterexamples | src/pattern.rs:68 | "b" is not found in "ab", and "" is not found in "" (`Patterns.FirstNeedleAsWritten` is the loop as written) |
| Patterns.LastWindow | src/pattern.rs:86-91 | the backward window loop finds the last window before `hi` that equals the needle |
| Patterns.LastNeedle | src/pattern.rs:79-95 | the corrected substring `last_match` is `Some` exactly when the needle occurs, at its last occurrence |
| Patterns.LastNeedleAsWrittenShape | src/pattern.rs:86-87 | `last_match` as written can only ever return the window at offset 0 (`&slice[..i][..n]`). It returns `None` when the slice has the needle's length, and panics when the slice is longer but at most twice as long (`Patterns.LastNeedleAsWritten` is the function as written) |
| Patterns.LastWindowAsWrittenFront | src/pattern.rs:86-87 | every window the as-written loop returns starts at offset 0 (`Patterns.LastWindowAsWritten` is that loop) |
| Patterns.LastNeedleAsWrittenCounterexamples | src/pattern.rs:82-94 | "ab" in "abxab" is found at 0 instead of 3; "a" in "aa" panics; "a" in "a" is not found |
| Patterns.FirstScalar | src/pattern.rs:117-125 | the `decode_buf` loop of the scalar patterns returns a span inside the slice |
| Patterns.FirstScalarAsWritten | src/pattern.rs:117-125 | the forward scalar loop with the as-written `encoding_len`: a match lies inside the slice, and `&slice[..encoding_len(c)]` past the remainder is a panic |
| Patterns.FirstScalarAsWrittenDiffers | src/pattern.rs:117-125 | the as-written loop returns the corrected match, except on a UTF-16 match of U+FFFF: there it takes two units, or panics when U+FFFF ends the slice (cause: src/utf.rs:255). It is `None` exactly when the corrected loop is |
| Patterns.FirstScalarAsWrittenCounterexamples | src/pattern.rs:120 | U+FFFF in UTF-16 `[FFFF, D83D, DE00]` matches the invalid `[FFFF, D83D]` and leaves the invalid `[DE00]`; in `[FFFF]` it panics; the corrected loop matches one unit both times |
| Patterns.FirstIndex | src/pattern.rs:117-125 | the index of the first scalar the pattern accepts lies inside the list |
| Patterns.FirstIndexCorrect | src/pattern.rs:117-125 | that index is accepted and none before it is; with no index, no scalar is accepted |
| Patterns.LastIndex | src/pattern.rs:144-153 | the index of the last scalar the pattern accepts lies inside the list |
| Patterns.LastIndexCorrect | src/pattern.rs:144-153 | that index is accepted and none after it is; with no index, none is accepted |
| Patterns.ScalarSpanContents | src/pattern.rs:117-125 | the span of the `i`-th scalar in encoded text holds exactly that scalar's encoding |
| Patterns.FirstScalarSpec | src/pattern.rs:117-125 | on any encoded list of scalars, the forward loop returns the span of the first accepted scalar (closures at lines 161-169, sets at 222-230) |
| Patterns.LastScalarAsWritten | src/pattern.rs:144-153 | `last_match` of the scalar patterns as written always returns a prefix of the slice, starting at offset 0 |
| Patterns.LastScalarAsWrittenPrefix | src/pattern.rs:144-153 | the as-written match is `Span(0, start + len)` of the intended match `Span(start, len)`: it reaches from the front of the slice to the end of the right scalar |
| Patterns.LastScalarAsWrittenSpec | src/pattern.rs:147 | as written, on encoded text the match is the whole prefix up to and including the last accepted scalar, because `offset_from` of two slices that start together is 0 (the same at lines 207 and 266) |
| Patterns.LastScalarAsWrittenCounterexample | src/pattern.rs:144-153 | 'b' in "ab" is returned as "ab", where the corrected matcher returns "b" |
| Patterns.LastScalar | src/pattern.rs:144-153 | the corrected backward loop returns a span inside the slice |
| Patterns.LastScalarSpec | src/pattern.rs:144-153 | on any encoded list of scalars, the corrected backward loop returns the span of the last accepted scalar (closures at lines 204-213, sets at 263-272) |
| Patterns.FirstScalarUncheckedAgrees | src/pattern.rs:103-115 | on valid text the `decode_buf_unchecked` loop returns what the checked loop returns (also lines 171-183 and 232-244) (`Patterns.FirstScalarUnchecked` is that loop over the corrected decoder) |
| Patterns.LoweredTo | src/utf.rs:225 | the scalars that the as-written UTF-16 `decode_buf_unchecked` turns into a given value are exactly those whose lowered value it is |
| Patterns.FirstCharUnchecked16AsWrittenStep | src/pattern.rs:103-115 | one turn of the as-written UTF-16 `char` loop: it matches when the as-written decoder's value equals the `char`, cuts the as-written `encoding_len` there or panics, and otherwise goes on from the valid rest (`Patterns.FirstCharUnchecked16AsWritten` is that loop) |
| Patterns.FirstCharUnchecked16AsWritten | src/pattern.rs:103-115 | a match of the as-written UTF-16 `char` loop lies inside the slice |
| Patterns.FirstCharUnchecked16AsWrittenIs | src/pattern.rs:103-115 | as written, searching UTF-16 text for a `char` finds the first scalar whose lowered value is that `char`, and returns its as-written `encoding_len` from there, or panics past the end |
| Patterns.FirstCharUnchecked16AsWrittenCounterexample | src/pattern.rs:103-115 | on the valid `D83D DE00` (U+1F600), searching for U+F600 as written matches the lone high surrogate `[D83D]`, leaving the invalid `[DE00]`; searching for U+1F600 finds nothing. The corrected search does the opposite |
| Patterns.LastScalarUncheckedAgrees | src/pattern.rs:129-142 | on valid text the corrected `decode_back_unchecked` loop returns what the corrected checked loop returns (also lines 189-202 and 248-261) (`Patterns.LastScalarUnchecked` is that loop over the corrected decoder) |
| Patterns.FirstMatch | src/pattern.rs:17-18 | a match of any pattern is a subslice of the slice |
| Patterns.LastMatch | src/pattern.rs:42-43 | a match of any pattern is a subslice of the slice |
| Patterns.UncheckedAgrees | src/pattern.rs:20-28 | on valid text, `first_match_unchecked` and `last_match_unchecked` return what `first_match` and `last_match` do, for every pattern (the defaults at lines 26-28 and 51-53) (`Patterns.FirstMatchUnchecked` and `Patterns.LastMatchUnchecked` are the unchecked searches, which `split_once`, `find` and the split iterators call at src/str.rs:98-270) |
| Patterns.ScalarMatchCorrect | src/pattern.rs:102-278 | on valid text, a scalar pattern's first or last match exists exactly when an accepted scalar does, and it is that scalar's span and holds its encoding |
| Patterns.MatchValid | src/pattern.rs:10-12 | on valid text, every match of a pattern whose needle is itself valid text is valid text (the safety promise of lines 10-12 and 35-37) |
| Patterns.NeedleMatchValid | src/pattern.rs:10-12 | the substring pattern's matches are copies of the needle, so valid when the needle is |
| Patterns.ScalarMatchValid | src/pattern.rs:35-37 | a scalar pattern's matches on valid text are one scalar's encoding, so valid |
| Search.SplitOnce | src/str.rs:92-114 | `split_once` is `Some` exactly when the pattern matches. The parts are the text before and after the first match, and the left part, the match and the right part give back the string |
| Search.SplitOnceValid | src/str.rs:92-114 | both parts of `split_once` are valid text, which the `from_chars_unchecked` calls at lines 110-111 need |
| Search.Find | src/str.rs:116-126 | `find` is `Some` exactly when `split_once` is, and is the length of its left part |
| Search.FindNeedle | src/str.rs:116-126 | with a substring pattern, `find` is the first offset where the needle occurs, and `None` exactly when it does not occur |
| Search.RSplitOnce | src/str.rs:128-150 | `rsplit_once` is `Some` exactly when the pattern matches. The parts are the text before and after the last match, and together with the match they give back the string |
| Search.RSplitOnceValid | src/str.rs:128-150 | both parts of `rsplit_once` are valid text |
| Search.RFind | src/str.rs:152-162 | `rfind` is `Some` exactly when `rsplit_once` is, and is the length of its left part |
| Search.RFindNeedle | src/str.rs:152-162 | with a substring pattern, `rfind` is the last offset where the needle occurs |
| Search.NextFront | src/str.rs:186-204 | `Split::next`: an exhausted iterator yields `None`; with no match it yields the whole rest and becomes exhausted; at a match it yields the text before it and keeps the text after it (`RSplit::next_back`, lines 268-287, is the same code) |
| Search.NextBack | src/str.rs:214-235 | `RSplit::next`: the same with the last match, yielding the text after it and keeping the text before it (`Split::next_back`, lines 241-262, is the same code) |
| Search.StepsKeepValid | src/str.rs:186-287 | both iterators keep their state valid text and yield only valid text |
| Search.Fused | src/str.rs:186-287 | once an iterator yields `None` it stays exhausted, from either end |
| Search.EmptyNeedleSplitOnce | src/str.rs:92-114 | with the empty needle, `split_once` gives an empty left part and the whole string as the right part |
| Search.EmptyNeedleStep | src/str.rs:186-204 | when `split_once` with the empty needle gives an empty left part, `Split::next` yields that empty item and keeps the whole text |
| Search.EmptyNeedleNeverEnds | src/str.rs:186-204 | with the empty needle, `Split` never ends: every step yields an empty item and keeps the whole text |
| Search.MatchesAdvance | src/str.rs:186-235 | with a `char`, a closure, a `char` set or a non-empty needle, every match is non-empty, so each iterator step consumes text |
| Search.SplitItems | src/str.rs:186-204 | a `Split` that is not yet exhausted yields at least one item |
| Search.RSplitItems | src/str.rs:214-235 | an `RSplit` that is not yet exhausted yields at least one item |
| Search.SplitJoin | src/str.rs:164-204 | splitting on a `char` or a non-empty substring and joining the items with the separator gives back the string (`Search.Join` joins items with a separator) |
| Search.RSplitJoin | src/str.rs:168-235 | splitting from the back and joining the items in reverse order with the separator gives back the string |

## Left out

- The `_mut` variants (`from_chars_mut`, `get_mut`, `split_at_mut`, `split_from_chars_mut`, `from_raw_mut`, `validate_from_raw_mut`, `from_chars_with_null_mut`, `as_chars_mut`, `IndexMut`, `DerefMut`) are not separate members. They run the same checks on the same elements, and mutable borrowing has no counterpart in a value model.
- `get_unchecked` and `get_unchecked_mut` are left out. They do no checking, so there is nothing to state beyond the slice itself.
- `Debug`, `Display`, `Hash`, `DebugStr` and `DisplayStr` are left out (src/utf.rs:327-378, src/str.rs:545-585, src/cstr.rs:310-362, src/array_str.rs:173-181, src/string.rs:306-321): they write to a formatter, which is I/O.
- The allocator API, `Box` conversions and capacity are left out. This covers `into_boxed_chars`, `from_boxed_str`, `from_boxed_chars_unchecked` and the `_in` constructors. `Strings.WithCapacity` models `with_capacity` as `new`, because capacity is not observable in a value model.
- Raw `*const` memory is modelled as a sequence of units that contains a terminator: `from_raw`, `validate_from_raw` and `offset_from`. `as_ptr` and `as_mut_ptr` are left out.
- `Strings.PushWith`: `base_len.saturating_add(encoding_len)` at src/string.rs:198 cannot saturate on unbounded integers, so the model does not express saturation. A buffer that long cannot be allocated anyway.
- `SliceIndex` is reduced to a half-open range `lo..hi`. Forms such as `..hi`, `lo..` and `..` are the special cases `0..hi`, `lo..len` and `0..len`, and inclusive ranges are `lo..hi + 1`.
- The `chars()` iterator (src/str.rs:587-607) is left out. It is the slice iterator over the elements.
- `from_int_unchecked` (src/traits.rs:28-32) is left out. Its contract is `from_int` without the check.
- `LengthError`'s `Display` message is left out as formatting.
- `src/view.rs`, `src/cstring.rs` and `src/lib.rs` are not part of this model. They are a borrowed-view type, an owned C string and crate wiring.
- `src/cstr_from_chars_const.rs` is not part of this model. The const `from_chars_with_null` is modelled by the same members as the default one in src/cstr_from_chars.rs.
- `CStrs.FromRaw`: the safety precondition of `from_raw` (a terminator exists, and the range is valid) is a `requires`, as in the source.
- The const-feature loops that never finish are modelled with an iteration budget `fuel`. `None` means the budget ran out. The lemmas state non-termination as "`None` for every budget", and termination itself cannot be stated directly.
  - `ConstUtf8.RangeAsWritten`
  - `ConstUtf8.SubrangeLoop`
  - `ConstUtf16.RangeAsWritten`
- PairValueAsWritten: it models the `u16` subtraction `v1 - 0xDC00` at src/utf.rs:239 (and `*v1 - 0xDC00` at 284) with release-mode wrap-around, `% 0x10000`. A debug build panics on that overflow instead, whenever `decode_buf` as written meets a high surrogate followed by a unit below 0xDC00.
- Patterns.FirstMatch: the substring case is built on the corrected `Patterns.FirstNeedle`, not on `Patterns.FirstNeedleAsWritten` (src/pattern.rs:68). The scalar cases use the corrected `decode_buf` (src/utf.rs:232-244, modelled as written in `Utf16Codec.DecodeBufAsWritten`) through `Policy.DecodeBuf`, and the corrected `encoding_len`. With the as-written UTF-16 `encoding_len` (src/utf.rs:255, `Patterns.FirstScalarAsWrittenDiffers`), a match of U+FFFF takes two units, or panics when U+FFFF ends the slice.
- Policy.DecodeBufFits: holds for the corrected `encoding_len` only. With the as-written UTF-16 `encoding_len`, U+FFFF counts as two units though `decode_buf` consumed one, so `&slice[..encoding_len(c)]` can run past the scalar, or past the slice (`Patterns.FirstScalarAsWrittenDiffers`).
- Patterns.FirstScalar: the match length is the corrected `encoding_len`. The loop with the as-written one is `Patterns.FirstScalarAsWritten`, and the difference (U+FFFF in UTF-16 only) is `Patterns.FirstScalarAsWrittenDiffers`.
- Patterns.FirstScalarSpec: the span of the first accepted scalar is the corrected match. As written, a UTF-16 match of U+FFFF spans two units or panics (`Patterns.FirstScalarAsWrittenDiffers`).
- Patterns.ScalarMatchCorrect: a forward match holds exactly the scalar's encoding only with the corrected `encoding_len`. As written, a UTF-16 match of U+FFFF also holds the next unit (`Patterns.FirstScalarAsWrittenCounterexamples`).
- Patterns.MatchValid: the safety promise of src/pattern.rs:10-12 holds for the corrected matchers. As written, U+FFFF in UTF-16 `[FFFF, D83D, DE00]` matches the invalid `[FFFF, D83D]` (`Patterns.FirstScalarAsWrittenCounterexamples`).
- Patterns.ScalarMatchValid: as for `Patterns.MatchValid`. A forward UTF-16 match of U+FFFF as written can split the surrogate pair after it.
- Search.SplitOnceValid: both parts are valid for the corrected matchers. As written, `split_once('\u{FFFF}')` on UTF-16 `[FFFF, D83D, DE00]` builds the invalid right part `[DE00]` with `from_chars_unchecked` (src/str.rs:110-111). Through the as-written UTF-16 `decode_buf_unchecked` (src/utf.rs:225), `split_once('\u{F600}')` on `[D83D, DE00]` also gives the invalid right part `[DE00]` (`Patterns.FirstCharUnchecked16AsWrittenCounterexample`).
- Search.StepsKeepValid: the iterator state stays valid for the corrected matchers. As written, `Split` on a U+FFFF separator in UTF-16 can keep the invalid state `[DE00]`. The as-written UTF-16 `decode_buf_unchecked` (src/utf.rs:225) lets a U+F600 separator cut `[D83D, DE00]` after `D83D`, leaving the invalid state `[DE00]`.
- Patterns.LastMatch: the substring case is built on the corrected `Patterns.LastNeedle`, not on `Patterns.LastNeedleAsWritten` (src/pattern.rs:86-87). The scalar cases use the corrected `Patterns.LastScalar`, not `Patterns.LastScalarAsWritten`. That in turn uses the corrected `decode_back`, not `Utf8Codec.DecodeBackAsWritten` (src/utf.rs:197-217) or the UTF-16 one modelled in `Utf16Codec.DecodeBackAsWrittenWrong` (src/utf.rs:276-289).
- Policy.DecodeBufUnchecked: agrees with `decode_buf` only for the corrected decoders. The UTF-16 arm is the corrected `Utf16Codec.DecodeBufUnchecked`; as written (src/utf.rs:225) a pair decodes 0x10000 too low (`Utf16Codec.DecodeBufUncheckedAsWrittenOffset`), so `D83D DE00` gives U+F600.
- Policy.DecodeBackUnchecked: agrees with `decode_back` only for the corrected decoders. As written, the UTF-8 arm keeps the lead's marker bits (src/utf.rs:187, `Utf8Codec.DecodeBackUncheckedAsWritten`), and the UTF-16 arm drops the 0x10000 offset of a pair (src/utf.rs:269, `Utf16Codec.DecodeBackUncheckedAsWrittenOffset`).
- Utf16Codec.DecodeBackUnchecked: the corrected function. As written (src/utf.rs:269) a pair comes back 0x10000 too low, so `D836 DC00` gives the surrogate 0xD800 (`Utf16Codec.DecodeBackUncheckedAsWrittenOffset`).
- Patterns.FirstScalarUncheckedAgrees: the unchecked loop is built on the corrected `decode_buf_unchecked`. As written, the UTF-16 loop compares values 0x10000 too low for pairs (src/utf.rs:225), so `'\u{F600}'` matches `[D83D]` in `[D83D, DE00]` while the checked loop finds nothing (`Patterns.FirstCharUnchecked16AsWrittenIs`, `Patterns.FirstCharUnchecked16AsWrittenCounterexample`).
- Patterns.LastScalarUncheckedAgrees: the unchecked loop is built on the corrected `decode_back_unchecked`. As written, the UTF-16 one drops the 0x10000 offset of a pair (src/utf.rs:269, `Utf16Codec.DecodeBackUncheckedAsWrittenOffset`), the UTF-8 one keeps the lead's marker bits (src/utf.rs:187), and the match offset is 0 (src/pattern.rs:136).
- Patterns.UncheckedAgrees: holds for the unchecked searches built on the corrected decoders. As written, on UTF-16 text the `char` search of `first_match_unchecked` matches by the value 0x10000 too low (`Patterns.FirstCharUnchecked16AsWrittenCounterexample`), and `last_match_unchecked` inherits the faults of src/utf.rs:269 and src/pattern.rs:136.
- Search.SplitOnce: modelled over `Patterns.FirstMatch`, so over the corrected primitives above. As written, `split_once` with a substring that occurs only at the end of the string returns `None` (`Patterns.FirstNeedleAsWrittenWrong`). `split_once` calls `first_match_unchecked` (src/str.rs:98), whose UTF-16 scalar loop uses the as-written `decode_buf_unchecked` (src/utf.rs:225): a pair decodes 0x10000 too low, so `split_once('\u{F600}')` on the valid `[D83D, DE00]` matches `[D83D]` and builds the invalid right part `[DE00]`, while `split_once('\u{1F600}')` finds nothing (`Patterns.FirstCharUnchecked16AsWrittenCounterexample`). With the as-written UTF-16 `encoding_len`, `split_once('\u{FFFF}')` on `[FFFF, D83D, DE00]` gives the invalid right part `[DE00]`, and on `[FFFF]` it panics (`Patterns.FirstScalarAsWrittenCounterexamples`).
- Search.Find: modelled over the corrected primitives, like `Search.SplitOnce`. As written, `find` of a substring that occurs only at the end of the string returns `None`, and `find('\u{FFFF}')` on UTF-16 `[FFFF]` panics (`Patterns.FirstScalarAsWrittenCounterexamples`). `find` calls `first_match_unchecked` (src/str.rs:119), so with the as-written UTF-16 `decode_buf_unchecked` (src/utf.rs:225) `find('\u{1F600}')` on `[D83D, DE00]` is `None` and `find('\u{F600}')` is `Some(0)` (`Patterns.FirstCharUnchecked16AsWrittenCounterexample`).
- Search.RSplitOnce: modelled over `Patterns.LastMatch`, so over the corrected primitives. As written, a substring match is always reported at offset 0 or panics (`Patterns.LastNeedleAsWrittenShape`), and a scalar match covers the whole prefix (`Patterns.LastScalarAsWrittenSpec`).
- Search.RFind: modelled over the corrected primitives, like `Search.RSplitOnce`. As written it can only return `Some(0)`, `None`, or panic.
- Search.NextFront: `Split::next` is modelled over the corrected `Patterns.FirstMatch`, so a separator that ends the text is found. With the as-written UTF-16 `encoding_len`, a U+FFFF separator swallows the unit after it, or panics when it ends the text. With the as-written UTF-16 `decode_buf_unchecked` (src/utf.rs:225), a separator of at least U+10000 is never found and one below it can match the high half of a pair.
- Search.NextBack: `RSplit::next` and `Split::next_back` are modelled over the corrected `Patterns.LastMatch`.
- Search.SplitJoin: the join round trip holds for the iterators built on the corrected primitives. With the as-written substring search, a separator that ends the text is not split off. With the as-written UTF-16 `encoding_len`, a U+FFFF separator takes two units, so joining with the one-unit separator does not give back the text, and a U+FFFF at the end panics. With the as-written UTF-16 `decode_buf_unchecked` (src/utf.rs:225), splitting on a separator of at least U+10000 gives the whole text, so the round trip holds there only by accident, and a U+F600 separator cuts a pair (`Patterns.FirstCharUnchecked16AsWrittenCounterexample`).
- Search.RSplitJoin: the join round trip holds for the iterators built on the corrected primitives. With the as-written `last_match`, the join does not hold.
- BasicStrs.UnicodeChars: `unicode_iter` is modelled over the corrected `decode_buf_unchecked`. For UTF-16 the as-written one returns pairs 0x10000 too low (`Utf16Codec.DecodeBufUncheckedAsWrittenOffset`, src/utf.rs:225).
- BasicStrs.Get: modelled over the corrected UTF-8 `validate_subrange`. The as-written behaviour is `BasicStrs.GetAsWritten`. The same holds for `BasicStrs.Index` and `BasicStrs.SplitAt`, with `BasicStrs.IndexAsWritten` and `BasicStrs.SplitAtAsWritten`.
- BasicStrs.FromCharsConst: modelled over the corrected const validators (`ConstUtf8.ValidateRange`, `ConstUtf16.ValidateRange`). As written, the const UTF-8 and UTF-16 `from_chars` never return `Ok` on non-empty text, and loop forever on text that starts with ASCII.
- Strings.Push: modelled with the corrected UTF-16 `encoding_len`. The as-written `push` is `Strings.PushAsWritten`.
- Policy.ValidateSubrange: the const-feature UTF-8 `validate_subrange` (src/utf_const_char_traits.rs:105-148) is taken to be the corrected default one. As written it does not finish on slices that end in a continuation byte (`ConstUtf8.SubrangeAsWrittenDiverges`).

## Findings

| source | as written | input that shows it | evidently intended | confidence | as-written member | corrected member |
|---|---|---|---|---|---|---|
| src/utf_char_traits.rs:18-30 | UTF-8 `validate_subrange` accepts any single non-continuation byte. From the back, it accepts a lead `110xxxxx` at distance 1 and anything at distance 2, without checking that the lead announces the trailing bytes. A four-byte sequence falls through to `Err` | `get(0..1)` on "é" (`C3 A9`) passes `[C3]`; `ABé[..3]` passes; "😀" is rejected with `{4, None}` | on a slice of valid text, pass exactly when the slice is valid (src/traits.rs:148-166) | high, not executed | Utf8Traits.SubrangeAcceptsLoneLead | Utf8Traits.SubrangeCorrect |
| src/str.rs:328-338 | `get` and `split_at` trust the as-written UTF-8 `validate_subrange` | `get(0..1)` on "é" returns the invalid `[C3]`; `split_at(4)` on "😀A" panics | `get` returns only valid pieces; `split_at` at a boundary succeeds | high, not executed | BasicStrs.GetAsWrittenInvalid | BasicStrs.Get |
| src/str.rs:386-398 | `split_at` unwraps the as-written UTF-8 `validate_subrange` on both halves | `split_at(4)` on "😀A" (`F0 9F 98 80 41`) panics although 4 is a boundary | succeed exactly when the front is valid | high, not executed | BasicStrs.SplitAtAsWrittenPanics | BasicStrs.SplitAt |
| src/utf.rs:206-209 | UTF-8 `decode_back` requires one leading one on a byte seen first (`i == 0`), which rejects ASCII. It masks the lead with `(0x100 >> i) - 1`, which keeps the lead's marker bits | `decode_back("A")` is `None`; `decode_back("é")` is U+10E9 | return the last scalar and the rest | high, not executed | Utf8Codec.DecodeBackAsWrittenWrong | Utf8Codec.DecodeBackEncode |
| src/utf.rs:187 | UTF-8 `decode_back_unchecked` uses the same mask | the last scalar of "é" comes back as U+10E9, and four-byte scalars leave the scalar range | return the last scalar | high, not executed | Utf8Codec.DecodeBackUncheckedAsWritten | Utf8Codec.DecodeBackUnchecked |
| src/utf.rs:236-242 | UTF-16 `decode_buf` returns `None` when a high surrogate is followed by a low one (inverted guard). It assembles pairs without the 0x10000 offset, and after a single unit it returns the rest from index 2 | `D83D DE00` (U+1F600) gives `None`; "AB" gives 'A' and an empty rest | the section 2.2 decoding of RFC 2781 | high, not executed | Utf16Codec.DecodeBufAsWrittenWrong | Utf16Codec.DecodeBufEncode |
| src/utf.rs:225 | UTF-16 `decode_buf_unchecked` assembles pairs without the 0x10000 offset. The `char` loop of `first_match_unchecked` (src/pattern.rs:103-115), which `split_once` and `find` call (src/str.rs:98, 119), compares that value | `D836 DC00` (U+1D800) gives 0xD800, a surrogate, through `from_u32_unchecked`. `split_once('\u{F600}')` on the valid `D83D DE00` matches `[D83D]` and builds the invalid right part `[DE00]`; `find('\u{1F600}')` there is `None` | add 0x10000 | high, not executed | Utf16Codec.DecodeBufUncheckedAsWrittenOffset | Utf16Codec.DecodeBufUnchecked |
| src/pattern.rs:108 | the `char` loop of `first_match_unchecked` compares the `char` with the value of the as-written UTF-16 `decode_buf_unchecked` (src/utf.rs:225) | on the valid `D83D DE00`, U+F600 matches the lone `[D83D]` and U+1F600 is not found | match exactly where the checked loop matches | high, not executed | Patterns.FirstCharUnchecked16AsWrittenCounterexample | Patterns.FirstScalarUncheckedAgrees |
| src/utf.rs:269 | UTF-16 `decode_back_unchecked` assembles pairs without the 0x10000 offset | `D836 DC00` (U+1D800) gives the surrogate 0xD800; `D83D DE00` gives U+F600 | add 0x10000 | high, not executed | Utf16Codec.DecodeBackUncheckedAsWrittenOffset | Utf16Codec.DecodeBackUnchecked |
| src/utf.rs:284-287 | UTF-16 `decode_back` assembles pairs without the 0x10000 offset, and passes a trailing lone high surrogate to `from_u32_unchecked` | `D83D DE00` gives U+F600; `[D800]` gives 0xD800 | return the last scalar; `None` on a lone surrogate | high, not executed | Utf16Codec.DecodeBackAsWrittenWrong | Utf16Codec.DecodeBackEncode |
| src/utf.rs:255 | UTF-16 `encoding_len` tests `< 0xFFFF` | U+FFFF: `encoding_len` says 2, `encode_utf16` writes 1 | `<= 0xFFFF` (below 0x10000) | high, not executed | Utf16Codec.EncodingLenAsWrittenWrong | Utf16Codec.EncodingLen |
| src/pattern.rs:120 | the scalar `first_match` returns `&slice[..encoding_len(c)]`, with the as-written UTF-16 `encoding_len` (src/utf.rs:255) counting U+FFFF as two units. The same slice is at lines 110, 164, 178, 225 and 239; the model exhibits the checked `char` path | `split_once('\u{FFFF}')` on UTF-16 `[FFFF, D83D, DE00]` matches `[FFFF, D83D]`, half a surrogate pair, and the right part `[DE00]` is invalid text built with `from_chars_unchecked` (src/str.rs:110-111); on `[FFFF]`, `find` and `split_once` panic | the match is the scalar's encoding, one unit for U+FFFF | high, not executed | Patterns.FirstScalarAsWrittenCounterexamples | Patterns.FirstScalarSpec |
| src/string.rs:196-204 | `push` grows by the as-written `encoding_len` and encodes over terminators | pushing U+FFFF onto an empty UTF-16 string leaves `[FFFF, 0]` | append exactly the encoding | high, not executed | Strings.PushAsWrittenCounterexample | Strings.Push |
| src/utf_const_char_traits.rs:11-12 | the const UTF-8 `validate_range` `continue`s on ASCII without advancing. It also never advances past a multi-byte sequence's last byte, so that byte is rejected as a stray continuation | "A" loops forever; "é" is rejected with `{1, Some(1)}`; no non-empty input is accepted | agree with the default `validate_range` (`from_utf8`), as the const and default policies are alternatives behind one feature flag | high, not executed | ConstUtf8.RangeAsWrittenCounterexamples | ConstUtf8.ValidateRange |
| src/utf_const_char_traits.rs:126-130 | the const UTF-8 `validate_subrange` `continue`s on a continuation byte without moving `l` or `i` | "é" (`C3 A9`) loops forever | agree with the default `validate_subrange` (corrected) | high, not executed | ConstUtf8.SubrangeAsWrittenDiverges | Utf8Traits.SubrangeCorrect |
| src/utf_const_char_traits.rs:195-216 | the const UTF-16 `validate_range` never advances past a unit that is not a surrogate, nor past the low half of a pair. Its pair guard at line 204 reads `!(0xDC00 <= c) && (c <= 0xDFFF)` | "A" loops forever; `D83D DE00` is rejected with `{1, Some(1)}`; `D800 E000` passes the guard | agree with the default `validate_range` | high, not executed | ConstUtf16.RangeAsWrittenCounterexamples | ConstUtf16.ValidateRange |
| src/utf_const_char_traits.rs:204 | the negation binds only to the first comparison | `c = 0xE000` after a high surrogate is not reported | `!(0xDC00 <= c && c <= 0xDFFF)` | high, not executed | ConstUtf16.GuardPrecedence | ConstUtf16.ValidateRange |
| src/traits.rs:104-112 | `u32` uses `i32` as `Int`, so `MAX.into_int()` is -1 | `u32::MAX.into_int() < 1.into_int()`, breaking the bound documented at lines 16-19 | an `Int` wide enough for `u32` (e.g. `i64`) | medium, not executed | CharInt.U32MaxMinWrap | CharInt.WideMaxMinBound |
| src/cstr_from_chars.rs:10 | `from_chars_with_null` returns `None` when the last element *is* a terminator | `[0x41, 0]` is refused; `[0x41]` is accepted without a terminator | `None` when the last element is not a terminator, as the doc comment at lines 2-5 says | high, not executed | CStrs.FromCharsWithNullAsWrittenCounterexample | CStrs.FromCharsWithNull |
| src/pattern.rs:68 | the substring `first_match` loops over `0..len - n`, leaving out the last window | "b" in "ab" is not found; "" in "" is not found | `0..=len - n` | high, not executed | Patterns.FirstNeedleAsWrittenWrong | Patterns.FirstNeedle |
| src/pattern.rs:86-87 | the substring `last_match` slices `&slice[..i][..n]`, a window that always starts at 0, and panics when `i < n` | "ab" in "abxab" is found at 0; "a" in "aa" panics; "a" in "a" is not found | the window `&slice[i..][..n]` over `(0..=len - n).rev()` | high, not executed | Patterns.LastNeedleAsWrittenShape | Patterns.LastNeedle |
| src/pattern.rs:147 | the scalar `last_match` computes `slice.as_ptr().offset_from(rest.as_ptr())`. Both slices start at the same address, so this is 0, and the match is the whole prefix. The same code is at lines 207 and 266 (checked) and lines 136, 196 and 255 (unchecked); the model exhibits the checked path | 'b' in "ab" is returned as "ab" | the offset of the scalar's encoding, `rest.len()` | high, not executed | Patterns.LastScalarAsWrittenSpec | Patterns.LastScalarSpec |
