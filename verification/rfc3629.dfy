/**
 * UTF-8 as defined by RFC 3629: the byte-sequence grammar of section 4 and the
 * bit layout of section 3. This is the reference the library's validators and
 * decoders are compared against, and the specification of the standard
 * library calls the source relies on (`str::from_utf8`, `char::encode_utf8`, `len_utf8`).
 */
module Rfc3629 {
  import opened Units

  /** A continuation byte `10xxxxxx`. */
  predicate IsCont(b: int) {
    0x80 <= b < 0xC0
  }

  /** Length of the sequence a byte starts, per the table of section 4; 0 for bytes that start none. */
  function Width(b: Byte): nat {
    if b < 0x80 then 1
    else if 0xC2 <= b <= 0xDF then 2
    else if 0xE0 <= b <= 0xEF then 3
    else if 0xF0 <= b <= 0xF4 then 4
    else 0
  }

  /** The range section 4 allows for the second byte after a given first byte. */
  predicate SecondOk(first: Byte, second: Byte) {
    if first == 0xE0 then 0xA0 <= second <= 0xBF
    else if first == 0xED then 0x80 <= second <= 0x9F
    else if first == 0xF0 then 0x90 <= second <= 0xBF
    else if first == 0xF4 then 0x80 <= second <= 0x8F
    else IsCont(second)
  }

  /** One of the productions UTF8-1, UTF8-2, UTF8-3, UTF8-4 of section 4, exactly. */
  predicate ValidSeq(t: seq<Byte>) {
    && |t| > 0
    && |t| == Width(t[0])
    && (|t| >= 2 ==> SecondOk(t[0], t[1]))
    && (forall k :: 2 <= k < |t| ==> IsCont(t[k]))
  }

  /** `UTF8-octets = *( UTF8-char )` */
  predicate WellFormed(s: seq<Byte>)
    decreases |s|
  {
    |s| == 0 || (var w := Width(s[0]); 0 < w <= |s| && ValidSeq(s[..w]) && WellFormed(s[w..]))
  }

  /** Scalar-value boundary of a well-formed buffer: its end, or any byte that is not a continuation byte. */
  predicate Boundary(s: seq<Byte>, p: nat)
    requires p <= |s|
  {
    p == |s| || !IsCont(s[p])
  }

  /** Number of bytes section 3 uses for a scalar (`char::len_utf8`). */
  function EncodedLen(c: Scalar): nat {
    if c < 0x80 then 1 else if c < 0x800 then 2 else if c < 0x1_0000 then 3 else 4
  }

  /** Section 3 bit layout (`char::encode_utf8`). */
  function Encode(c: Scalar): (r: seq<Byte>)
    ensures |r| == EncodedLen(c)
  {
    var x: int := c;
    if x < 0x80 then [x as Byte]
    else if x < 0x800 then [(0xC0 + x / 64) as Byte, (0x80 + x % 64) as Byte]
    else if x < 0x1_0000 then
      [(0xE0 + x / 4096) as Byte, (0x80 + (x / 64) % 64) as Byte, (0x80 + x % 64) as Byte]
    else
      [(0xF0 + x / 262144) as Byte, (0x80 + (x / 4096) % 64) as Byte,
       (0x80 + (x / 64) % 64) as Byte, (0x80 + x % 64) as Byte]
  }

  /** The scalar a single well-formed sequence encodes (section 3, read backwards). */
  function DecodeSeq(t: seq<Byte>): Scalar
    requires ValidSeq(t)
  {
    var b0: int := t[0];
    if |t| == 1 then b0
    else
      var b1: int := t[1];
      if |t| == 2 then (b0 % 32) * 64 + b1 % 64
      else
        var b2: int := t[2];
        if |t| == 3 then (b0 % 16) * 4096 + (b1 % 64) * 64 + b2 % 64
        else
          var b3: int := t[3];
          (b0 % 8) * 262144 + (b1 % 64) * 4096 + (b2 % 64) * 64 + b3 % 64
  }

  /** Division by the field widths of section 3 undoes the packing of a quotient and a remainder. */
  lemma DivModConst(q: int, r: int, k: int)
    requires k == 64 || k == 4096 || k == 262144
    requires 0 <= r < k
    ensures (q * k + r) / k == q && (q * k + r) % k == r
  {
    if k == 64 {
    } else if k == 4096 {
    } else {
    }
  }

  /** Dividing by 64 twice is dividing by 4096, and by 64 three times is dividing by 262144. */
  lemma DivDiv(x: nat)
    ensures x / 4096 == (x / 64) / 64
    ensures x / 262144 == (x / 4096) / 64
  {
    var y, l := x / 64, x % 64;
    var z, m := y / 64, y % 64;
    assert x == z * 4096 + (m * 64 + l);
    DivModConst(z, m * 64 + l, 4096);
    var u, n := z / 64, z % 64;
    assert x == u * 262144 + (n * 4096 + m * 64 + l);
    DivModConst(u, n * 4096 + m * 64 + l, 262144);
  }

  lemma EncodeTwo(c: Scalar)
    requires 0x80 <= c < 0x800
    ensures ValidSeq(Encode(c)) && DecodeSeq(Encode(c)) == c
  {
    var x: int := c;
    var q, l := x / 64, x % 64;
    assert Encode(c) == [0xC0 + q, 0x80 + l];
  }

  /** The three fields section 3 cuts a scalar from U+0800 to U+FFFF into, and their ranges. */
  lemma FieldsThree(x: int)
    requires 0x800 <= x < 0x1_0000
    ensures
      var q, m, l := x / 4096, (x / 64) % 64, x % 64;
      && x == q * 4096 + m * 64 + l
      && 0 <= q < 16 && 0 <= m < 64 && 0 <= l < 64
      && (q == 0 ==> m >= 32)
      && (x < 0xD800 && q == 13 ==> m < 32)
  {
    DivDiv(x);
  }

  lemma EncodeThree(c: Scalar)
    requires 0x800 <= c < 0x1_0000
    ensures ValidSeq(Encode(c)) && DecodeSeq(Encode(c)) == c
  {
    var x: int := c;
    FieldsThree(x);
    var q, m, l := x / 4096, (x / 64) % 64, x % 64;
    assert Encode(c) == [(0xE0 + q) as Byte, (0x80 + m) as Byte, (0x80 + l) as Byte];
    FieldsDecodeThree(q, m, l);
  }

  /** Three fields in the ranges section 4 allows make one well-formed sequence, which decodes to them. */
  lemma FieldsDecodeThree(q: int, m: int, l: int)
    requires 0 <= q < 16 && 0 <= m < 64 && 0 <= l < 64
    requires q == 0 ==> m >= 32
    requires q == 13 ==> m < 32
    ensures
      var t := [(0xE0 + q) as Byte, (0x80 + m) as Byte, (0x80 + l) as Byte];
      ValidSeq(t) && DecodeSeq(t) == q * 4096 + m * 64 + l
  {
    var t := [(0xE0 + q) as Byte, (0x80 + m) as Byte, (0x80 + l) as Byte];
    assert (0xE0 + q) % 16 == q && (0x80 + m) % 64 == m && (0x80 + l) % 64 == l;
    assert forall k :: 2 <= k < |t| ==> IsCont(t[k]);
  }

  /** The four fields section 3 cuts a scalar from U+10000 up into, and their ranges. */
  lemma FieldsFour(x: int)
    requires 0x1_0000 <= x < 0x11_0000
    ensures
      var q, n, m, l := x / 262144, (x / 4096) % 64, (x / 64) % 64, x % 64;
      && x == q * 262144 + n * 4096 + m * 64 + l
      && 0 <= q <= 4 && 0 <= n < 64 && 0 <= m < 64 && 0 <= l < 64
      && (q == 0 ==> n >= 16)
      && (q == 4 ==> n < 16)
  {
    DivDiv(x);
  }

  lemma EncodeFour(c: Scalar)
    requires 0x1_0000 <= c
    ensures ValidSeq(Encode(c)) && DecodeSeq(Encode(c)) == c
  {
    var x: int := c;
    FieldsFour(x);
    var q, n, m, l := x / 262144, (x / 4096) % 64, (x / 64) % 64, x % 64;
    assert Encode(c) == [(0xF0 + q) as Byte, (0x80 + n) as Byte, (0x80 + m) as Byte, (0x80 + l) as Byte];
    FieldsDecodeFour(q, n, m, l);
  }

  /** Four fields in the ranges section 4 allows make one well-formed sequence, which decodes to them. */
  lemma FieldsDecodeFour(q: int, n: int, m: int, l: int)
    requires 0 <= q <= 4 && 0 <= n < 64 && 0 <= m < 64 && 0 <= l < 64
    requires q == 0 ==> n >= 16
    requires q == 4 ==> n < 16
    ensures
      var t := [(0xF0 + q) as Byte, (0x80 + n) as Byte, (0x80 + m) as Byte, (0x80 + l) as Byte];
      ValidSeq(t) && DecodeSeq(t) == q * 262144 + n * 4096 + m * 64 + l
  {
    var t := [(0xF0 + q) as Byte, (0x80 + n) as Byte, (0x80 + m) as Byte, (0x80 + l) as Byte];
    assert (0xF0 + q) % 8 == q && (0x80 + n) % 64 == n && (0x80 + m) % 64 == m && (0x80 + l) % 64 == l;
    assert forall k :: 2 <= k < |t| ==> IsCont(t[k]);
  }

  /** Every scalar encodes to one well-formed sequence that decodes back to it. */
  lemma EncodeIsValidSeq(c: Scalar)
    ensures ValidSeq(Encode(c))
    ensures DecodeSeq(Encode(c)) == c
  {
    if c < 0x80 {
    } else if c < 0x800 {
      EncodeTwo(c);
    } else if c < 0x1_0000 {
      EncodeThree(c);
    } else {
      EncodeFour(c);
    }
  }

  lemma DecodeTwo(t: seq<Byte>)
    requires ValidSeq(t) && |t| == 2
    ensures Encode(DecodeSeq(t)) == t
  {
    var b0, b1: int := t[0], t[1];
    var a, b := b0 % 32, b1 % 64;
    DivModConst(a, b, 64);
    var c := DecodeSeq(t);
    assert c == a * 64 + b;
    assert Encode(c) == [0xC0 + a, 0x80 + b];
  }

  /** Packing three fields and cutting the result again gives the fields back. */
  lemma PackThree(a: int, b: int, d: int)
    requires 0 <= a < 16 && 0 <= b < 64 && 0 <= d < 64
    ensures
      var x := a * 4096 + b * 64 + d;
      x / 4096 == a && (x / 64) % 64 == b && x % 64 == d
  {
    var x := a * 4096 + b * 64 + d;
    DivModConst(a * 64 + b, d, 64);
    DivModConst(a, b, 64);
    DivDiv(x);
  }

  /** Packing four fields and cutting the result again gives the fields back. */
  lemma PackFour(a: int, b: int, d: int, e: int)
    requires 0 <= a <= 4 && 0 <= b < 64 && 0 <= d < 64 && 0 <= e < 64
    requires a == 0 ==> b >= 16
    requires a == 4 ==> b < 16
    ensures
      var x := a * 262144 + b * 4096 + d * 64 + e;
      && 0x1_0000 <= x < 0x11_0000
      && x / 262144 == a && (x / 4096) % 64 == b && (x / 64) % 64 == d && x % 64 == e
  {
    var x := a * 262144 + b * 4096 + d * 64 + e;
    DivModConst((a * 64 + b) * 64 + d, e, 64);
    DivModConst(a * 64 + b, d, 64);
    DivModConst(a, b, 64);
    DivDiv(x);
  }

  lemma DecodeThree(t: seq<Byte>)
    requires ValidSeq(t) && |t| == 3
    ensures Encode(DecodeSeq(t)) == t
  {
    assert IsCont(t[1]) && IsCont(t[2]);
    var b0, b1, b2: int := t[0], t[1], t[2];
    var a, b, d := b0 % 16, b1 % 64, b2 % 64;
    assert b0 == 0xE0 + a && b1 == 0x80 + b && b2 == 0x80 + d;
    PackThree(a, b, d);
  }

  /** Four fields in the ranges section 4 allows encode, as a scalar, to the four bytes that carry them. */
  lemma EncodePackedFour(a: int, b: int, d: int, e: int)
    requires 0 <= a <= 4 && 0 <= b < 64 && 0 <= d < 64 && 0 <= e < 64
    requires a == 0 ==> b >= 16
    requires a == 4 ==> b < 16
    ensures
      var x := a * 262144 + b * 4096 + d * 64 + e;
      IsScalar(x) && Encode(x as Scalar) == [(0xF0 + a) as Byte, (0x80 + b) as Byte, (0x80 + d) as Byte, (0x80 + e) as Byte]
  {
    PackFour(a, b, d, e);
  }

  /** The lead and second byte of a four-byte sequence: the top three payload bits are at most 4, and the range of section 4 holds. */
  lemma FourLead(b0: Byte, b1: Byte)
    requires Width(b0) == 4 && SecondOk(b0, b1)
    ensures
      var a, b := b0 % 8, b1 % 64;
      && b0 == 0xF0 + a && b1 == 0x80 + b
      && a <= 4 && (a == 0 ==> b >= 16) && (a == 4 ==> b < 16)
  {
  }

  lemma DecodeFour(t: seq<Byte>)
    requires ValidSeq(t) && |t| == 4
    ensures Encode(DecodeSeq(t)) == t
  {
    ValidSeqTail(t, 2);
    ValidSeqTail(t, 3);
    FourLead(t[0], t[1]);
    ContField(t[2]);
    ContField(t[3]);
    EncodePackedFour(t[0] % 8, t[1] % 64, t[2] % 64, t[3] % 64);
    FourBytes(t);
  }

  /** A continuation byte is its marker plus its six payload bits. */
  lemma ContField(b: Byte)
    requires IsCont(b)
    ensures b == 0x80 + b % 64
  {
  }

  /** A four-byte sequence is the display of its bytes. */
  lemma FourBytes(t: seq<Byte>)
    requires |t| == 4
    ensures t == [t[0], t[1], t[2], t[3]]
  {
  }

  /** Decoding a well-formed sequence and encoding the scalar gives the same bytes back. */
  lemma DecodeSeqEncodes(t: seq<Byte>)
    requires ValidSeq(t)
    ensures Encode(DecodeSeq(t)) == t
  {
    if |t| == 2 {
      DecodeTwo(t);
    } else if |t| == 3 {
      DecodeThree(t);
    } else if |t| == 4 {
      DecodeFour(t);
    }
  }

  /** A scalar's encoding on its own is well-formed text. */
  lemma EncodeWellFormed(c: Scalar)
    ensures WellFormed(Encode(c))
  {
    var t := Encode(c);
    EncodeIsValidSeq(c);
    assert t[..|t|] == t && t[|t|..] == [];
  }

  /** A single sequence followed by well-formed text is well-formed text. */
  lemma WellFormedCons(t: seq<Byte>, s: seq<Byte>)
    requires ValidSeq(t) && WellFormed(s)
    ensures WellFormed(t + s)
  {
    var u := t + s;
    assert u[0] == t[0];
    assert u[..|t|] == t && u[|t|..] == s;
  }

  /** `UTF8-octets` is closed under concatenation. */
  lemma {:induction false} WellFormedConcat(a: seq<Byte>, b: seq<Byte>)
    requires WellFormed(a) && WellFormed(b)
    ensures WellFormed(a + b)
    decreases |a|
  {
    if |a| == 0 {
      assert a + b == b;
    } else {
      var w := Width(a[0]);
      WellFormedConcat(a[w..], b);
      ConcatAt(a, b, w);
      WellFormedCons(a[..w], a[w..] + b);
    }
  }

  /** `a ++ b` regrouped after the first `w` bytes of `a`. */
  lemma ConcatAt(a: seq<Byte>, b: seq<Byte>, w: nat)
    requires w <= |a|
    ensures a + b == a[..w] + (a[w..] + b)
  {
    assert a == a[..w] + a[w..];
  }

  /** Inside a sequence every byte after the first is a continuation byte. */
  lemma ValidSeqTail(t: seq<Byte>, k: nat)
    requires ValidSeq(t) && 1 <= k < |t|
    ensures IsCont(t[k])
  {
  }

  /** Cutting well-formed text at a boundary leaves two well-formed halves. */
  lemma {:induction false} WellFormedSplit(s: seq<Byte>, p: nat)
    requires WellFormed(s) && p <= |s| && Boundary(s, p)
    ensures WellFormed(s[..p]) && WellFormed(s[p..])
    decreases |s|
  {
    if p == 0 {
      assert s[..0] == [] && s[0..] == s;
    } else {
      var w := Width(s[0]);
      if p < w {
        ValidSeqTail(s[..w], p);
        assert false;
      }
      var r := s[w..];
      assert Boundary(r, p - w) by {
        if p < |s| { assert r[p - w] == s[p]; }
      }
      WellFormedSplit(r, p - w);
      SplitPast(s, w, p);
      WellFormedCons(s[..w], r[..p - w]);
    }
  }

  /** Cutting `s` at `p` past its first `w` bytes, in terms of the rest `s[w..]`. */
  lemma SplitPast(s: seq<Byte>, w: nat, p: nat)
    requires w <= p <= |s|
    ensures s[..p] == s[..w] + s[w..][..p - w]
    ensures s[p..] == s[w..][p - w..]
  {
    assert s[w..][..p - w] == s[w..p];
  }

  /** A well-formed prefix of well-formed text leaves a well-formed rest. */
  lemma {:induction false} WellFormedRest(s: seq<Byte>, i: nat)
    requires i <= |s| && WellFormed(s) && WellFormed(s[..i])
    ensures WellFormed(s[i..])
    decreases i
  {
    if i == 0 {
      assert s[0..] == s;
    } else {
      var w := Width(s[0]);
      assert s[..i][0] == s[0];
      var r := s[w..];
      assert s[..i][w..] == r[..i - w];
      WellFormedRest(r, i - w);
      assert s[i..] == r[i - w..];
    }
  }

  /** Well-formed non-empty text starts at a boundary. */
  lemma WellFormedStarts(s: seq<Byte>)
    requires WellFormed(s) && |s| > 0
    ensures !IsCont(s[0])
  {
  }

  lemma SliceBetweenBoundaries(s: seq<Byte>, lo: nat, hi: nat)
    requires WellFormed(s) && lo <= hi <= |s|
    requires Boundary(s, lo) && Boundary(s, hi)
    ensures WellFormed(s[lo..hi])
  {
    var r := s[lo..];
    assert WellFormed(r) && Boundary(r, hi - lo) && r[..hi - lo] == s[lo..hi] by {
      WellFormedSplit(s, lo);
      SuffixWindow(s, lo, hi);
    }
    WellFormedSplit(r, hi - lo);
  }

  /** The window `s[lo..hi]` seen from the suffix `s[lo..]`, and a boundary at `hi` seen from there. */
  lemma SuffixWindow(s: seq<Byte>, lo: nat, hi: nat)
    requires lo <= hi <= |s|
    ensures s[lo..][..hi - lo] == s[lo..hi]
    ensures Boundary(s, hi) ==> Boundary(s[lo..], hi - lo)
  {
    if hi < |s| {
      assert s[lo..][hi - lo] == s[hi];
    }
  }

  lemma SliceEndsAtBoundaries(s: seq<Byte>, lo: nat, hi: nat)
    requires WellFormed(s) && lo < hi <= |s|
    requires WellFormed(s[lo..hi])
    ensures Boundary(s, lo) && Boundary(s, hi)
  {
    assert Boundary(s, lo) by {
      WellFormedStarts(s[lo..hi]);
      assert s[lo..hi][0] == s[lo];
    }
    if hi < |s| {
      var r := s[lo..];
      assert WellFormed(r) && WellFormed(r[..hi - lo]) by {
        WellFormedSplit(s, lo);
        SuffixWindow(s, lo, hi);
      }
      RestStarts(r, hi - lo);
      assert r[hi - lo] == s[hi];
    }
  }

  /** After a well-formed prefix of well-formed text, the next byte is no continuation byte. */
  lemma RestStarts(r: seq<Byte>, i: nat)
    requires i < |r| && WellFormed(r) && WellFormed(r[..i])
    ensures !IsCont(r[i])
  {
    WellFormedRest(r, i);
    WellFormedStarts(r[i..]);
    assert r[i..][0] == r[i];
  }

  /**
   * In well-formed text a non-empty slice is well-formed exactly when both of
   * its ends are boundaries: the property that lets a validated string be
   * sliced with a boundary check instead of a full validation.
   */
  lemma SliceWellFormed(s: seq<Byte>, lo: nat, hi: nat)
    requires WellFormed(s) && lo < hi <= |s|
    ensures WellFormed(s[lo..hi]) <==> Boundary(s, lo) && Boundary(s, hi)
  {
    if Boundary(s, lo) && Boundary(s, hi) {
      SliceBetweenBoundaries(s, lo, hi);
    }
    if WellFormed(s[lo..hi]) {
      SliceEndsAtBoundaries(s, lo, hi);
    }
  }

  /**
   * At a boundary inside well-formed text sits one complete sequence: the
   * first byte announces its length, the bytes after it are continuation
   * bytes, and another boundary follows.
   */
  lemma SequenceAt(s: seq<Byte>, j: nat)
    requires WellFormed(s) && j < |s| && !IsCont(s[j])
    ensures 0 < Width(s[j]) && j + Width(s[j]) <= |s|
    ensures Boundary(s, j + Width(s[j]))
    ensures forall k :: j < k < j + Width(s[j]) ==> IsCont(s[k])
  {
    WellFormedSplit(s, j);
    var r := s[j..];
    assert r[0] == s[j];
    var w := Width(s[j]);
    WellFormedHead(r);
    forall k | j < k < j + w
      ensures IsCont(s[k])
    {
      assert r[k - j] == s[k];
    }
    if j + w < |s| {
      WellFormedStarts(r[w..]);
      assert r[w..][0] == s[j + w];
    }
  }

  /** Non-empty well-formed text starts with one complete sequence and continues with well-formed text. */
  lemma WellFormedHead(r: seq<Byte>)
    requires WellFormed(r) && |r| > 0
    ensures 0 < Width(r[0]) <= |r| && ValidSeq(r[..Width(r[0])]) && WellFormed(r[Width(r[0])..])
    ensures forall k :: 0 < k < Width(r[0]) ==> IsCont(r[k])
  {
    var w := Width(r[0]);
    forall k | 0 < k < w
      ensures IsCont(r[k])
    {
      ValidSeqTail(r[..w], k);
    }
  }

  /** The scalars of well-formed text, in order (what `str::chars` yields). */
  function DecodeAll(s: seq<Byte>): seq<Scalar>
    requires WellFormed(s)
    decreases |s|
  {
    if |s| == 0 then [] else
      var w := Width(s[0]);
      [DecodeSeq(s[..w])] + DecodeAll(s[w..])
  }

  /** The encodings of a list of scalars, one after another. */
  function EncodeAll(cs: seq<Scalar>): (r: seq<Byte>)
    ensures WellFormed(r)
    decreases |cs|
  {
    if |cs| == 0 then [] else
      EncodeIsValidSeq(cs[0]);
      WellFormedCons(Encode(cs[0]), EncodeAll(cs[1..]));
      Encode(cs[0]) + EncodeAll(cs[1..])
  }

  /** Decoding undoes encoding. */
  lemma {:induction false} DecodeEncodeAll(cs: seq<Scalar>)
    ensures DecodeAll(EncodeAll(cs)) == cs
    decreases |cs|
  {
    if |cs| > 0 {
      var t := Encode(cs[0]);
      var s := EncodeAll(cs);
      EncodeIsValidSeq(cs[0]);
      assert s[..|t|] == t && s[|t|..] == EncodeAll(cs[1..]);
      DecodeEncodeAll(cs[1..]);
    }
  }

  /** Encoding undoes decoding: the scalars determine the text. */
  lemma {:induction false} EncodeDecodeAll(s: seq<Byte>)
    requires WellFormed(s)
    ensures EncodeAll(DecodeAll(s)) == s
    decreases |s|
  {
    if |s| > 0 {
      var w := Width(s[0]);
      var cs := DecodeAll(s);
      assert cs[0] == DecodeSeq(s[..w]) && cs[1..] == DecodeAll(s[w..]);
      DecodeSeqEncodes(s[..w]);
      EncodeDecodeAll(s[w..]);
      assert EncodeAll(cs) == Encode(cs[0]) + EncodeAll(cs[1..]);
      assert s == s[..w] + s[w..];
    }
  }

  /** Encoding distributes over concatenation of scalar lists. */
  lemma {:induction false} EncodeAllConcat(a: seq<Scalar>, b: seq<Scalar>)
    ensures EncodeAll(a + b) == EncodeAll(a) + EncodeAll(b)
    decreases |a|
  {
    ConsConcat(a, b);
    if |a| > 0 {
      EncodeAllConcat(a[1..], b);
      ConcatAssoc(Encode(a[0]), EncodeAll(a[1..]), EncodeAll(b));
    }
  }
}
