/**
 * UTF-16 as defined by RFC 2781: the encoding of section 2.1 and the decoding
 * rules of section 2.2. This is the specification of `char::encode_utf16` and
 * the reference the library's UTF-16 validators and decoders are compared against.
 */
module Rfc2781 {
  import opened Units

  /** A high (leading) surrogate, W1 in section 2.2. */
  predicate IsHigh(u: int) {
    0xD800 <= u <= 0xDBFF
  }

  /** A low (trailing) surrogate, W2 in section 2.2. */
  predicate IsLow(u: int) {
    0xDC00 <= u <= 0xDFFF
  }

  /** Section 2.2 read as a grammar: a unit outside the surrogates, or a high surrogate followed by a low one. */
  predicate WellFormed(s: seq<U16>)
    decreases |s|
  {
    if |s| == 0 then true
    else if IsHigh(s[0]) then |s| >= 2 && IsLow(s[1]) && WellFormed(s[2..])
    else !IsLow(s[0]) && WellFormed(s[1..])
  }

  /** The same condition stated unit by unit: every high surrogate has a low one after it, every low one a high one before it. */
  predicate Paired(s: seq<U16>) {
    && (forall i :: 0 <= i < |s| && IsHigh(s[i]) ==> i + 1 < |s| && IsLow(s[i + 1]))
    && (forall i :: 0 <= i < |s| && IsLow(s[i]) ==> 0 < i && IsHigh(s[i - 1]))
  }

  lemma {:induction false} WellFormedIsPaired(s: seq<U16>)
    requires WellFormed(s)
    ensures Paired(s)
    decreases |s|
  {
    if |s| > 0 {
      var w := if IsHigh(s[0]) then 2 else 1;
      var r := s[w..];
      WellFormedIsPaired(r);
      forall i | 0 <= i < |s| && IsHigh(s[i])
        ensures i + 1 < |s| && IsLow(s[i + 1])
      {
        if i >= w {
          assert r[i - w] == s[i];
        }
      }
      forall i | 0 <= i < |s| && IsLow(s[i])
        ensures 0 < i && IsHigh(s[i - 1])
      {
        if i >= w {
          assert r[i - w] == s[i];
          if i > w {
            assert r[i - w - 1] == s[i - 1];
          }
        }
      }
    }
  }

  lemma {:induction false} PairedIsWellFormed(s: seq<U16>)
    requires Paired(s)
    ensures WellFormed(s)
    decreases |s|
  {
    if |s| > 0 {
      var w := if IsHigh(s[0]) then 2 else 1;
      var r := s[w..];
      forall i | 0 <= i < |r| && IsHigh(r[i])
        ensures i + 1 < |r| && IsLow(r[i + 1])
      {
        assert s[i + w] == r[i];
      }
      forall i | 0 <= i < |r| && IsLow(r[i])
        ensures 0 < i && IsHigh(r[i - 1])
      {
        assert s[i + w] == r[i];
        assert IsHigh(s[i + w - 1]);
      }
      PairedIsWellFormed(r);
    }
  }

  /** The grammar and the unit-by-unit condition agree. */
  lemma WellFormedIffPaired(s: seq<U16>)
    ensures WellFormed(s) <==> Paired(s)
  {
    if WellFormed(s) {
      WellFormedIsPaired(s);
    }
    if Paired(s) {
      PairedIsWellFormed(s);
    }
  }

  /** Scalar-value boundary: the end, or any unit that is not a low surrogate. */
  predicate Boundary(s: seq<U16>, p: nat)
    requires p <= |s|
  {
    p == |s| || !IsLow(s[p])
  }

  /** Well-formed UTF-16 is closed under concatenation. */
  lemma WellFormedConcat(a: seq<U16>, b: seq<U16>)
    requires WellFormed(a) && WellFormed(b)
    ensures WellFormed(a + b)
  {
    WellFormedIsPaired(a);
    WellFormedIsPaired(b);
    var s := a + b;
    forall i | 0 <= i < |s| && IsHigh(s[i])
      ensures i + 1 < |s| && IsLow(s[i + 1])
    {
      if i >= |a| {
        assert b[i - |a|] == s[i];
        assert b[i - |a| + 1] == s[i + 1];
      }
    }
    forall i | 0 <= i < |s| && IsLow(s[i])
      ensures 0 < i && IsHigh(s[i - 1])
    {
      if i >= |a| {
        assert b[i - |a|] == s[i];
        if i > |a| {
          assert b[i - |a| - 1] == s[i - 1];
        }
      }
    }
    PairedIsWellFormed(s);
  }

  /** In well-formed UTF-16 a slice is well-formed exactly when both ends are boundaries. */
  lemma SliceWellFormed(s: seq<U16>, lo: nat, hi: nat)
    requires WellFormed(s) && lo <= hi <= |s|
    ensures lo < hi ==> (WellFormed(s[lo..hi]) <==> Boundary(s, lo) && Boundary(s, hi))
    ensures Boundary(s, lo) && Boundary(s, hi) ==> WellFormed(s[lo..hi])
  {
    WellFormedIsPaired(s);
    var t := s[lo..hi];
    if Boundary(s, lo) && Boundary(s, hi) {
      forall i | 0 <= i < |t| && IsHigh(t[i])
        ensures i + 1 < |t| && IsLow(t[i + 1])
      {
        assert s[lo + i] == t[i];
      }
      forall i | 0 <= i < |t| && IsLow(t[i])
        ensures 0 < i && IsHigh(t[i - 1])
      {
        assert s[lo + i] == t[i];
      }
      PairedIsWellFormed(t);
    }
    if lo < hi && WellFormed(t) {
      WellFormedIsPaired(t);
      assert t[0] == s[lo];
      assert t[|t| - 1] == s[hi - 1];
    }
  }

  /** Number of units section 2.1 uses for a scalar. */
  function EncodedLen(c: Scalar): nat {
    if c < 0x1_0000 then 1 else 2
  }

  /** Section 2.1: a BMP scalar is one unit; any other is split into a surrogate pair (`char::encode_utf16`). */
  function Encode(c: Scalar): (r: seq<U16>)
    ensures |r| == EncodedLen(c)
  {
    var x: int := c;
    if x < 0x1_0000 then [x as U16]
    else
      var u := x - 0x1_0000;
      [(0xD800 + u / 1024) as U16, (0xDC00 + u % 1024) as U16]
  }

  /** Section 2.2: the scalar of a surrogate pair. */
  function DecodePair(hi: U16, lo: U16): (c: Scalar)
    requires IsHigh(hi) && IsLow(lo)
    ensures 0x1_0000 <= c
  {
    var h: int := hi;
    var l: int := lo;
    0x1_0000 + (h - 0xD800) * 1024 + (l - 0xDC00)
  }

  /** Every scalar encodes to well-formed UTF-16. */
  lemma EncodeWellFormed(c: Scalar)
    ensures WellFormed(Encode(c))
    ensures |Encode(c)| == 2 ==> IsHigh(Encode(c)[0]) && IsLow(Encode(c)[1])
    ensures |Encode(c)| == 1 ==> !IsHigh(Encode(c)[0]) && !IsLow(Encode(c)[0])
  {
    var t := Encode(c);
    if |t| == 2 {
      assert t[2..] == [];
    } else {
      assert t[1..] == [];
    }
  }

  /** Decoding a pair that `Encode` produced gives the scalar back. */
  lemma DecodePairEncode(c: Scalar)
    requires c >= 0x1_0000
    ensures IsHigh(Encode(c)[0]) && IsLow(Encode(c)[1])
    ensures DecodePair(Encode(c)[0], Encode(c)[1]) == c
  {
    EncodeWellFormed(c);
  }

  /** Encoding the scalar of a surrogate pair gives the pair back. */
  lemma EncodeDecodePair(hi: U16, lo: U16)
    requires IsHigh(hi) && IsLow(lo)
    ensures Encode(DecodePair(hi, lo)) == [hi, lo]
  {
    var h: int := hi;
    var l: int := lo;
    var u := (h - 0xD800) * 1024 + (l - 0xDC00);
    assert u / 1024 == h - 0xD800 && u % 1024 == l - 0xDC00;
  }

  /** The scalars of well-formed UTF-16, in order. */
  function DecodeAll(s: seq<U16>): seq<Scalar>
    requires WellFormed(s)
    decreases |s|
  {
    if |s| == 0 then []
    else if IsHigh(s[0]) then [DecodePair(s[0], s[1])] + DecodeAll(s[2..])
    else [s[0] as Scalar] + DecodeAll(s[1..])
  }

  /** The encodings of a list of scalars, one after another. */
  function EncodeAll(cs: seq<Scalar>): (r: seq<U16>)
    ensures WellFormed(r)
    decreases |cs|
  {
    if |cs| == 0 then [] else
      EncodeWellFormed(cs[0]);
      WellFormedConcat(Encode(cs[0]), EncodeAll(cs[1..]));
      Encode(cs[0]) + EncodeAll(cs[1..])
  }

  lemma {:induction false} DecodeEncodeAll(cs: seq<Scalar>)
    ensures DecodeAll(EncodeAll(cs)) == cs
    decreases |cs|
  {
    if |cs| > 0 {
      var t := Encode(cs[0]);
      var s := EncodeAll(cs);
      EncodeWellFormed(cs[0]);
      assert s[..|t|] == t && s[|t|..] == EncodeAll(cs[1..]);
      if |t| == 2 {
        DecodePairEncode(cs[0]);
      }
      DecodeEncodeAll(cs[1..]);
    }
  }

  lemma {:induction false} EncodeDecodeAll(s: seq<U16>)
    requires WellFormed(s)
    ensures EncodeAll(DecodeAll(s)) == s
    decreases |s|
  {
    if |s| > 0 {
      var w := if IsHigh(s[0]) then 2 else 1;
      var cs := DecodeAll(s);
      assert cs[1..] == DecodeAll(s[w..]);
      if w == 2 {
        EncodeDecodePair(s[0], s[1]);
      }
      assert Encode(cs[0]) == s[..w];
      EncodeDecodeAll(s[w..]);
      assert EncodeAll(cs) == Encode(cs[0]) + EncodeAll(cs[1..]);
      assert s == s[..w] + s[w..];
    }
  }

  lemma {:induction false} EncodeAllConcat(a: seq<Scalar>, b: seq<Scalar>)
    ensures EncodeAll(a + b) == EncodeAll(a) + EncodeAll(b)
    decreases |a|
  {
    ConsConcat(a, b);
    if |a| > 0 {
      EncodeAllConcat(a[1..], b);
      ConcatAssoc(Encode(a[0]), EncodeAll(a[1..]), EncodeAll(b));
    }
  }
}
