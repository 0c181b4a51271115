/**
 * UTF-16, the encoding of JavaScript string values: a code point at or above U+10000 is stored as
 * a high surrogate followed by a low surrogate (section 6.1.4 and the static semantics
 * UTF16EncodeCodePoint and CodePointAt of ECMA-262).
 */
module Utf16 {
  import opened Wrappers
  import opened Unicode

  /** The code point a surrogate pair stands for. */
  function PairValue(hi: int, lo: int): (c: Scalar)
    requires IsHighSurrogate(hi) && IsLowSurrogate(lo)
    ensures c >= 0x1_0000
  {
    0x1_0000 + (hi - 0xD800) * 0x400 + (lo - 0xDC00)
  }

  /** UTF16EncodeCodePoint: one code unit below U+10000, a surrogate pair above. */
  function EncodeScalar(c: Scalar): (r: JsString)
  {
    if c < 0x1_0000 then [c]
    else [0xD800 + (c - 0x1_0000) / 0x400, 0xDC00 + (c - 0x1_0000) % 0x400]
  }

  function Encode(cps: seq<Scalar>): JsString
  {
    if cps == [] then [] else EncodeScalar(cps[0]) + Encode(cps[1..])
  }

  /**
   * The code points of a string read left to right as CodePointAt does, or None when the string
   * holds a lone surrogate.
   */
  function Decode(s: JsString): Option<seq<Scalar>>
  {
    if s == [] then Some([])
    else if IsHighSurrogate(s[0]) && |s| >= 2 && IsLowSurrogate(s[1]) then
      PrefixWith([PairValue(s[0], s[1])], Decode(s[2..]))
    else if IsSurrogate(s[0]) then None
    else PrefixWith([s[0]], Decode(s[1..]))
  }

  /** No lone surrogate: each high surrogate is followed by a low one, and each low one follows a high one. */
  predicate WellFormed(s: JsString)
  {
    && (forall i | 0 <= i < |s| && IsHighSurrogate(s[i]) :: i + 1 < |s| && IsLowSurrogate(s[i + 1]))
    && (forall i | 0 <= i < |s| && IsLowSurrogate(s[i]) :: i > 0 && IsHighSurrogate(s[i - 1]))
  }

  /** Decoding succeeds exactly on the strings without a lone surrogate. */
  lemma {:induction false} DecodeIffWellFormed(s: JsString)
    ensures Decode(s).Some? <==> WellFormed(s)
    decreases |s|
  {
    if s == [] {
    } else if IsHighSurrogate(s[0]) && |s| >= 2 && IsLowSurrogate(s[1]) {
      DecodeIffWellFormed(s[2..]);
      WellFormedShift(s, 2);
    } else if IsSurrogate(s[0]) {
      if IsHighSurrogate(s[0]) {
        assert !(0 + 1 < |s| && IsLowSurrogate(s[0 + 1]));
      }
    } else {
      DecodeIffWellFormed(s[1..]);
      WellFormedShift(s, 1);
    }
  }

  /** Dropping a prefix that ends on a complete code point keeps or breaks well-formedness alike. */
  lemma WellFormedShift(s: JsString, k: nat)
    requires k == 1 || k == 2
    requires |s| >= k
    requires k == 1 ==> !IsSurrogate(s[0])
    requires k == 2 ==> IsHighSurrogate(s[0]) && IsLowSurrogate(s[1])
    ensures WellFormed(s) <==> WellFormed(s[k..])
  {
    var t := s[k..];
    if WellFormed(t) {
      forall i | 0 <= i < |s| && IsHighSurrogate(s[i])
        ensures i + 1 < |s| && IsLowSurrogate(s[i + 1])
      {
        if i >= k { assert t[i - k] == s[i]; }
      }
      forall i | 0 <= i < |s| && IsLowSurrogate(s[i])
        ensures i > 0 && IsHighSurrogate(s[i - 1])
      {
        if i > k { assert t[i - k] == s[i]; }
        else if i == k { assert false; }
      }
    }
    if WellFormed(s) {
      forall i | 0 <= i < |t| && IsHighSurrogate(t[i])
        ensures i + 1 < |t| && IsLowSurrogate(t[i + 1])
      {
        assert s[i + k] == t[i];
      }
      forall i | 0 <= i < |t| && IsLowSurrogate(t[i])
        ensures i > 0 && IsHighSurrogate(t[i - 1])
      {
        assert s[i + k] == t[i];
      }
    }
  }

  /** Decoding undoes encoding. */
  lemma {:induction false} DecodeEncode(cps: seq<Scalar>)
    ensures Decode(Encode(cps)) == Some(cps)
  {
    if cps != [] {
      var e := EncodeScalar(cps[0]);
      var s := Encode(cps);
      assert s == e + Encode(cps[1..]);
      assert s[|e|..] == Encode(cps[1..]);
      DecodeEncode(cps[1..]);
      assert Decode(s) == PrefixWith([cps[0]], Decode(s[|e|..]));
      assert cps == [cps[0]] + cps[1..];
    }
  }

  /** Encoding undoes a successful decoding: a well-formed string is the encoding of its code points. */
  lemma {:induction false} EncodeDecode(s: JsString)
    requires Decode(s).Some?
    ensures Encode(Decode(s).value) == s
    decreases |s|
  {
    if s == [] {
    } else if IsHighSurrogate(s[0]) && |s| >= 2 && IsLowSurrogate(s[1]) {
      EncodeDecode(s[2..]);
      assert s == s[..2] + s[2..];
    } else {
      EncodeDecode(s[1..]);
      assert s == [s[0]] + s[1..];
    }
  }

  /** A string without surrogates is its own sequence of code points. */
  lemma {:induction false} DecodeNoSurrogates(s: JsString)
    requires forall i | 0 <= i < |s| :: !IsSurrogate(s[i])
    ensures Decode(s) == Some(s)
  {
    if s != [] {
      DecodeNoSurrogates(s[1..]);
      assert s == [s[0]] + s[1..];
    }
  }
}
