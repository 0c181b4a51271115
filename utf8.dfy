/**
 * UTF-8 as defined by section 3 (encoding) and section 4 (syntax of valid sequences) of RFC 3629,
 * and the error-tolerant UTF-8 decoder of the WHATWG Encoding Standard that the URL parser uses.
 */
module Utf8 {
  import opened Wrappers
  import opened Unicode

  /** A continuation byte, 10xxxxxx ("UTF8-tail" in RFC 3629). */
  predicate IsTail(b: int) { 0x80 <= b < 0xC0 }

  /** The UTF-8 bytes of one scalar value, split into 6-bit groups from the lowest up. */
  function EncodeScalar(c: Scalar): (r: seq<Byte>)
    ensures 1 <= |r| <= 4
    ensures r[0] < 0x80 <==> c < 0x80
    ensures forall i | 1 <= i < |r| :: IsTail(r[i])
  {
    var t0, c1 := c % 0x40, c / 0x40;
    var t1, c2 := c1 % 0x40, c1 / 0x40;
    var t2, c3 := c2 % 0x40, c2 / 0x40;
    if c < 0x80 then [c]
    else if c < 0x800 then [0xC0 + c1, 0x80 + t0]
    else if c < 0x1_0000 then [0xE0 + c2, 0x80 + t1, 0x80 + t0]
    else [0xF0 + c3, 0x80 + t2, 0x80 + t1, 0x80 + t0]
  }

  /** UTF-8 encoding of a sequence of scalar values. */
  function Encode(cps: seq<Scalar>): (r: seq<Byte>)
    ensures |r| >= |cps|
  {
    if cps == [] then [] else EncodeScalar(cps[0]) + Encode(cps[1..])
  }

  /** True for the bytes that can start a valid sequence: %x00-7F and %xC2-F4. */
  predicate IsLead(b: int) { 0 <= b < 0x80 || 0xC2 <= b <= 0xF4 }

  /** The number of continuation bytes that follow a valid lead byte. */
  function TailCount(b: int): nat
  {
    if b < 0xC0 then 0 else if b < 0xE0 then 1 else if b < 0xF0 then 2 else 3
  }

  /**
   * The range allowed for the byte after a multi-byte lead; the narrowed ranges after
   * E0, ED, F0 and F4 exclude overlong forms, surrogates and values above U+10FFFF.
   */
  function SecondLow(b: int): int { if b == 0xE0 then 0xA0 else if b == 0xF0 then 0x90 else 0x80 }

  function SecondHigh(b: int): int { if b == 0xED then 0x9F else if b == 0xF4 then 0x8F else 0xBF }

  /** The scalar value that a syntactically valid sequence `bs` stands for. */
  function SequenceValue(bs: seq<Byte>): int
    requires 2 <= |bs| <= 4
  {
    var b0, b1 := bs[0] as int, bs[1] as int;
    if |bs| == 2 then (b0 - 0xC0) * 0x40 + (b1 - 0x80)
    else if |bs| == 3 then ((b0 - 0xE0) * 0x40 + (b1 - 0x80)) * 0x40 + (bs[2] as int - 0x80)
    else (((b0 - 0xF0) * 0x40 + (b1 - 0x80)) * 0x40 + (bs[2] as int - 0x80)) * 0x40 + (bs[3] as int - 0x80)
  }

  /**
   * Strict decoding of the first sequence of `bs`: the scalar value and the number of bytes it
   * takes, or None when `bs` does not start with one of the sequences RFC 3629 section 4 allows.
   */
  function DecodeFirst(bs: seq<Byte>): (r: Option<(Scalar, nat)>)
    requires |bs| > 0
    ensures r.Some? ==> 1 <= r.value.1 <= |bs|
  {
    var b := bs[0];
    if b < 0x80 then Some((b, 1))
    else if !IsLead(b) then None
    else
      var k := TailCount(b);
      if |bs| <= k || !(SecondLow(b) <= bs[1] <= SecondHigh(b)) then None
      else if (k >= 2 && !IsTail(bs[2])) || (k == 3 && !IsTail(bs[3])) then None
      else Some((SequenceValue(bs[..k + 1]), k + 1))
  }

  /** Strict UTF-8 decoding: None unless the whole of `bs` is valid UTF-8. */
  function Decode(bs: seq<Byte>): Option<seq<Scalar>>
    decreases |bs|
  {
    if bs == [] then Some([])
    else
      match DecodeFirst(bs)
      case None => None
      case Some((c, n)) => PrefixWith([c], Decode(bs[n..]))
  }

  lemma DecodeFirstOfEncoded(c: Scalar, rest: seq<Byte>)
    ensures DecodeFirst(EncodeScalar(c) + rest) == Some((c, |EncodeScalar(c)|))
  {
    var e := EncodeScalar(c);
    var bs := e + rest;
    var t0, c1 := c % 0x40, c / 0x40;
    var t1, c2 := c1 % 0x40, c1 / 0x40;
    var t2, c3 := c2 % 0x40, c2 / 0x40;
    if c >= 0x80 {
      assert bs[..|e|] == e;
      if c < 0x800 {
        assert SequenceValue(e) == c1 * 0x40 + t0;
      } else if c < 0x1_0000 {
        assert SequenceValue(e) == (c2 * 0x40 + t1) * 0x40 + t0;
      } else {
        assert SequenceValue(e) == ((c3 * 0x40 + t2) * 0x40 + t1) * 0x40 + t0;
      }
    }
  }

  lemma DecodeFirstIsEncoded(bs: seq<Byte>)
    requires |bs| > 0 && DecodeFirst(bs).Some?
    ensures var (c, n) := DecodeFirst(bs).value; bs[..n] == EncodeScalar(c)
  {
    var n := DecodeFirst(bs).value.1;
    if n == 2 {
      assert bs[..2] == [bs[0], bs[1]];
      TwoBytesEncoded(bs[0], bs[1]);
    } else if n == 3 {
      assert bs[..3] == [bs[0], bs[1], bs[2]];
      ThreeBytesEncoded(bs[0], bs[1], bs[2]);
    } else if n == 4 {
      assert bs[..4] == [bs[0], bs[1], bs[2], bs[3]];
      FourBytesEncoded(bs[0], bs[1], bs[2], bs[3]);
    }
  }

  lemma TwoBytesEncoded(b0: Byte, b1: Byte)
    requires 0xC2 <= b0 < 0xE0 && IsTail(b1)
    ensures EncodeScalar(SequenceValue([b0, b1])) == [b0, b1]
  {
    var v := SequenceValue([b0, b1]);
    assert v / 0x40 == b0 - 0xC0 && v % 0x40 == b1 - 0x80;
  }

  lemma ThreeBytesEncoded(b0: Byte, b1: Byte, b2: Byte)
    requires 0xE0 <= b0 < 0xF0 && SecondLow(b0) <= b1 <= SecondHigh(b0) && IsTail(b2)
    ensures EncodeScalar(SequenceValue([b0, b1, b2])) == [b0, b1, b2]
  {
    var v1 := (b0 - 0xE0) * 0x40 + (b1 - 0x80);
    var v := v1 * 0x40 + (b2 - 0x80);
    assert v == SequenceValue([b0, b1, b2]);
    assert v / 0x40 == v1 && v % 0x40 == b2 - 0x80;
    assert v1 / 0x40 == b0 - 0xE0 && v1 % 0x40 == b1 - 0x80;
  }

  lemma FourBytesEncoded(b0: Byte, b1: Byte, b2: Byte, b3: Byte)
    requires 0xF0 <= b0 <= 0xF4 && SecondLow(b0) <= b1 <= SecondHigh(b0) && IsTail(b2) && IsTail(b3)
    ensures EncodeScalar(SequenceValue([b0, b1, b2, b3])) == [b0, b1, b2, b3]
  {
    var v2 := (b0 - 0xF0) * 0x40 + (b1 - 0x80);
    var v1 := v2 * 0x40 + (b2 - 0x80);
    var v := v1 * 0x40 + (b3 - 0x80);
    assert v == SequenceValue([b0, b1, b2, b3]);
    assert v / 0x40 == v1 && v % 0x40 == b3 - 0x80;
    assert v1 / 0x40 == v2 && v1 % 0x40 == b2 - 0x80;
    assert v2 / 0x40 == b0 - 0xF0 && v2 % 0x40 == b1 - 0x80;
  }

  /** The first sequence is decided by its lead byte and the tail bytes that lead announces, never by what follows. */
  lemma DecodeFirstPrefix(bs: seq<Byte>, m: nat)
    requires 1 <= m <= |bs|
    requires IsLead(bs[0]) ==> TailCount(bs[0]) < m
    ensures DecodeFirst(bs[..m]) == DecodeFirst(bs)
  {
    var b := bs[0];
    if IsLead(b) && b >= 0x80 {
      var k := TailCount(b);
      assert bs[..m][..k + 1] == bs[..k + 1];
    }
  }

  /** Decoding undoes encoding, for every sequence of scalar values. */
  lemma {:induction false} DecodeEncode(cps: seq<Scalar>)
    ensures Decode(Encode(cps)) == Some(cps)
  {
    if cps != [] {
      var e := EncodeScalar(cps[0]);
      var bs := Encode(cps);
      DecodeFirstOfEncoded(cps[0], Encode(cps[1..]));
      assert bs == e + Encode(cps[1..]);
      assert bs[|e|..] == Encode(cps[1..]);
      DecodeEncode(cps[1..]);
      assert Decode(bs) == PrefixWith([cps[0]], Decode(bs[|e|..]));
      assert cps == [cps[0]] + cps[1..];
    }
  }

  /** Whatever decoding accepts is exactly the encoding of what it returns: no other byte sequence is valid. */
  lemma {:induction false} EncodeDecode(bs: seq<Byte>)
    requires Decode(bs).Some?
    ensures Encode(Decode(bs).value) == bs
    decreases |bs|
  {
    if bs != [] {
      var c, n, rest := DecodeUnfold(bs);
      EncodeDecode(bs[n..]);
      EncodeCons(c, rest);
      assert bs == bs[..n] + bs[n..];
    }
  }

  /** A successful decoding is the first code point, encoded by the first n octets, followed by the decoding of the rest. */
  lemma DecodeUnfold(bs: seq<Byte>) returns (c: Scalar, n: nat, rest: seq<Scalar>)
    requires bs != [] && Decode(bs).Some?
    ensures 1 <= n <= |bs| && bs[..n] == EncodeScalar(c)
    ensures Decode(bs[n..]) == Some(rest) && Decode(bs).value == [c] + rest
  {
    c, n := DecodeFirst(bs).value.0, DecodeFirst(bs).value.1;
    DecodeFirstIsEncoded(bs);
    rest := Decode(bs[n..]).value;
  }

  lemma EncodeCons(c: Scalar, rest: seq<Scalar>)
    ensures Encode([c] + rest) == EncodeScalar(c) + Encode(rest)
  {
    var cps := [c] + rest;
    assert cps[0] == c && cps[1..] == rest;
  }

  /** Valid UTF-8 is exactly the image of the encoder, and decoding names the unique preimage. */
  lemma DecodeIffEncode(bs: seq<Byte>, cps: seq<Scalar>)
    ensures Decode(bs) == Some(cps) <==> Encode(cps) == bs
  {
    if Decode(bs) == Some(cps) {
      EncodeDecode(bs);
    }
    if Encode(cps) == bs {
      DecodeEncode(cps);
    }
  }

  /** U+FFFD REPLACEMENT CHARACTER. */
  const REPLACEMENT: Scalar := 0xFFFD

  /**
   * The error-tolerant UTF-8 decoder of the WHATWG Encoding Standard, applied to the front of
   * `bs`: a valid sequence decodes as in DecodeFirst; otherwise U+FFFD stands for the longest
   * prefix that could still have begun a valid sequence (at least one byte), and decoding
   * resumes at the first byte that broke it.
   */
  function DecodeFirstLossy(bs: seq<Byte>): (r: (Scalar, nat))
    requires |bs| > 0
    ensures 1 <= r.1 <= |bs|
  {
    var b := bs[0];
    if b < 0x80 then (b, 1)
    else if !IsLead(b) then (REPLACEMENT, 1)
    else
      var k := TailCount(b);
      if |bs| == 1 || !(SecondLow(b) <= bs[1] <= SecondHigh(b)) then (REPLACEMENT, 1)
      else if k == 1 then (SequenceValue(bs[..2]), 2)
      else if |bs| == 2 || !IsTail(bs[2]) then (REPLACEMENT, 2)
      else if k == 2 then (SequenceValue(bs[..3]), 3)
      else if |bs| == 3 || !IsTail(bs[3]) then (REPLACEMENT, 3)
      else (SequenceValue(bs[..4]), 4)
  }

  /** "UTF-8 decode without BOM" of the WHATWG Encoding Standard: never fails. */
  function DecodeLossy(bs: seq<Byte>): seq<Scalar>
    decreases |bs|
  {
    if bs == [] then []
    else
      var (c, n) := DecodeFirstLossy(bs);
      [c] + DecodeLossy(bs[n..])
  }

  /** On valid UTF-8 the error-tolerant decoder agrees with the strict one. */
  lemma {:induction false} DecodeLossyOfValid(bs: seq<Byte>)
    requires Decode(bs).Some?
    ensures DecodeLossy(bs) == Decode(bs).value
    decreases |bs|
  {
    if bs != [] {
      var (c, n) := DecodeFirst(bs).value;
      assert DecodeFirstLossy(bs) == (c, n);
      DecodeLossyOfValid(bs[n..]);
    }
  }

  /** ASCII text is its own UTF-8 encoding, one octet per code point. */
  lemma {:induction false} EncodeAscii(cps: seq<Scalar>)
    requires forall i | 0 <= i < |cps| :: cps[i] < 0x80
    ensures Encode(cps) == cps
  {
    if cps != [] {
      EncodeAscii(cps[1..]);
      assert cps == [cps[0]] + cps[1..];
    }
  }

  /** ASCII octets decode to themselves, with no replacement character. */
  lemma {:induction false} DecodeLossyAscii(bs: seq<Byte>)
    requires forall i | 0 <= i < |bs| :: bs[i] < 0x80
    ensures DecodeLossy(bs) == bs
  {
    if bs != [] {
      DecodeLossyAscii(bs[1..]);
      assert bs == [bs[0]] + bs[1..];
    }
  }
}
