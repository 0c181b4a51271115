/**
 * The percent-encoding functions of JavaScript: encodeURIComponent and decodeURIComponent
 * (the abstract operations Encode and Decode of section 19.2.6 of ECMA-262), and the legacy
 * escape and unescape of Annex B.2.1 of ECMA-262. All four work on strings of UTF-16 code units;
 * a thrown URIError is None.
 */
module UriCodec {
  import opened Wrappers
  import opened Unicode
  import Utf8
  import Utf16

  const PERCENT: CodeUnit := 0x25
  const SMALL_U: CodeUnit := 0x75

  predicate IsDigit(u: int) { '0' as int <= u <= '9' as int }

  predicate IsLetter(u: int) { 'A' as int <= u <= 'Z' as int || 'a' as int <= u <= 'z' as int }

  /** The characters encodeURIComponent leaves alone: letters, digits and - _ . ! ~ * ' ( ). */
  predicate IsUriUnreserved(u: int)
  {
    || IsLetter(u) || IsDigit(u)
    || u == '-' as int || u == '_' as int || u == '.' as int || u == '!' as int
    || u == '~' as int || u == '*' as int || u == '\'' as int || u == '(' as int || u == ')' as int
  }

  /** The characters escape leaves alone: letters, digits and @ * _ + - . / */
  predicate IsEscapeUnescaped(u: int)
  {
    || IsLetter(u) || IsDigit(u)
    || u == '@' as int || u == '*' as int || u == '_' as int || u == '+' as int
    || u == '-' as int || u == '.' as int || u == '/' as int
  }

  predicate IsHexDigit(u: int)
  {
    IsDigit(u) || 'A' as int <= u <= 'F' as int || 'a' as int <= u <= 'f' as int
  }

  function HexValue(u: int): (v: int)
    requires IsHexDigit(u)
    ensures 0 <= v < 16
  {
    if IsDigit(u) then u - '0' as int
    else if 'A' as int <= u <= 'F' as int then u - 'A' as int + 10
    else u - 'a' as int + 10
  }

  /** The upper-case hexadecimal digit both encoders write. */
  function HexDigit(n: int): (u: Byte)
    requires 0 <= n < 16
    ensures IsHexDigit(u) && HexValue(u) == n && u != SMALL_U
  {
    if n < 10 then '0' as int + n else 'A' as int + (n - 10)
  }

  /** "%XX" for one octet. */
  function PercentEncodeByte(b: Byte): (r: seq<Byte>)
    ensures |r| == 3 && r[0] == PERCENT
  {
    [PERCENT, HexDigit(b / 16), HexDigit(b % 16)]
  }

  lemma ParsePercentEncodeByte(b: Byte)
    ensures var e := PercentEncodeByte(b); ParseHexOctet(e[1], e[2]) == Some(b)
  {
  }

  function PercentEncode(bs: seq<Byte>): (r: seq<Byte>)
    ensures |r| == 3 * |bs|
  {
    if bs == [] then [] else PercentEncodeByte(bs[0]) + PercentEncode(bs[1..])
  }

  /** ParseHexOctet: the octet two hexadecimal digits (either case) spell, or None. */
  function ParseHexOctet(hi: int, lo: int): (r: Option<Byte>)
    ensures r.Some? <==> IsHexDigit(hi) && IsHexDigit(lo)
  {
    if IsHexDigit(hi) && IsHexDigit(lo) then Some(HexValue(hi) * 16 + HexValue(lo)) else None
  }

  /**
   * encodeURIComponent: unreserved code units are copied; every other code point, a surrogate
   * pair counting as one, is written as "%XX" for each octet of its UTF-8 form; a lone
   * surrogate throws.
   */
  function EncodeUriComponent(s: JsString): Option<JsString>
    decreases |s|
  {
    if s == [] then Some([])
    else if IsUriUnreserved(s[0]) then PrefixWith([s[0]], EncodeUriComponent(s[1..]))
    else if IsHighSurrogate(s[0]) && |s| >= 2 && IsLowSurrogate(s[1]) then
      PrefixWith(PercentEncode(Utf8.EncodeScalar(Utf16.PairValue(s[0], s[1]))), EncodeUriComponent(s[2..]))
    else if IsSurrogate(s[0]) then None
    else PrefixWith(PercentEncode(Utf8.EncodeScalar(s[0])), EncodeUriComponent(s[1..]))
  }

  /** The number of leading one bits of an octet. */
  function LeadingOnes(b: Byte): nat
  {
    if b < 0x80 then 0 else if b < 0xC0 then 1 else if b < 0xE0 then 2 else if b < 0xF0 then 3
    else if b < 0xF8 then 4 else if b < 0xFC then 5 else if b < 0xFE then 6 else if b < 0xFF then 7
    else 8
  }

  /** The octets of `count` consecutive "%XX" escapes at the front of `s`, or None when one is missing or malformed. */
  function ParseEscapes(s: JsString, count: nat): (r: Option<seq<Byte>>)
    requires |s| >= 3 * count
    ensures r.Some? ==> |r.value| == count
  {
    if count == 0 then Some([])
    else if s[0] != PERCENT then None
    else
      match ParseHexOctet(s[1], s[2])
      case None => None
      case Some(b) => PrefixWith([b], ParseEscapes(s[3..], count - 1))
  }

  /**
   * One step of decodeURIComponent: the code units that the front of `s` stands for and how many
   * code units of `s` they take. A code unit other than '%' stands for itself; "%XX" below 0x80
   * for that code unit; a lead octet with n leading ones (2 to 4) must be followed by n - 1
   * further escapes, and the n octets must be a valid UTF-8 sequence, whose code point is written
   * in UTF-16. Anything else throws.
   */
  function DecodeStep(s: JsString): (r: Option<(JsString, nat)>)
    requires |s| > 0
    ensures r.Some? ==> 1 <= r.value.1 <= |s|
  {
    if s[0] != PERCENT then Some(([s[0]], 1))
    else if |s| < 3 then None
    else
      match ParseHexOctet(s[1], s[2])
      case None => None
      case Some(b) =>
        var n := LeadingOnes(b);
        if n == 0 then Some(([b], 3))
        else if n == 1 || n > 4 || |s| < 3 * n then None
        else
          match ParseEscapes(s[3..], n - 1)
          case None => None
          case Some(tail) =>
            match Utf8.DecodeFirst([b] + tail)
            case None => None
            case Some((v, _)) => Some((Utf16.EncodeScalar(v), 3 * n))
  }

  /** decodeURIComponent: the steps from left to right; a step that throws makes the whole throw. */
  function DecodeUriComponent(s: JsString): Option<JsString>
    decreases |s|
  {
    if s == [] then Some([])
    else
      match DecodeStep(s)
      case None => None
      case Some((units, k)) => PrefixWith(units, DecodeUriComponent(s[k..]))
  }

  /** escape, on one code unit: copied, "%XX" below U+0100, "%uXXXX" above. */
  function EscapeUnit(u: CodeUnit): (r: JsString)
  {
    if IsEscapeUnescaped(u) then [u]
    else if u < 0x100 then PercentEncodeByte(u)
    else [PERCENT, SMALL_U, HexDigit(u / 0x1000), HexDigit(u / 0x100 % 16), HexDigit(u / 16 % 16), HexDigit(u % 16)]
  }

  function Escape(s: JsString): JsString
  {
    if s == [] then [] else EscapeUnit(s[0]) + Escape(s[1..])
  }

  /**
   * unescape: "%uXXXX" is the code unit XXXX, "%XX" the code unit XX (hexadecimal digits of
   * either case); every other code unit, a '%' that starts neither included, is copied.
   */
  function Unescape(s: JsString): JsString
    decreases |s|
  {
    if s == [] then []
    else if s[0] == PERCENT && |s| >= 6 && s[1] == SMALL_U then
      if IsHexDigit(s[2]) && IsHexDigit(s[3]) && IsHexDigit(s[4]) && IsHexDigit(s[5]) then
        [((HexValue(s[2]) * 16 + HexValue(s[3])) * 16 + HexValue(s[4])) * 16 + HexValue(s[5])] + Unescape(s[6..])
      else [s[0]] + Unescape(s[1..])
    else if s[0] == PERCENT && |s| >= 3 && IsHexDigit(s[1]) && IsHexDigit(s[2]) then
      [HexValue(s[1]) * 16 + HexValue(s[2])] + Unescape(s[3..])
    else [s[0]] + Unescape(s[1..])
  }

  /** A strict decoding result written back in UTF-16. */
  function InUtf16(o: Option<seq<Scalar>>): (r: Option<JsString>)
    ensures r.Some? <==> o.Some?
  {
    match o
    case None => None
    case Some(cps) => Some(Utf16.Encode(cps))
  }

  /**
   * An octet string written with every octet either copied (when `keep` says so) or as "%XX":
   * the shape of the output of both encodeURIComponent and escape.
   */
  predicate Keepable(keep: int -> bool)
  {
    forall b: Byte :: keep(b) ==> b < 0x80 && b != PERCENT
  }

  function PercentRender(bs: seq<Byte>, keep: int -> bool): (r: seq<Byte>)
    ensures |r| <= 3 * |bs|
  {
    if bs == [] then []
    else (if keep(bs[0]) then [bs[0]] else PercentEncodeByte(bs[0])) + PercentRender(bs[1..], keep)
  }

  lemma {:induction false} PercentRenderAppend(a: seq<Byte>, b: seq<Byte>, keep: int -> bool)
    ensures PercentRender(a + b, keep) == PercentRender(a, keep) + PercentRender(b, keep)
  {
    if a == [] {
      assert a + b == b;
    } else {
      var h := if keep(a[0]) then [a[0]] else PercentEncodeByte(a[0]);
      assert (a + b)[0] == a[0] && (a + b)[1..] == a[1..] + b;
      assert PercentRender(a + b, keep) == h + PercentRender(a[1..] + b, keep);
      PercentRenderAppend(a[1..], b, keep);
    }
  }

  /** When no octet is kept, the rendering is plain percent-encoding. */
  lemma {:induction false} PercentRenderNoneKept(bs: seq<Byte>, keep: int -> bool)
    requires forall i | 0 <= i < |bs| :: !keep(bs[i])
    ensures PercentRender(bs, keep) == PercentEncode(bs)
  {
    if bs != [] {
      PercentRenderNoneKept(bs[1..], keep);
    }
  }

  /** The octets of a code point that encodeURIComponent escapes are all escaped. */
  lemma EscapedScalar(c: Scalar)
    requires !IsUriUnreserved(c)
    ensures PercentRender(Utf8.EncodeScalar(c), IsUriUnreserved) == PercentEncode(Utf8.EncodeScalar(c))
  {
    var e := Utf8.EncodeScalar(c);
    forall i | 0 <= i < |e| ensures !IsUriUnreserved(e[i]) {
      if i > 0 { assert Utf8.IsTail(e[i]); }
      else if c < 0x80 { assert e == [c]; }
    }
    PercentRenderNoneKept(e, IsUriUnreserved);
  }

  /** How one leading code point contributes to the rendering of the UTF-8 octets. */
  lemma RenderFirstScalar(c: Scalar, rest: seq<Scalar>)
    ensures PercentRender(Utf8.Encode([c] + rest), IsUriUnreserved)
      == (if IsUriUnreserved(c) then [c] else PercentEncode(Utf8.EncodeScalar(c)))
         + PercentRender(Utf8.Encode(rest), IsUriUnreserved)
  {
    var cps := [c] + rest;
    var e := Utf8.EncodeScalar(c);
    assert cps[0] == c && cps[1..] == rest;
    assert Utf8.Encode(cps) == e + Utf8.Encode(rest);
    PercentRenderAppend(e, Utf8.Encode(rest), IsUriUnreserved);
    if IsUriUnreserved(c) {
      assert e == [c];
    } else {
      EscapedScalar(c);
    }
  }

  /**
   * encodeURIComponent throws exactly on a lone surrogate, and otherwise writes the UTF-8 octets of
   * the string's code points, each unreserved one as itself and every other as "%XX".
   */
  lemma {:induction false} EncodeUriComponentIsRender(s: JsString)
    ensures EncodeUriComponent(s).Some? <==> Utf16.Decode(s).Some?
    ensures EncodeUriComponent(s).Some? ==>
      EncodeUriComponent(s).value == PercentRender(Utf8.Encode(Utf16.Decode(s).value), IsUriUnreserved)
    decreases |s|
  {
    if s != [] {
      var pair := IsHighSurrogate(s[0]) && |s| >= 2 && IsLowSurrogate(s[1]);
      var k := if pair then 2 else 1;
      EncodeUriComponentIsRender(s[k..]);
      if pair || !IsSurrogate(s[0]) {
        var c: Scalar := if pair then Utf16.PairValue(s[0], s[1]) else s[0];
        assert Utf16.Decode(s) == PrefixWith([c], Utf16.Decode(s[k..]));
        var head := if IsUriUnreserved(c) then [c] else PercentEncode(Utf8.EncodeScalar(c));
        assert EncodeUriComponent(s) == PrefixWith(head, EncodeUriComponent(s[k..]));
        if Utf16.Decode(s[k..]).Some? {
          RenderFirstScalar(c, Utf16.Decode(s[k..]).value);
        }
      }
    }
  }

  /** unescape undoes any such rendering: every "%XX" becomes the octet again, and nothing else changes. */
  lemma {:induction false} UnescapeRender(bs: seq<Byte>, keep: int -> bool)
    requires Keepable(keep)
    ensures Unescape(PercentRender(bs, keep)) == bs
  {
    if bs != [] {
      var s := PercentRender(bs, keep);
      UnescapeRender(bs[1..], keep);
      if keep(bs[0]) {
        assert s == [bs[0]] + PercentRender(bs[1..], keep);
        assert s[1..] == PercentRender(bs[1..], keep);
      } else {
        assert s == PercentEncodeByte(bs[0]) + PercentRender(bs[1..], keep);
        assert s[3..] == PercentRender(bs[1..], keep);
      }
    }
  }

  /** A run of escapes parsed from a rendering stands for the next octets, and the rendering goes on after them. */
  lemma {:induction false} ParseEscapesOfRender(t: seq<Byte>, c: nat, keep: int -> bool)
    requires Keepable(keep) && |PercentRender(t, keep)| >= 3 * c
    requires ParseEscapes(PercentRender(t, keep), c).Some?
    ensures c <= |t| && ParseEscapes(PercentRender(t, keep), c).value == t[..c]
    ensures PercentRender(t, keep)[3 * c..] == PercentRender(t[c..], keep)
    decreases c
  {
    var s := PercentRender(t, keep);
    if c > 0 {
      assert s == PercentEncodeByte(t[0]) + PercentRender(t[1..], keep);
      assert s[3..] == PercentRender(t[1..], keep);
      ParsePercentEncodeByte(t[0]);
      assert ParseHexOctet(s[1], s[2]) == Some(t[0]);
      ParseEscapesOfRender(t[1..], c - 1, keep);
      assert t[..c] == [t[0]] + t[1..][..c - 1];
      assert s[3 * c..] == s[3..][3 * (c - 1)..];
      assert t[c..] == t[1..][c - 1..];
    }
  }

  /** Octets at or above 0x80 are never kept, so a run of them always parses as escapes. */
  lemma {:induction false} ParseEscapesOfHighOctets(t: seq<Byte>, c: nat, keep: int -> bool)
    requires Keepable(keep) && c <= |t| && forall j | 0 <= j < c :: t[j] >= 0x80
    ensures |PercentRender(t, keep)| >= 3 * c && ParseEscapes(PercentRender(t, keep), c).Some?
    decreases c
  {
    if c > 0 {
      var s := PercentRender(t, keep);
      assert s == PercentEncodeByte(t[0]) + PercentRender(t[1..], keep);
      assert s[3..] == PercentRender(t[1..], keep);
      ParseEscapesOfHighOctets(t[1..], c - 1, keep);
    }
  }

  /** The number of octets decodeURIComponent gathers for a lead octet is the length UTF-8 gives it. */
  lemma LeadingOnesOfLead(b: Byte)
    requires Utf8.IsLead(b) && b >= 0x80
    ensures LeadingOnes(b) == Utf8.TailCount(b) + 1
  {
  }

  /**
   * decodeURIComponent reads a rendering of octets as their strict UTF-8 decoding: it throws
   * exactly when the octets are not valid UTF-8, and otherwise returns their code points in UTF-16.
   */
  lemma {:induction false} DecodeRender(bs: seq<Byte>, keep: int -> bool)
    requires Keepable(keep)
    ensures DecodeUriComponent(PercentRender(bs, keep)) == InUtf16(Utf8.Decode(bs))
    decreases |bs|, 1
  {
    if bs != [] {
      var s := PercentRender(bs, keep);
      var b := bs[0];
      if b < 0x80 {
        DecodeRender(bs[1..], keep);
        var k := if keep(b) then 1 else 3;
        assert s[k..] == PercentRender(bs[1..], keep);
        if !keep(b) {
          ParsePercentEncodeByte(b);
        }
        assert DecodeStep(s) == Some(([b], k));
        assert Utf8.Decode(bs) == PrefixWith([b], Utf8.Decode(bs[1..]));
        if Utf8.Decode(bs[1..]).Some? {
          var rest := Utf8.Decode(bs[1..]).value;
          assert ([b] + rest)[0] == b && ([b] + rest)[1..] == rest;
        }
      } else {
        forall m | 1 <= m <= |bs|
          ensures DecodeUriComponent(PercentRender(bs[m..], keep)) == InUtf16(Utf8.Decode(bs[m..]))
        {
          DecodeRender(bs[m..], keep);
        }
        DecodeRenderMultiOctet(bs, keep);
      }
    }
  }

  lemma DecodeRenderMultiOctet(bs: seq<Byte>, keep: int -> bool)
    requires Keepable(keep) && |bs| > 0 && bs[0] >= 0x80
    requires forall m | 1 <= m <= |bs| ::
      DecodeUriComponent(PercentRender(bs[m..], keep)) == InUtf16(Utf8.Decode(bs[m..]))
    ensures DecodeUriComponent(PercentRender(bs, keep)) == InUtf16(Utf8.Decode(bs))
    decreases |bs|, 0
  {
    if Utf8.DecodeFirst(bs).Some? {
      DecodeRenderValidSequence(bs, keep);
    } else {
      DecodeRenderInvalidSequence(bs, keep);
      assert Utf8.Decode(bs) == None;
    }
  }

  /** A valid multi-octet sequence: all its octets are at or above 0x80, so all were escaped, and they decode alike. */
  lemma DecodeRenderValidSequence(bs: seq<Byte>, keep: int -> bool)
    requires Keepable(keep) && |bs| > 0 && bs[0] >= 0x80 && Utf8.DecodeFirst(bs).Some?
    requires var n := Utf8.DecodeFirst(bs).value.1;
      DecodeUriComponent(PercentRender(bs[n..], keep)) == InUtf16(Utf8.Decode(bs[n..]))
    ensures DecodeUriComponent(PercentRender(bs, keep)) == InUtf16(Utf8.Decode(bs))
  {
    var (v, n) := Utf8.DecodeFirst(bs).value;
    StepOfValidSequence(bs, keep);
    DecodeFirstInUtf16(bs);
  }

  /** The first step over the rendering of a valid multi-octet sequence consumes its n escapes and yields its code point. */
  lemma StepOfValidSequence(bs: seq<Byte>, keep: int -> bool)
    requires Keepable(keep) && |bs| > 0 && bs[0] >= 0x80 && Utf8.DecodeFirst(bs).Some?
    ensures var (v, n) := Utf8.DecodeFirst(bs).value; var s := PercentRender(bs, keep);
      && |s| >= 3 * n && DecodeStep(s) == Some((Utf16.EncodeScalar(v), 3 * n))
      && s[3 * n..] == PercentRender(bs[n..], keep)
  {
    var (v, n) := Utf8.DecodeFirst(bs).value;
    ValidSequenceHigh(bs);
    LeadingOnesOfLead(bs[0]);
    EscapedRun(bs, n, keep);
    Utf8.DecodeFirstPrefix(bs, n);
    assert [bs[0]] + bs[1..n] == bs[..n];
    DecodeStepOfEscapes(PercentRender(bs, keep), bs[0], bs[1..n], n);
  }

  /** A step that meets a lead octet and its tail escapes yields the code point they encode. */
  lemma DecodeStepOfEscapes(s: JsString, b: Byte, tail: seq<Byte>, n: nat)
    requires 2 <= n <= 4 && |s| >= 3 * n && s[0] == PERCENT && ParseHexOctet(s[1], s[2]) == Some(b)
    requires LeadingOnes(b) == n && ParseEscapes(s[3..], n - 1) == Some(tail)
    requires Utf8.DecodeFirst([b] + tail).Some?
    ensures DecodeStep(s) == Some((Utf16.EncodeScalar(Utf8.DecodeFirst([b] + tail).value.0), 3 * n))
  {
  }

  /** The octets of a valid sequence that starts at or above 0x80 are all at or above 0x80. */
  lemma ValidSequenceHigh(bs: seq<Byte>)
    requires |bs| > 0 && bs[0] >= 0x80 && Utf8.DecodeFirst(bs).Some?
    ensures forall j | 0 <= j < Utf8.DecodeFirst(bs).value.1 :: bs[j] >= 0x80
  {
    var (v, n) := Utf8.DecodeFirst(bs).value;
    Utf8.DecodeFirstIsEncoded(bs);
    var e := Utf8.EncodeScalar(v);
    assert forall j | 1 <= j < n :: bs[j] == e[j] && Utf8.IsTail(e[j]);
  }

  /** A run of octets at or above 0x80 is rendered as a run of escapes, which parses back. */
  lemma EscapedRun(bs: seq<Byte>, n: nat, keep: int -> bool)
    requires Keepable(keep) && 1 <= n <= |bs| && forall j | 0 <= j < n :: bs[j] >= 0x80
    ensures var s := PercentRender(bs, keep);
      && |s| >= 3 * n && s[0] == PERCENT && ParseHexOctet(s[1], s[2]) == Some(bs[0])
      && ParseEscapes(s[3..], n - 1) == Some(bs[1..n])
      && s[3 * n..] == PercentRender(bs[n..], keep)
  {
    RenderEscaped(bs, keep);
    TailOfRunParses(bs, n, keep);
    RenderAfterRun(bs, n, keep);
  }

  lemma TailOfRunParses(bs: seq<Byte>, n: nat, keep: int -> bool)
    requires Keepable(keep) && 1 <= n <= |bs| && forall j | 0 <= j < n :: bs[j] >= 0x80
    ensures |PercentRender(bs[1..], keep)| >= 3 * (n - 1)
    ensures ParseEscapes(PercentRender(bs[1..], keep), n - 1) == Some(bs[1..n])
  {
    var t := bs[1..];
    assert forall j | 0 <= j < n - 1 :: t[j] == bs[j + 1];
    ParseEscapesOfHighOctets(t, n - 1, keep);
    ParseEscapesOfRender(t, n - 1, keep);
    assert t[..n - 1] == bs[1..n];
  }

  /** The rendering of an octet that is not kept starts with its escape. */
  lemma RenderEscaped(bs: seq<Byte>, keep: int -> bool)
    requires |bs| > 0 && !keep(bs[0])
    ensures var s := PercentRender(bs, keep);
      && |s| >= 3 && s[0] == PERCENT && ParseHexOctet(s[1], s[2]) == Some(bs[0])
      && s[3..] == PercentRender(bs[1..], keep)
  {
    var s := PercentRender(bs, keep);
    assert s == PercentEncodeByte(bs[0]) + PercentRender(bs[1..], keep);
    ParsePercentEncodeByte(bs[0]);
  }

  lemma RenderAfterRun(bs: seq<Byte>, n: nat, keep: int -> bool)
    requires Keepable(keep) && n <= |bs| && forall j | 0 <= j < n :: bs[j] >= 0x80
    ensures |PercentRender(bs, keep)| >= 3 * n && PercentRender(bs, keep)[3 * n..] == PercentRender(bs[n..], keep)
  {
    var run := bs[..n];
    assert bs == run + bs[n..];
    PercentRenderAppend(run, bs[n..], keep);
    PercentRenderNoneKept(run, keep);
  }

  /** Strict decoding, written in UTF-16, takes the first sequence off the front. */
  lemma DecodeFirstInUtf16(bs: seq<Byte>)
    requires |bs| > 0 && Utf8.DecodeFirst(bs).Some?
    ensures var (v, n) := Utf8.DecodeFirst(bs).value;
      InUtf16(Utf8.Decode(bs)) == PrefixWith(Utf16.EncodeScalar(v), InUtf16(Utf8.Decode(bs[n..])))
  {
    var (v, n) := Utf8.DecodeFirst(bs).value;
    assert Utf8.Decode(bs) == PrefixWith([v], Utf8.Decode(bs[n..]));
    if Utf8.Decode(bs[n..]).Some? {
      var rest := Utf8.Decode(bs[n..]).value;
      assert ([v] + rest)[0] == v && ([v] + rest)[1..] == rest;
    }
  }

  /** An invalid sequence: an octet of it was not escaped, or the escaped octets do not decode. */
  lemma DecodeRenderInvalidSequence(bs: seq<Byte>, keep: int -> bool)
    requires Keepable(keep) && |bs| > 0 && bs[0] >= 0x80 && Utf8.DecodeFirst(bs).None?
    ensures |PercentRender(bs, keep)| > 0 && DecodeStep(PercentRender(bs, keep)) == None
  {
    var s := PercentRender(bs, keep);
    RenderEscaped(bs, keep);
    var b, n := bs[0], LeadingOnes(bs[0]);
    var t := PercentRender(bs[1..], keep);
    if 2 <= n <= 4 && |t| >= 3 * (n - 1) && ParseEscapes(t, n - 1).Some? {
      EscapedTailInvalid(bs, keep, n);
    }
    DecodeStepOfBadEscapes(s, b);
  }

  /** A step that meets a lead octet whose escapes are missing or do not decode throws. */
  lemma DecodeStepOfBadEscapes(s: JsString, b: Byte)
    requires |s| >= 3 && s[0] == PERCENT && ParseHexOctet(s[1], s[2]) == Some(b) && b >= 0x80
    requires var n := LeadingOnes(b);
      n == 1 || n > 4 || |s| < 3 * n || ParseEscapes(s[3..], n - 1).None?
      || Utf8.DecodeFirst([b] + ParseEscapes(s[3..], n - 1).value).None?
    ensures DecodeStep(s) == None
  {
  }

  /** The octets that a lead octet's escapes gather from an invalid sequence do not decode either. */
  lemma EscapedTailInvalid(bs: seq<Byte>, keep: int -> bool, n: nat)
    requires Keepable(keep) && |bs| > 0 && Utf8.DecodeFirst(bs).None?
    requires n == LeadingOnes(bs[0]) && 2 <= n <= 4
    requires |PercentRender(bs[1..], keep)| >= 3 * (n - 1) && ParseEscapes(PercentRender(bs[1..], keep), n - 1).Some?
    ensures Utf8.DecodeFirst([bs[0]] + ParseEscapes(PercentRender(bs[1..], keep), n - 1).value).None?
  {
    var t := bs[1..];
    ParseEscapesOfRender(t, n - 1, keep);
    assert [bs[0]] + t[..n - 1] == bs[..n];
    if Utf8.IsLead(bs[0]) {
      LeadingOnesOfLead(bs[0]);
    }
    Utf8.DecodeFirstPrefix(bs, n);
  }

  /** escape applied to a string of octets renders each octet, keeping exactly its unescaped set. */
  lemma {:induction false} EscapeIsRender(bs: seq<Byte>)
    ensures Escape(bs) == PercentRender(bs, IsEscapeUnescaped)
  {
    if bs != [] {
      EscapeIsRender(bs[1..]);
    }
  }

  /** unescape after encodeURIComponent yields the UTF-8 octets of the string, one code unit per octet. */
  lemma UnescapeEncodeUriComponent(s: JsString)
    requires Utf16.Decode(s).Some?
    ensures EncodeUriComponent(s).Some?
    ensures Unescape(EncodeUriComponent(s).value) == Utf8.Encode(Utf16.Decode(s).value)
  {
    EncodeUriComponentIsRender(s);
    UnescapeRender(Utf8.Encode(Utf16.Decode(s).value), IsUriUnreserved);
  }

  /** decodeURIComponent after escape: the strict UTF-8 decoding of the octets, in UTF-16. */
  lemma DecodeUriComponentEscape(bs: seq<Byte>)
    ensures DecodeUriComponent(Escape(bs)) == InUtf16(Utf8.Decode(bs))
  {
    EscapeIsRender(bs);
    DecodeRender(bs, IsEscapeUnescaped);
  }

  /** decodeURIComponent undoes encodeURIComponent on every string without a lone surrogate. */
  lemma DecodeEncodeUriComponent(s: JsString)
    requires Utf16.WellFormed(s)
    ensures EncodeUriComponent(s).Some? && DecodeUriComponent(EncodeUriComponent(s).value) == Some(s)
  {
    Utf16.DecodeIffWellFormed(s);
    var cps := Utf16.Decode(s).value;
    EncodeUriComponentIsRender(s);
    DecodeRender(Utf8.Encode(cps), IsUriUnreserved);
    Utf8.DecodeEncode(cps);
    Utf16.EncodeDecode(s);
  }

  /** A rendering is ASCII: kept octets are below 0x80, and an escape is '%' and two digits. */
  lemma {:induction false} RenderIsAscii(bs: seq<Byte>, keep: int -> bool)
    requires Keepable(keep)
    ensures forall i | 0 <= i < |PercentRender(bs, keep)| :: PercentRender(bs, keep)[i] < 0x80
  {
    if bs != [] {
      RenderIsAscii(bs[1..], keep);
    }
  }

  /** A code unit that is never kept and is no hexadecimal digit does not occur in a rendering. */
  lemma {:induction false} AbsentFromRender(bs: seq<Byte>, keep: int -> bool, u: int)
    requires !keep(u) && u != PERCENT && !IsHexDigit(u)
    ensures u !in PercentRender(bs, keep)
  {
    if bs != [] {
      AbsentFromRender(bs[1..], keep, u);
    }
  }
}
