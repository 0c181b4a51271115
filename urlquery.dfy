/**
 * The two browser facilities the shared link travels through on the way back in: the `search`
 * attribute of `window.location` (the query of the page URL, '?' included) and
 * `URLSearchParams.get`, which reads the query with the application/x-www-form-urlencoded parser
 * of the WHATWG URL Standard.
 */
module UrlQuery {
  import opened Wrappers
  import opened Unicode
  import Utf8
  import UriCodec

  /** A USVString as its scalar values. */
  function ScalarsOf(s: seq<char>): (r: seq<Scalar>)
    ensures |r| == |s| && forall i | 0 <= i < |s| :: r[i] == s[i] as int
  {
    seq(|s|, i requires 0 <= i < |s| => s[i] as int)
  }

  function CharsOf(cps: seq<Scalar>): (r: seq<char>)
    ensures |r| == |cps| && forall i | 0 <= i < |cps| :: r[i] as int == cps[i]
  {
    seq(|cps|, i requires 0 <= i < |cps| => cps[i] as char)
  }

  predicate IsAsciiText(s: seq<char>)
  {
    forall i | 0 <= i < |s| :: s[i] < 0x80 as char
  }

  /** The octets of ASCII text, one per character. */
  function AsciiBytes(s: seq<char>): (r: seq<Byte>)
    requires IsAsciiText(s)
    ensures |r| == |s| && forall i | 0 <= i < |s| :: r[i] == s[i] as int
  {
    seq(|s|, i requires 0 <= i < |s| => s[i] as int)
  }

  /** `s` up to, not including, its first '#'. */
  function BeforeFragment(s: seq<char>): (r: seq<char>)
    ensures |r| <= |s| && r == s[..|r|] && '#' !in r
    ensures '#' !in s ==> r == s
  {
    if s == [] || s[0] == '#' then [] else [s[0]] + BeforeFragment(s[1..])
  }

  /**
   * `location.search` of a serialized URL: '?' and the query after it, up to the fragment; the
   * empty string when the URL has no query or an empty one. A '?' inside the fragment does not
   * count.
   */
  function LocationSearch(href: seq<char>): seq<char>
  {
    if href == [] || href[0] == '#' then []
    else if href[0] == '?' then
      var q := BeforeFragment(href);
      if |q| == 1 then [] else q
    else LocationSearch(href[1..])
  }

  const AMPERSAND: Byte := 0x26
  const EQUALS: Byte := 0x3D
  const PLUS: Byte := 0x2B
  const SPACE: Byte := 0x20

  /** "Strictly split" on a separator: the pieces between separators, empty ones included. */
  function Split(bs: seq<Byte>, sep: Byte): (r: seq<seq<Byte>>)
    ensures |r| >= 1
    ensures sep !in bs ==> r == [bs]
  {
    if bs == [] then [[]]
    else if bs[0] == sep then [[]] + Split(bs[1..], sep)
    else
      var rest := Split(bs[1..], sep);
      assert bs == [bs[0]] + bs[1..];
      [[bs[0]] + rest[0]] + rest[1..]
  }

  /** A name and a value: the bytes before the first '=' and those after it, or all bytes and nothing. */
  function SplitAtEquals(bs: seq<Byte>): (r: (seq<Byte>, seq<Byte>))
    ensures EQUALS !in r.0
    ensures EQUALS !in bs ==> r == (bs, [])
  {
    if bs == [] then ([], [])
    else if bs[0] == EQUALS then ([], bs[1..])
    else
      var (name, value) := SplitAtEquals(bs[1..]);
      assert bs == [bs[0]] + bs[1..];
      ([bs[0]] + name, value)
  }

  /** Every '+' becomes a space. */
  function PlusToSpace(bs: seq<Byte>): (r: seq<Byte>)
    ensures |r| == |bs|
    ensures forall i | 0 <= i < |bs| :: r[i] == (if bs[i] == PLUS then SPACE else bs[i])
  {
    seq(|bs|, i requires 0 <= i < |bs| => if bs[i] == PLUS then SPACE else bs[i])
  }

  /** Percent-decoding of the URL Standard: "%XX" becomes the byte XX; a '%' not followed by two hexadecimal digits stays. */
  function PercentDecode(bs: seq<Byte>): seq<Byte>
    decreases |bs|
  {
    if bs == [] then []
    else if bs[0] == UriCodec.PERCENT && |bs| >= 3 && UriCodec.IsHexDigit(bs[1]) && UriCodec.IsHexDigit(bs[2]) then
      [UriCodec.HexValue(bs[1]) * 16 + UriCodec.HexValue(bs[2])] + PercentDecode(bs[3..])
    else [bs[0]] + PercentDecode(bs[1..])
  }

  /** A name or a value of the form-urlencoded parser: '+' to space, percent-decoded, then UTF-8 decoded without failure. */
  function DecodeField(bs: seq<Byte>): seq<char>
  {
    CharsOf(Utf8.DecodeLossy(PercentDecode(PlusToSpace(bs))))
  }

  /** The name-value pairs of the pieces between '&', empty pieces skipped. */
  function Pairs(pieces: seq<seq<Byte>>): seq<(seq<char>, seq<char>)>
  {
    if pieces == [] then []
    else if pieces[0] == [] then Pairs(pieces[1..])
    else
      var (name, value) := SplitAtEquals(pieces[0]);
      [(DecodeField(name), DecodeField(value))] + Pairs(pieces[1..])
  }

  /** The application/x-www-form-urlencoded parser, on the UTF-8 bytes of its input. */
  function ParseQuery(input: seq<char>): seq<(seq<char>, seq<char>)>
  {
    Pairs(Split(Utf8.Encode(ScalarsOf(input)), AMPERSAND))
  }

  /** The value of the first pair with the given name. */
  function Lookup(pairs: seq<(seq<char>, seq<char>)>, name: seq<char>): (r: Option<seq<char>>)
    ensures r.Some? <==> exists i | 0 <= i < |pairs| :: pairs[i].0 == name
    ensures r.Some? ==> exists i | 0 <= i < |pairs| ::
      pairs[i] == (name, r.value) && forall j | 0 <= j < i :: pairs[j].0 != name
  {
    if pairs == [] then None
    else if pairs[0].0 == name then Some(pairs[0].1)
    else Lookup(pairs[1..], name)
  }

  /** `new URLSearchParams(search).get(name)`: a leading '?' is dropped before parsing; null is None. */
  function SearchParam(search: seq<char>, name: seq<char>): Option<seq<char>>
  {
    var input := if |search| > 0 && search[0] == '?' then search[1..] else search;
    Lookup(ParseQuery(input), name)
  }

  lemma BytesOfAscii(s: seq<char>)
    requires IsAsciiText(s)
    ensures Utf8.Encode(ScalarsOf(s)) == AsciiBytes(s)
  {
    Utf8.EncodeAscii(ScalarsOf(s));
  }

  lemma {:induction false} PercentDecodeNoPercent(bs: seq<Byte>)
    requires UriCodec.PERCENT !in bs
    ensures PercentDecode(bs) == bs
  {
    if bs != [] {
      PercentDecodeNoPercent(bs[1..]);
      assert bs == [bs[0]] + bs[1..];
    }
  }

  /** An ASCII name or value without '+' and '%' reads as itself. */
  lemma DecodeFieldPlain(s: seq<char>)
    requires IsAsciiText(s) && '+' !in s && '%' !in s
    ensures DecodeField(AsciiBytes(s)) == s
  {
    var bs := AsciiBytes(s);
    assert PlusToSpace(bs) == bs;
    PercentDecodeNoPercent(bs);
    Utf8.DecodeLossyAscii(bs);
  }

  /** An ASCII value without '%' reads as itself with each '+' turned into a space. */
  lemma DecodeFieldNoPercent(s: seq<char>)
    requires IsAsciiText(s) && '%' !in s
    ensures var r := DecodeField(AsciiBytes(s));
      |r| == |s| && forall i | 0 <= i < |s| :: r[i] == if s[i] == '+' then ' ' else s[i]
  {
    var p := PlusToSpace(AsciiBytes(s));
    assert forall i | 0 <= i < |p| :: p[i] < 0x80 && p[i] != UriCodec.PERCENT;
    PercentDecodeNoPercent(p);
    Utf8.DecodeLossyAscii(p);
  }

  /** Percent-decoding undoes any rendering of octets (encodeURIComponent's output among them). */
  lemma {:induction false} PercentDecodeRender(bs: seq<Byte>, keep: int -> bool)
    requires UriCodec.Keepable(keep)
    ensures PercentDecode(UriCodec.PercentRender(bs, keep)) == bs
  {
    if bs != [] {
      var r := UriCodec.PercentRender(bs, keep);
      PercentDecodeRender(bs[1..], keep);
      if keep(bs[0]) {
        assert r == [bs[0]] + UriCodec.PercentRender(bs[1..], keep);
        assert r[1..] == UriCodec.PercentRender(bs[1..], keep);
      } else {
        assert r == UriCodec.PercentEncodeByte(bs[0]) + UriCodec.PercentRender(bs[1..], keep);
        assert r[3..] == UriCodec.PercentRender(bs[1..], keep);
      }
    }
  }

  /** A value written by encodeURIComponent over ASCII octets reads back as those octets. */
  lemma DecodeFieldRender(bs: seq<Byte>)
    requires forall i | 0 <= i < |bs| :: bs[i] < 0x80
    ensures DecodeField(UriCodec.PercentRender(bs, UriCodec.IsUriUnreserved)) == CharsOf(bs)
  {
    var r := UriCodec.PercentRender(bs, UriCodec.IsUriUnreserved);
    UriCodec.AbsentFromRender(bs, UriCodec.IsUriUnreserved, PLUS);
    assert PlusToSpace(r) == r;
    PercentDecodeRender(bs, UriCodec.IsUriUnreserved);
    Utf8.DecodeLossyAscii(bs);
  }

  /** `location.search` of a URL whose query starts at the '?' that precedes `query`. */
  lemma {:induction false} LocationSearchOfQuery(prefix: seq<char>, query: seq<char>)
    requires '?' !in prefix && '#' !in prefix && '#' !in query
    ensures LocationSearch(prefix + "?" + query) == if query == [] then [] else "?" + query
  {
    var href := prefix + "?" + query;
    if prefix == [] {
      assert href == "?" + query;
    } else {
      assert href[0] == prefix[0] && href[1..] == prefix[1..] + "?" + query;
      LocationSearchOfQuery(prefix[1..], query);
    }
  }

  lemma {:induction false} SplitAtFirstEquals(name: seq<Byte>, value: seq<Byte>)
    requires EQUALS !in name
    ensures SplitAtEquals(name + [EQUALS] + value) == (name, value)
  {
    var bs := name + [EQUALS] + value;
    if name != [] {
      assert bs[0] == name[0] && bs[1..] == name[1..] + [EQUALS] + value;
      assert name[0] in name;
      SplitAtFirstEquals(name[1..], value);
      assert name == [name[0]] + name[1..];
    } else {
      assert bs == [EQUALS] + value;
    }
  }

  /**
   * A query holding one ASCII pair "name=value", where the name reads as itself and neither part
   * holds '&': get(name) returns the value as the parser reads it.
   */
  lemma SearchParamOfOnePair(name: seq<char>, value: seq<char>)
    requires IsAsciiText(name) && IsAsciiText(value) && name != []
    requires '&' !in name && '&' !in value && '=' !in name && '+' !in name && '%' !in name
    ensures SearchParam("?" + name + "=" + value, name) == Some(DecodeField(AsciiBytes(value)))
  {
    var search := "?" + name + "=" + value;
    var input := name + "=" + value;
    assert search == "?" + input;
    assert search[1..] == input;
    AsciiBytesAppend(name + "=", value);
    AsciiBytesAppend(name, "=");
    assert AsciiBytes("=") == [EQUALS];
    BytesOfAscii(input);
    PairsOfOnePair(AsciiBytes(name), AsciiBytes(value));
    DecodeFieldPlain(name);
  }

  lemma AsciiBytesAppend(a: seq<char>, b: seq<char>)
    requires IsAsciiText(a) && IsAsciiText(b)
    ensures IsAsciiText(a + b) && AsciiBytes(a + b) == AsciiBytes(a) + AsciiBytes(b)
  {
    assert forall i | 0 <= i < |a + b| :: (a + b)[i] == if i < |a| then a[i] else b[i - |a|];
  }

  /** The bytes "name=value" without '&' parse as the one pair. */
  lemma PairsOfOnePair(n: seq<Byte>, v: seq<Byte>)
    requires AMPERSAND !in n && AMPERSAND !in v && EQUALS !in n
    ensures Pairs(Split(n + [EQUALS] + v, AMPERSAND)) == [(DecodeField(n), DecodeField(v))]
  {
    var bs := n + [EQUALS] + v;
    assert AMPERSAND !in bs;
    SplitAtFirstEquals(n, v);
    assert Pairs([bs]) == [(DecodeField(n), DecodeField(v))] + Pairs([]);
  }
}
