/**
 * The share link of an analysis: the token that the share button builds from the JSON text of a
 * result, the page URL that carries it, and the way the page reads the token back when it loads.
 */
module ShareLink {
  import opened Wrappers
  import opened Unicode
  import Utf8
  import Utf16
  import Base64
  import UriCodec
  import UrlQuery

  /**
   * btoa(unescape(encodeURIComponent(json))): None when either call throws (a URIError for a lone
   * surrogate; btoa cannot throw here, as unescape only yields code units below U+0100).
   */
  function EncodeShareToken(json: JsString): Option<seq<char>>
  {
    match UriCodec.EncodeUriComponent(json)
    case None => None
    case Some(encoded) => Base64.Btoa(UriCodec.Unescape(encoded))
  }

  /** decodeURIComponent(escape(atob(data))): None when any of the three calls throws. */
  function DecodeShareToken(data: seq<char>): Option<JsString>
  {
    match Base64.Atob(data)
    case None => None
    case Some(bytes) => UriCodec.DecodeUriComponent(UriCodec.Escape(bytes))
  }

  /** The query parameter that carries the token. */
  const PARAM: string := "analysis"

  /** The share URL as the button writes it: origin, path, then "?analysis=" and the token as it is. */
  function ShareUrlAsWritten(origin: string, pathname: string, token: string): string
  {
    origin + pathname + "?analysis=" + token
  }

  /** encodeURIComponent applied to an ASCII token, as text. */
  function QueryValue(token: string): (r: string)
    requires UrlQuery.IsAsciiText(token)
    ensures UrlQuery.IsAsciiText(r) && '+' !in r && '&' !in r && '#' !in r
  {
    TokenEncodesAsRender(token);
    var r := Text(UriCodec.EncodeUriComponent(Units(token)).value);
    assert forall i | 0 <= i < |r| :: r[i] != '+' && r[i] != '&' && r[i] != '#';
    r
  }

  /** The share URL with the token percent-encoded, so that the query parser reads it back unchanged. */
  function ShareUrl(origin: string, pathname: string, token: string): string
    requires UrlQuery.IsAsciiText(token)
  {
    origin + pathname + "?analysis=" + QueryValue(token)
  }

  /** The characters a token is made of: the base64 alphabet and '='. */
  predicate IsTokenText(t: string)
  {
    forall i | 0 <= i < |t| :: Base64.IsAlphabetChar(t[i]) || t[i] == '='
  }

  /** The origin and the path of the page: text with neither a query nor a fragment in it. */
  predicate IsPagePrefix(origin: string, pathname: string)
  {
    '?' !in origin + pathname && '#' !in origin + pathname
  }

  /** `t` with every '+' read as a space, as the query parser reads it. */
  function PlusAsSpace(t: string): (r: string)
    ensures |r| == |t| && forall i | 0 <= i < |t| :: r[i] == if t[i] == '+' then ' ' else t[i]
  {
    seq(|t|, i requires 0 <= i < |t| => if t[i] == '+' then ' ' else t[i])
  }

  /** The JSON text "~~~", quotes included: a string value that serializes to these five code units. */
  function QuotedTildes(): (json: JsString)
    ensures |json| == 5
  {
    [0x22, 0x7E, 0x7E, 0x7E, 0x22]
  }

  /** The value of the "analysis" parameter in the query of the page URL, as the page reads it on load. */
  function ReadParam(href: string): Option<string>
  {
    UrlQuery.SearchParam(UrlQuery.LocationSearch(href), PARAM)
  }

  // ---------------------------------------------------------------------------------------------
  // The token

  /**
   * The token exists exactly when the JSON text has no lone surrogate, and it is then the base64
   * encoding of the text's UTF-8 octets.
   */
  lemma EncodeShareTokenIsBase64OfUtf8(json: JsString)
    ensures EncodeShareToken(json).Some? <==> Utf16.WellFormed(json)
    ensures EncodeShareToken(json).Some? ==>
      (Utf16.Decode(json).Some? && EncodeShareToken(json).value == Base64.Encode(Utf8.Encode(Utf16.Decode(json).value)))
  {
    Utf16.DecodeIffWellFormed(json);
    UriCodec.EncodeUriComponentIsRender(json);
    if Utf16.Decode(json).Some? {
      UriCodec.UnescapeEncodeUriComponent(json);
    }
  }

  /**
   * Reading a token succeeds exactly when it is base64 that the forgiving decoder accepts and
   * whose octets are valid UTF-8; the result is the decoded text in UTF-16.
   */
  lemma DecodeShareTokenIsUtf8OfBase64(data: seq<char>)
    ensures DecodeShareToken(data) ==
      match Base64.ForgivingDecode(data)
      case None => None
      case Some(bytes) => UriCodec.InUtf16(Utf8.Decode(bytes))
  {
    if Base64.ForgivingDecode(data).Some? {
      UriCodec.DecodeUriComponentEscape(Base64.ForgivingDecode(data).value);
    }
  }

  /** Every JSON text without a lone surrogate survives the token round trip unchanged. */
  lemma ShareTokenRoundTrip(json: JsString)
    requires Utf16.WellFormed(json)
    ensures EncodeShareToken(json).Some? && DecodeShareToken(EncodeShareToken(json).value) == Some(json)
  {
    EncodeShareTokenIsBase64OfUtf8(json);
    var cps := Utf16.Decode(json).value;
    var bytes := Utf8.Encode(cps);
    DecodeShareTokenIsUtf8OfBase64(Base64.Encode(bytes));
    Base64.ForgivingDecodeEncode(bytes);
    Utf8.DecodeEncode(cps);
    Utf16.EncodeDecode(json);
  }

  /** A token is made of the base64 alphabet and '=', four characters for every three octets or part thereof. */
  lemma ShareTokenShape(json: JsString)
    requires Utf16.WellFormed(json)
    ensures EncodeShareToken(json).Some? && Utf16.Decode(json).Some?
    ensures IsTokenText(EncodeShareToken(json).value)
    ensures |EncodeShareToken(json).value| == 4 * ((|Utf8.Encode(Utf16.Decode(json).value)| + 2) / 3)
  {
    EncodeShareTokenIsBase64OfUtf8(json);
    var bytes := Utf8.Encode(Utf16.Decode(json).value);
    Base64.EncodeShape(bytes);
    Base64.EncodedLength(|bytes|);
  }

  /** So a token is a whole number of four-character groups. */
  lemma ShareTokenGroups(json: JsString)
    requires Utf16.WellFormed(json)
    ensures EncodeShareToken(json).Some? && IsTokenText(EncodeShareToken(json).value)
    ensures |EncodeShareToken(json).value| % 4 == 0
  {
    EncodeShareTokenIsBase64OfUtf8(json);
    ShareTokenShape(json);
    Base64.EncodeGroups(Utf8.Encode(Utf16.Decode(json).value));
  }

  /** A non-empty JSON text gets a non-empty token, so the page does not mistake it for a missing one. */
  lemma ShareTokenNonEmpty(json: JsString)
    requires Utf16.WellFormed(json) && json != []
    ensures EncodeShareToken(json).Some? && |EncodeShareToken(json).value| >= 4
  {
    ShareTokenShape(json);
    var cps := Utf16.Decode(json).value;
    Utf16.EncodeDecode(json);
    assert cps != [];
    Utf8.DecodeEncode(cps);
    assert Utf8.Encode(cps) != [];
  }

  // ---------------------------------------------------------------------------------------------
  // The URL

  lemma TokenEncodesAsRender(token: string)
    requires UrlQuery.IsAsciiText(token)
    ensures var e := UriCodec.EncodeUriComponent(Units(token));
      && e.Some? && e.value == UriCodec.PercentRender(UrlQuery.AsciiBytes(token), UriCodec.IsUriUnreserved)
      && (forall i | 0 <= i < |e.value| ::
            e.value[i] < 0x80 && e.value[i] != '+' as int && e.value[i] != '&' as int && e.value[i] != '#' as int)
  {
    var units := Units(token);
    var bytes := UrlQuery.AsciiBytes(token);
    assert units == bytes;
    Utf16.DecodeNoSurrogates(units);
    UriCodec.EncodeUriComponentIsRender(units);
    Utf8.EncodeAscii(units);
    var r := UriCodec.PercentRender(bytes, UriCodec.IsUriUnreserved);
    UriCodec.RenderIsAscii(bytes, UriCodec.IsUriUnreserved);
    UriCodec.AbsentFromRender(bytes, UriCodec.IsUriUnreserved, '+' as int);
    UriCodec.AbsentFromRender(bytes, UriCodec.IsUriUnreserved, '&' as int);
    UriCodec.AbsentFromRender(bytes, UriCodec.IsUriUnreserved, '#' as int);
  }

  /** The characters of a token are ASCII, and none of them is special to the query parser or the URL. */
  lemma TokenTextIsPlain(t: string)
    requires IsTokenText(t)
    ensures UrlQuery.IsAsciiText(t) && '&' !in t && '#' !in t && '%' !in t && '?' !in t
  {
  }

  /** A page URL whose query is the one pair "analysis=value" yields the value as the query parser reads it. */
  lemma ReadOnePair(origin: string, pathname: string, value: string)
    requires IsPagePrefix(origin, pathname) && UrlQuery.IsAsciiText(value) && '&' !in value && '#' !in value
    ensures ReadParam(origin + pathname + "?analysis=" + value) == Some(UrlQuery.DecodeField(UrlQuery.AsciiBytes(value)))
  {
    var prefix := origin + pathname;
    var query := PARAM + "=" + value;
    assert '#' !in query;
    assert origin + pathname + "?analysis=" + value == prefix + "?" + query;
    UrlQuery.LocationSearchOfQuery(prefix, query);
    assert "?" + query == "?" + PARAM + "=" + value;
    UrlQuery.SearchParamOfOnePair(PARAM, value);
  }

  /** The link as the button writes it reads back as the token with every '+' turned into a space. */
  lemma ReadAsWritten(origin: string, pathname: string, token: string)
    requires IsPagePrefix(origin, pathname) && IsTokenText(token)
    ensures ReadParam(ShareUrlAsWritten(origin, pathname, token)) == Some(PlusAsSpace(token))
  {
    TokenTextIsPlain(token);
    ReadOnePair(origin, pathname, token);
    UrlQuery.DecodeFieldNoPercent(token);
    assert UrlQuery.DecodeField(UrlQuery.AsciiBytes(token)) == PlusAsSpace(token);
  }

  /** So a token without '+' comes back unchanged through the link as written. */
  lemma ReadAsWrittenWithoutPlus(origin: string, pathname: string, token: string)
    requires IsPagePrefix(origin, pathname) && IsTokenText(token) && '+' !in token
    ensures ReadParam(ShareUrlAsWritten(origin, pathname, token)) == Some(token)
  {
    ReadAsWritten(origin, pathname, token);
    assert PlusAsSpace(token) == token;
  }

  /**
   * A result whose JSON text is "~~~" gets the token "In5+fiI="; the link as written reads it
   * back as "In5 fiI=", which atob rejects, so the page reports the link as invalid.
   */
  lemma AsWrittenLinkBreaksOnPlus(origin: string, pathname: string)
    requires IsPagePrefix(origin, pathname)
    ensures EncodeShareToken(QuotedTildes()) == Some("In5+fiI=")
    ensures ReadParam(ShareUrlAsWritten(origin, pathname, "In5+fiI=")) == Some("In5 fiI=")
    ensures DecodeShareToken("In5 fiI=") == None
  {
    QuotedTildesToken();
    PlusTokenText();
    ReadAsWritten(origin, pathname, "In5+fiI=");
    SpacedTokenRejected();
  }

  /** The text has exactly one '+'. */
  predicate HasOnePlus(t: string)
  {
    exists k | 0 <= k < |t| :: t[k] == '+' && forall j | 0 <= j < |t| && j != k :: t[j] != '+'
  }

  /**
   * A token with exactly one '+' that ends in '=' (the UTF-8 length of its text is no multiple of
   * three): the link as written reads it back with a space, and that does not decode.
   */
  lemma AsWrittenLinkBreaks(origin: string, pathname: string, t: string, k: nat)
    requires IsPagePrefix(origin, pathname) && IsTokenText(t) && |t| % 4 == 0 && |t| > 0 && t[|t| - 1] == '='
    requires k < |t| && t[k] == '+' && forall j | 0 <= j < |t| && j != k :: t[j] != '+'
    ensures ReadParam(ShareUrlAsWritten(origin, pathname, t)) == Some(PlusAsSpace(t))
    ensures DecodeShareToken(PlusAsSpace(t)) == None
  {
    ReadAsWritten(origin, pathname, t);
    SpacedTokenUndecodable(t, k);
    DecodeShareTokenIsUtf8OfBase64(PlusAsSpace(t));
  }

  /** Such a token with its one '+' turned into a space is rejected by the forgiving base64 decoder. */
  lemma SpacedTokenUndecodable(t: string, k: nat)
    requires IsTokenText(t) && |t| % 4 == 0 && |t| > 0 && t[|t| - 1] == '='
    requires k < |t| && t[k] == '+' && forall j | 0 <= j < |t| && j != k :: t[j] != '+'
    ensures Base64.ForgivingDecode(PlusAsSpace(t)) == None
  {
    var a, b := t[..k], t[k + 1..];
    assert PlusAsSpace(t) == a + [' '] + b;
    assert forall i | 0 <= i < |a| :: !Base64.IsAsciiWhitespace(a[i]) by {
      forall i | 0 <= i < |a| ensures !Base64.IsAsciiWhitespace(a[i]) { assert a[i] == t[i]; }
    }
    assert forall i | 0 <= i < |b| :: !Base64.IsAsciiWhitespace(b[i]) by {
      forall i | 0 <= i < |b| ensures !Base64.IsAsciiWhitespace(b[i]) { assert b[i] == t[k + 1 + i]; }
    }
    Base64.OneSpaceTripleRejected(a, b);
  }

  /** So the link the button writes for a JSON text whose token has one '+' and ends in '=' is unreadable. */
  lemma AsWrittenTokenBreaks(json: JsString, origin: string, pathname: string)
    requires IsPagePrefix(origin, pathname) && EncodeShareToken(json).Some?
    requires var t := EncodeShareToken(json).value; |t| > 0 && t[|t| - 1] == '=' && HasOnePlus(t)
    ensures var t := EncodeShareToken(json).value;
      var data := ReadParam(ShareUrlAsWritten(origin, pathname, t));
      data.Some? && data.value != [] && DecodeShareToken(data.value).None?
  {
    var t := EncodeShareToken(json).value;
    EncodeShareTokenIsBase64OfUtf8(json);
    ShareTokenGroups(json);
    BreaksWithOnePlus(origin, pathname, t);
  }

  lemma BreaksWithOnePlus(origin: string, pathname: string, t: string)
    requires IsPagePrefix(origin, pathname) && IsTokenText(t) && |t| % 4 == 0
    requires |t| > 0 && t[|t| - 1] == '=' && HasOnePlus(t)
    ensures ReadParam(ShareUrlAsWritten(origin, pathname, t)) == Some(PlusAsSpace(t))
    ensures PlusAsSpace(t) != [] && DecodeShareToken(PlusAsSpace(t)) == None
  {
    var k :| 0 <= k < |t| && t[k] == '+' && forall j | 0 <= j < |t| && j != k :: t[j] != '+';
    AsWrittenLinkBreaks(origin, pathname, t, k);
  }

  lemma PlusTokenText()
    ensures IsTokenText("In5+fiI=") && PlusAsSpace("In5+fiI=") == "In5 fiI="
  {
    var token := "In5+fiI=";
    assert forall i | 0 <= i < |token| :: Base64.IsAlphabetChar(token[i]) || token[i] == '=';
    assert PlusAsSpace(token) == "In5 fiI=";
  }

  lemma QuotedTildesToken()
    ensures EncodeShareToken(QuotedTildes()) == Some("In5+fiI=")
  {
    var json := QuotedTildes();
    AsciiJsonBytes(json);
    EncodeShareTokenIsBase64OfUtf8(json);
    assert Utf8.Encode(Utf16.Decode(json).value) == [0x22, 0x7E, 0x7E, 0x7E, 0x22];
    Base64.EncodesQuotedTildes();
  }

  /** An ASCII string value is well formed, and its UTF-8 octets are its code units. */
  lemma AsciiJsonBytes(json: JsString)
    requires forall i | 0 <= i < |json| :: json[i] < 0x80
    ensures Utf16.WellFormed(json) && Utf16.Decode(json) == Some(json)
    ensures Utf8.Encode(Utf16.Decode(json).value) == json
  {
    Utf16.DecodeNoSurrogates(json);
    Utf16.DecodeIffWellFormed(json);
    var cps: seq<Scalar> := json;
    Utf8.EncodeAscii(cps);
  }

  lemma SpacedTokenRejected()
    ensures DecodeShareToken("In5 fiI=") == None
  {
    DecodeShareTokenIsUtf8OfBase64("In5 fiI=");
    Base64.SpacedTokenRejected();
  }

  /** An ASCII character that neither the query parser nor the URL treats specially. */
  predicate IsPlainChar(c: char)
  {
    c < 0x80 as char && c != '&' && c != '#' && c != '+' && c != '%'
  }

  /** The value of a hand-made link: plain characters, with a '-' at index 3. */
  function CorruptedToken(): (t: string)
    ensures (forall i | 0 <= i < |t| :: IsPlainChar(t[i])) && |t| > 3 && t[3] == '-'
  {
    "not-valid-base64!!"
  }

  /**
   * A page opened with "?analysis=not-valid-base64!!" reads that value back as it is, and atob
   * rejects it at its first '-', so the page reports the link as invalid.
   */
  lemma ForeignTokenRejected(origin: string, pathname: string)
    requires IsPagePrefix(origin, pathname)
    ensures ReadParam(ShareUrlAsWritten(origin, pathname, CorruptedToken())) == Some(CorruptedToken())
    ensures DecodeShareToken(CorruptedToken()) == None
  {
    ReadPlainValue(origin, pathname, CorruptedToken());
    ForeignTokenUndecodable(CorruptedToken(), 3);
  }

  /** A value with no '+', '%', '&' or '#' reads back through the page URL unchanged. */
  lemma ReadPlainValue(origin: string, pathname: string, v: string)
    requires IsPagePrefix(origin, pathname) && forall i | 0 <= i < |v| :: IsPlainChar(v[i])
    ensures ReadParam(ShareUrlAsWritten(origin, pathname, v)) == Some(v)
  {
    assert UrlQuery.IsAsciiText(v) && '&' !in v && '#' !in v && '+' !in v && '%' !in v;
    ReadOnePair(origin, pathname, v);
    UrlQuery.DecodeFieldPlain(v);
  }

  /** A token with a character outside the base64 alphabet does not decode. */
  lemma ForeignTokenUndecodable(v: string, i: nat)
    requires i < |v| && !Base64.IsAlphabetChar(v[i]) && !Base64.IsAsciiWhitespace(v[i]) && v[i] != '='
    ensures DecodeShareToken(v) == None
  {
    DecodeShareTokenIsUtf8OfBase64(v);
    Base64.ForeignCharRejected(v, i);
  }

  /** The corrected link reads back every ASCII token unchanged, '+' included. */
  lemma ReadCorrected(origin: string, pathname: string, token: string)
    requires IsPagePrefix(origin, pathname) && UrlQuery.IsAsciiText(token)
    ensures ReadParam(ShareUrl(origin, pathname, token)) == Some(token)
  {
    var q := QueryValue(token);
    ReadOnePair(origin, pathname, q);
    TokenEncodesAsRender(token);
    var bytes := UrlQuery.AsciiBytes(token);
    assert UrlQuery.AsciiBytes(q) == UriCodec.PercentRender(bytes, UriCodec.IsUriUnreserved);
    UrlQuery.DecodeFieldRender(bytes);
    assert UrlQuery.CharsOf(bytes) == token;
  }

  /**
   * Sharing then loading: for every JSON text without a lone surrogate, the corrected link carries
   * the token unchanged and the token decodes to the same text.
   */
  lemma ShareLinkRoundTrip(json: JsString, origin: string, pathname: string)
    requires IsPagePrefix(origin, pathname) && Utf16.WellFormed(json)
    ensures EncodeShareToken(json).Some?
    ensures var token := EncodeShareToken(json).value;
      && UrlQuery.IsAsciiText(token)
      && ReadParam(ShareUrl(origin, pathname, token)) == Some(token)
      && DecodeShareToken(token) == Some(json)
  {
    ShareTokenShape(json);
    var token := EncodeShareToken(json).value;
    TokenTextIsPlain(token);
    ReadCorrected(origin, pathname, token);
    ShareTokenRoundTrip(json);
  }
}
