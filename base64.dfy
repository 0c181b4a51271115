/**
 * Base64 as in section 4 of RFC 4648 (the encoder used by btoa), the "forgiving-base64 decode" of
 * the WHATWG Infra Standard (the decoder used by atob), and btoa / atob themselves as the HTML
 * Standard defines them on JavaScript strings.
 */
module Base64 {
  import opened Wrappers
  import opened Unicode

  /** A 6-bit group. */
  type Sextet = v: int | 0 <= v < 64

  /** The 64 characters of the alphabet of RFC 4648, Table 1. */
  predicate IsAlphabetChar(c: char)
  {
    'A' <= c <= 'Z' || 'a' <= c <= 'z' || '0' <= c <= '9' || c == '+' || c == '/'
  }

  predicate AllAlphabet(d: seq<char>)
  {
    forall i | 0 <= i < |d| :: IsAlphabetChar(d[i])
  }

  /** The value a character of the alphabet stands for in Table 1. */
  function ValueOf(c: char): Sextet
    requires IsAlphabetChar(c)
  {
    if 'A' <= c <= 'Z' then c as int - 'A' as int
    else if 'a' <= c <= 'z' then c as int - 'a' as int + 26
    else if '0' <= c <= '9' then c as int - '0' as int + 52
    else if c == '+' then 62
    else 63
  }

  /** The character Table 1 gives a value: the only one of the alphabet that stands for it. */
  function CharOf(v: Sextet): (c: char)
    ensures IsAlphabetChar(c) && ValueOf(c) == v
  {
    if v < 26 then ('A' as int + v) as char
    else if v < 52 then ('a' as int + (v - 26)) as char
    else if v < 62 then ('0' as int + (v - 52)) as char
    else if v == 62 then '+'
    else '/'
  }

  function ToChars(vs: seq<Sextet>): (r: seq<char>)
    ensures |r| == |vs| && AllAlphabet(r)
  {
    seq(|vs|, i requires 0 <= i < |vs| => CharOf(vs[i]))
  }

  function ToSextets(d: seq<char>): (r: seq<Sextet>)
    requires AllAlphabet(d)
    ensures |r| == |d|
  {
    seq(|d|, i requires 0 <= i < |d| => ValueOf(d[i]))
  }

  /** The number of '=' characters that close the encoding of n bytes. */
  function PadLength(n: nat): nat { (3 - n % 3) % 3 }

  /** One 24-bit group: three bytes read as four 6-bit groups, most significant first. */
  function SplitGroup(b0: Byte, b1: Byte, b2: Byte): (g: seq<Sextet>)
    ensures |g| == 4
  {
    [b0 / 4, b0 % 4 * 16 + b1 / 16, b1 % 16 * 4 + b2 / 64, b2 % 64]
  }

  /** One 24-bit group: four 6-bit groups read as three bytes. */
  function JoinGroup(v0: Sextet, v1: Sextet, v2: Sextet, v3: Sextet): (g: seq<Byte>)
    ensures |g| == 3
  {
    [v0 * 4 + v1 / 16, v1 % 16 * 16 + v2 / 4, v2 % 4 * 64 + v3]
  }

  /**
   * The regrouping of the encoder: each group of three bytes becomes four 6-bit groups, and a
   * final group of one or two bytes is zero-filled and becomes two or three.
   */
  function Sextets(bs: seq<Byte>): (r: seq<Sextet>)
    ensures |r| == (4 * |bs| + 2) / 3
    decreases |bs|
  {
    if |bs| == 0 then []
    else if |bs| == 1 then SplitGroup(bs[0], 0, 0)[..2]
    else if |bs| == 2 then SplitGroup(bs[0], bs[1], 0)[..3]
    else SplitGroup(bs[0], bs[1], bs[2]) + Sextets(bs[3..])
  }

  /**
   * The regrouping of the decoder: each four 6-bit groups give three bytes; a final two or three
   * give one or two bytes, and the 4 or 2 bits left over are dropped whatever they are.
   */
  function Octets(vs: seq<Sextet>): (r: seq<Byte>)
    requires |vs| % 4 != 1
    ensures |r| == 3 * (|vs| / 4) + (if |vs| % 4 == 0 then 0 else |vs| % 4 - 1)
    decreases |vs|
  {
    if |vs| == 0 then []
    else if |vs| == 2 then JoinGroup(vs[0], vs[1], 0, 0)[..1]
    else if |vs| == 3 then JoinGroup(vs[0], vs[1], vs[2], 0)[..2]
    else JoinGroup(vs[0], vs[1], vs[2], vs[3]) + Octets(vs[4..])
  }

  /** Base64 encoding with padding: the characters of the 6-bit groups, then '=' up to a multiple of four. */
  function Encode(bs: seq<Byte>): (r: seq<char>)
    ensures |r| == 4 * ((|bs| + 2) / 3)
  {
    EncodedLength(|bs|);
    ToChars(Sextets(bs)) + seq(PadLength(|bs|), _ => '=')
  }

  /** The 6-bit groups and the padding of n bytes fill a whole number of four-character groups. */
  lemma EncodedLength(n: nat)
    ensures (4 * n + 2) / 3 + PadLength(n) == 4 * ((n + 2) / 3)
    ensures ((4 * n + 2) / 3) % 4 != 1
    ensures ((4 * n + 2) / 3 + PadLength(n)) % 4 == 0
  {
    var q, m := n / 3, n % 3;
    assert n == 3 * q + m;
    var chars, groups := (4 * n + 2) / 3, (n + 2) / 3;
    if m == 0 {
      assert 4 * n + 2 == 3 * (4 * q) + 2 && n + 2 == 3 * q + 2;
      DivByThree(4 * q, 2);
      DivByThree(q, 2);
      assert chars == 4 * q && groups == q && PadLength(n) == 0;
      ModFour(q, 0);
    } else if m == 1 {
      assert 4 * n + 2 == 3 * (4 * q + 2) && n + 2 == 3 * (q + 1);
      DivByThree(4 * q + 2, 0);
      DivByThree(q + 1, 0);
      assert chars == 4 * q + 2 && groups == q + 1 && PadLength(n) == 2;
      ModFour(q, 2);
    } else {
      assert 4 * n + 2 == 3 * (4 * q + 3) + 1 && n + 2 == 3 * (q + 1) + 1;
      DivByThree(4 * q + 3, 1);
      DivByThree(q + 1, 1);
      assert chars == 4 * q + 3 && groups == q + 1 && PadLength(n) == 1;
      ModFour(q, 3);
    }
  }

  /** An encoding is a whole number of four-character groups. */
  lemma EncodeGroups(bs: seq<Byte>)
    ensures |Encode(bs)| % 4 == 0
  {
    EncodedLength(|bs|);
  }

  lemma ModFour(k: int, r: int)
    requires 0 <= r < 4
    ensures (4 * k + r) % 4 == r && (4 * k + r + (4 - r) % 4) % 4 == 0
  {
  }

  lemma DivByThree(k: int, r: int)
    requires 0 <= r < 3
    ensures (3 * k + r) / 3 == k
  {
  }

  /** The shape of an encoding: characters of the alphabet, then the padding, and nothing else. */
  lemma EncodeShape(bs: seq<Byte>)
    ensures var r := Encode(bs); var m := |r| - PadLength(|bs|);
      && m == |Sextets(bs)|
      && (forall i | 0 <= i < m :: IsAlphabetChar(r[i]))
      && (forall i | m <= i < |r| :: r[i] == '=')
  {
    var body := ToChars(Sextets(bs));
    var r := Encode(bs);
    forall i | 0 <= i < |body| ensures IsAlphabetChar(r[i]) {
      assert r[i] == body[i];
    }
  }

  /** ASCII whitespace of the WHATWG Infra Standard: TAB, LF, FF, CR and SPACE. */
  predicate IsAsciiWhitespace(c: char)
  {
    c == '\t' || c == '\n' || c == 0x0C as char || c == '\r' || c == ' '
  }

  /** `s` with its ASCII whitespace removed. */
  function StripWhitespace(s: seq<char>): seq<char>
  {
    if s == [] then []
    else (if IsAsciiWhitespace(s[0]) then [] else [s[0]]) + StripWhitespace(s[1..])
  }

  /** Whitespace removal keeps exactly the other characters, and leaves text without whitespace alone. */
  lemma {:induction false} StripWhitespaceSpec(s: seq<char>)
    ensures var r := StripWhitespace(s);
      && (forall i | 0 <= i < |r| :: !IsAsciiWhitespace(r[i]))
      && (forall c :: c in r <==> c in s && !IsAsciiWhitespace(c))
      && ((forall i | 0 <= i < |s| :: !IsAsciiWhitespace(s[i])) ==> r == s)
  {
    if s != [] {
      StripWhitespaceSpec(s[1..]);
      var head := if IsAsciiWhitespace(s[0]) then [] else [s[0]];
      assert StripWhitespace(s) == head + StripWhitespace(s[1..]);
      assert s == [s[0]] + s[1..];
    }
  }

  /** When the length is a multiple of four, one or two trailing '=' are removed. */
  function StripPadding(d: seq<char>): seq<char>
  {
    if |d| % 4 == 0 && |d| >= 2 && d[|d| - 1] == '=' && d[|d| - 2] == '=' then d[..|d| - 2]
    else if |d| % 4 == 0 && |d| >= 1 && d[|d| - 1] == '=' then d[..|d| - 1]
    else d
  }

  /** The forgiving-base64 decode of the WHATWG Infra Standard; None stands for its failure. */
  function ForgivingDecode(data: seq<char>): Option<seq<Byte>>
  {
    var d := StripPadding(StripWhitespace(data));
    if |d| % 4 == 1 || !AllAlphabet(d) then None
    else Some(Octets(ToSextets(d)))
  }

  /** btoa: None (an InvalidCharacterError) when a code unit exceeds U+00FF, else the encoding of the code units as bytes. */
  function Btoa(s: JsString): Option<seq<char>>
  {
    if forall i | 0 <= i < |s| :: s[i] < 0x100 then
      var bs: seq<Byte> := s;
      Some(Encode(bs))
    else None
  }

  /** atob: the decoded bytes as a string of code units below U+0100, or None (an InvalidCharacterError). */
  function Atob(data: seq<char>): Option<JsString>
  {
    match ForgivingDecode(data)
    case None => None
    case Some(bs) => Some(bs)
  }

  /** The bit arithmetic of one group: splitting three bytes into 6-bit groups and joining them back is the identity. */
  lemma JoinSplitGroup(b0: Byte, b1: Byte, b2: Byte)
    ensures var g := SplitGroup(b0, b1, b2); JoinGroup(g[0], g[1], g[2], g[3]) == [b0, b1, b2]
  {
    var v1, v2 := b0 % 4 * 16 + b1 / 16, b1 % 16 * 4 + b2 / 64;
    assert v1 / 16 == b0 % 4 && v1 % 16 == b1 / 16;
    assert v2 / 4 == b1 % 16 && v2 % 4 == b2 / 64;
  }

  /** Regrouping the encoder's 6-bit groups gives back the bytes. */
  lemma {:induction false} OctetsOfSextets(bs: seq<Byte>)
    ensures |Sextets(bs)| % 4 != 1 && Octets(Sextets(bs)) == bs
    decreases |bs|
  {
    var vs := Sextets(bs);
    EncodedLength(|bs|);
    if |bs| >= 3 {
      var g := SplitGroup(bs[0], bs[1], bs[2]);
      var rest := Sextets(bs[3..]);
      assert vs == g + rest;
      JoinSplitGroup(bs[0], bs[1], bs[2]);
      OctetsOfSextets(bs[3..]);
      OctetsOfGroup(g, rest);
      assert bs == [bs[0], bs[1], bs[2]] + bs[3..];
    } else if |bs| == 2 {
      JoinSplitGroup(bs[0], bs[1], 0);
    } else if |bs| == 1 {
      JoinSplitGroup(bs[0], 0, 0);
    }
  }

  /** Regrouping takes a whole group of four off the front. */
  lemma OctetsOfGroup(g: seq<Sextet>, rest: seq<Sextet>)
    requires |g| == 4 && |rest| % 4 != 1
    ensures |g + rest| % 4 != 1 && Octets(g + rest) == JoinGroup(g[0], g[1], g[2], g[3]) + Octets(rest)
  {
    assert (g + rest)[4..] == rest;
  }

  lemma ToSextetsOfChars(vs: seq<Sextet>)
    ensures ToSextets(ToChars(vs)) == vs
  {
  }

  /** The encoder emits no whitespace, so the decoder's first step leaves its output alone. */
  lemma EncodedHasNoWhitespace(bs: seq<Byte>)
    ensures StripWhitespace(Encode(bs)) == Encode(bs)
  {
    var r := Encode(bs);
    StripWhitespaceSpec(r);
    forall i | 0 <= i < |r| ensures !IsAsciiWhitespace(r[i]) {
      if i < |r| - PadLength(|bs|) {
        assert IsAlphabetChar(r[i]);
      }
    }
  }

  /** The decoder's padding removal takes off exactly the '=' the encoder added. */
  lemma StripPaddingOfEncoded(bs: seq<Byte>)
    ensures StripPadding(Encode(bs)) == ToChars(Sextets(bs))
  {
    var body := ToChars(Sextets(bs));
    var pad := PadLength(|bs|);
    EncodedLength(|bs|);
    assert Encode(bs) == body + seq(pad, _ => '=');
    StripPaddingAfter(body, pad);
  }

  lemma StripPaddingAfter(body: seq<char>, pad: nat)
    requires AllAlphabet(body) && pad <= 2 && (|body| + pad) % 4 == 0 && |body| % 4 != 1
    ensures StripPadding(body + seq(pad, _ => '=')) == body
  {
    var r := body + seq(pad, _ => '=');
    if pad == 2 {
      assert r[..|r| - 2] == body;
    } else if pad == 1 {
      assert r[|r| - 2] == body[|body| - 1];
      assert r[..|r| - 1] == body;
    } else if |r| > 0 {
      assert r[|r| - 1] == body[|body| - 1];
    }
  }

  /** Forgiving decoding undoes encoding, for every byte sequence. */
  lemma ForgivingDecodeEncode(bs: seq<Byte>)
    ensures ForgivingDecode(Encode(bs)) == Some(bs)
  {
    EncodedHasNoWhitespace(bs);
    StripPaddingOfEncoded(bs);
    OctetsOfSextets(bs);
    ToSextetsOfChars(Sextets(bs));
  }

  /** atob undoes btoa whenever btoa succeeds. */
  lemma AtobBtoa(s: JsString)
    requires Btoa(s).Some?
    ensures Atob(Btoa(s).value) == Some(s)
  {
    var bs: seq<Byte> := s;
    ForgivingDecodeEncode(bs);
  }

  /** A character outside the alphabet, the whitespace and '=' makes decoding fail. */
  lemma ForeignCharRejected(data: seq<char>, i: nat)
    requires i < |data|
    requires !IsAlphabetChar(data[i]) && !IsAsciiWhitespace(data[i]) && data[i] != '='
    ensures ForgivingDecode(data) == None
  {
    var s := StripWhitespace(data);
    StripWhitespaceSpec(data);
    assert data[i] in s;
    var j :| 0 <= j < |s| && s[j] == data[i];
    var d := StripPadding(s);
    assert j < |d| && d[j] == s[j];
  }

  /** An '=' that some other character follows (after whitespace removal) makes decoding fail. */
  lemma MisplacedPaddingRejected(data: seq<char>, i: nat, j: nat)
    requires var s := StripWhitespace(data); i < j < |s| && s[i] == '=' && s[j] != '='
    ensures ForgivingDecode(data) == None
  {
    var s := StripWhitespace(data);
    var d := StripPadding(s);
    assert i < |d| && d[i] == '=';
  }

  /** Decoding yields three bytes per four characters of the unpadded input. */
  lemma DecodedLength(data: seq<char>)
    requires ForgivingDecode(data).Some?
    ensures |ForgivingDecode(data).value| == |StripPadding(StripWhitespace(data))| * 3 / 4
  {
  }

  /**
   * The leftover bits of a final group are dropped unchecked, so two different texts decode to
   * the same bytes: a changed character in a token need not be noticed.
   */
  lemma LeftoverBitsIgnored()
    ensures Encode([0x41]) == "QQ=="
    ensures ForgivingDecode("QR==") == ForgivingDecode("QQ==") == Some([0x41])
  {
    EncodesA();
    DecodesQQ();
    DecodesQR();
  }

  lemma DecodesQQ()
    ensures ForgivingDecode("QQ==") == Some([0x41])
  {
    DecodePaddedPair("QQ==");
    assert ValueOf('Q') == 16;
  }

  lemma DecodesQR()
    ensures ForgivingDecode("QR==") == Some([0x41])
  {
    DecodePaddedPair("QR==");
    assert ValueOf('Q') == 16 && ValueOf('R') == 17;
  }

  lemma EncodesA()
    ensures Encode([0x41]) == "QQ=="
  {
    var vs := Sextets([0x41]);
    assert vs == SplitGroup(0x41, 0, 0)[..2] == [16, 16];
    var body := ToChars(vs);
    assert body[0] == CharOf(16) == 'Q' && body[1] == 'Q';
    assert body == "QQ";
  }

  /** Two characters of the alphabet followed by "==" decode to one byte: the leading 8 of their 12 bits. */
  lemma DecodePaddedPair(data: seq<char>)
    requires |data| == 4 && IsAlphabetChar(data[0]) && IsAlphabetChar(data[1]) && data[2] == '=' && data[3] == '='
    ensures ForgivingDecode(data) == Some([ValueOf(data[0]) as int * 4 + ValueOf(data[1]) as int / 16])
  {
    PaddedPairStripped(data);
    var vs := ToSextets(data[..2]);
    assert ForgivingDecode(data) == Some(Octets(vs));
    assert vs[0] == ValueOf(data[0]) && vs[1] == ValueOf(data[1]);
    OctetsOfPair(vs);
    var b: Byte := Octets(vs)[0];
    assert Octets(vs) == [b];
  }

  lemma OctetsOfPair(vs: seq<Sextet>)
    requires |vs| == 2
    ensures |Octets(vs)| == 1 && Octets(vs)[0] == vs[0] as int * 4 + vs[1] as int / 16
  {
    var g := JoinGroup(vs[0], vs[1], 0, 0);
    assert Octets(vs) == g[..1];
  }

  lemma PaddedPairStripped(data: seq<char>)
    requires |data| == 4 && IsAlphabetChar(data[0]) && IsAlphabetChar(data[1]) && data[2] == '=' && data[3] == '='
    ensures StripPadding(StripWhitespace(data)) == data[..2] && AllAlphabet(data[..2])
  {
    StripWhitespaceSpec(data);
    assert forall i | 0 <= i < |data| :: !IsAsciiWhitespace(data[i]);
  }

  /**
   * An '=' that closes a final group of three characters is not padding the decoder removes
   * (the length is not a multiple of four), so it is a foreign character and decoding fails.
   */
  lemma PaddedTripleRejected(d: seq<char>)
    requires |d| % 4 == 3 && d[|d| - 1] == '=' && forall i | 0 <= i < |d| :: !IsAsciiWhitespace(d[i])
    ensures ForgivingDecode(d) == None
  {
    StripWhitespaceSpec(d);
    assert StripPadding(StripWhitespace(d)) == d;
    assert !IsAlphabetChar(d[|d| - 1]);
  }

  /** The encoding of the five octets of the JSON text "~~~" (quotes included). */
  lemma EncodesQuotedTildes()
    ensures Encode([0x22, 0x7E, 0x7E, 0x7E, 0x22]) == "In5+fiI="
  {
    var bs: seq<Byte> := [0x22, 0x7E, 0x7E, 0x7E, 0x22];
    QuotedTildesSextets();
    QuotedTildesChars();
    assert Encode(bs) == ToChars([8, 39, 57, 62, 31, 34, 8]) + "=";
  }

  lemma QuotedTildesSextets()
    ensures Sextets([0x22, 0x7E, 0x7E, 0x7E, 0x22]) == [8, 39, 57, 62, 31, 34, 8]
  {
    var bs: seq<Byte> := [0x22, 0x7E, 0x7E, 0x7E, 0x22];
    assert bs[3..] == [0x7E, 0x22];
    assert Sextets(bs) == SplitGroup(0x22, 0x7E, 0x7E) + SplitGroup(0x7E, 0x22, 0)[..3];
  }

  lemma QuotedTildesChars()
    ensures ToChars([8, 39, 57, 62, 31, 34, 8]) == "In5+fiI"
  {
    var body := ToChars([8, 39, 57, 62, 31, 34, 8]);
    assert body[0] == CharOf(8) == 'I' && body[1] == CharOf(39) == 'n' && body[2] == CharOf(57) == '5';
    assert body[3] == CharOf(62) == '+' && body[4] == CharOf(31) == 'f' && body[5] == CharOf(34) == 'i';
    assert body[6] == CharOf(8) == 'I';
  }

  /** A space between two runs of non-whitespace is dropped. */
  lemma {:induction false} StripOneSpace(a: seq<char>, b: seq<char>)
    requires forall i | 0 <= i < |a| :: !IsAsciiWhitespace(a[i])
    requires forall i | 0 <= i < |b| :: !IsAsciiWhitespace(b[i])
    ensures StripWhitespace(a + [' '] + b) == a + b
  {
    var t := a + [' '] + b;
    if a == [] {
      assert t == [' '] + b && t[1..] == b;
      StripWhitespaceSpec(b);
    } else {
      assert t[0] == a[0] && t[1..] == a[1..] + [' '] + b;
      StripOneSpace(a[1..], b);
      assert a + b == [a[0]] + (a[1..] + b);
    }
  }

  /**
   * A text with one space whose other characters are no whitespace, number 3 modulo 4 and end in
   * '=': once the space is dropped that '=' is not padding, and decoding fails.
   */
  lemma OneSpaceTripleRejected(a: seq<char>, b: seq<char>)
    requires forall i | 0 <= i < |a| :: !IsAsciiWhitespace(a[i])
    requires forall i | 0 <= i < |b| :: !IsAsciiWhitespace(b[i])
    requires (|a| + |b|) % 4 == 3 && |b| > 0 && b[|b| - 1] == '='
    ensures ForgivingDecode(a + [' '] + b) == None
  {
    StripOneSpace(a, b);
    var d := a + b;
    assert forall i | 0 <= i < |d| :: !IsAsciiWhitespace(d[i]) by {
      forall i | 0 <= i < |d| ensures !IsAsciiWhitespace(d[i]) {
        if i < |a| { assert d[i] == a[i]; } else { assert d[i] == b[i - |a|]; }
      }
    }
    PaddedTripleRejected(d);
    StripWhitespaceSpec(d);
  }

  /** "In5 fiI=" is "In5fiI=" once the space is dropped: seven characters ending in '='. */
  lemma SpacedTokenRejected()
    ensures ForgivingDecode("In5 fiI=") == None
  {
    var data := "In5 fiI=";
    SpacedTokenStripped();
    PaddedTripleRejected(data[..3] + data[4..]);
  }

  lemma SpacedTokenStripped()
    ensures var data := "In5 fiI=";
      && StripWhitespace(data) == data[..3] + data[4..]
      && (forall i | 0 <= i < |data[..3] + data[4..]| :: !IsAsciiWhitespace((data[..3] + data[4..])[i]))
  {
    var data := "In5 fiI=";
    var a, b := data[..3], data[4..];
    assert data == a + [' '] + b;
    StripOneSpace(a, b);
  }
}
