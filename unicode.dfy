/** The value types shared by the text codecs. */
module Unicode {

  /** One octet. */
  type Byte = b: int | 0 <= b < 0x100

  /** A UTF-16 code unit: the element of a JavaScript string. */
  type CodeUnit = u: int | 0 <= u < 0x1_0000

  /** A JavaScript string value (a DOMString): any sequence of code units, lone surrogates included. */
  type JsString = seq<CodeUnit>

  /** A Unicode scalar value: a code point that is not a surrogate. */
  type Scalar = c: int | 0 <= c < 0xD800 || 0xE000 <= c < 0x11_0000

  predicate IsHighSurrogate(u: int) { 0xD800 <= u < 0xDC00 }

  predicate IsLowSurrogate(u: int) { 0xDC00 <= u < 0xE000 }

  predicate IsSurrogate(u: int) { 0xD800 <= u < 0xE000 }

  predicate IsAscii(u: int) { 0 <= u < 0x80 }

  /** The code units of an ASCII text written as a Dafny string literal. */
  function Units(s: string): (r: JsString)
    requires forall i | 0 <= i < |s| :: IsAscii(s[i] as int)
    ensures |r| == |s| && forall i | 0 <= i < |s| :: r[i] == s[i] as int
  {
    seq(|s|, i requires 0 <= i < |s| && IsAscii(s[i] as int) => s[i] as int)
  }

  /** The characters of a string value that holds no surrogate code unit. */
  function Text(u: JsString): (r: string)
    requires forall i | 0 <= i < |u| :: !IsSurrogate(u[i])
    ensures |r| == |u| && forall i | 0 <= i < |u| :: r[i] as int == u[i]
  {
    seq(|u|, i requires 0 <= i < |u| && 0 <= u[i] < 0x1_0000 && !IsSurrogate(u[i]) => u[i] as char)
  }
}
