/**
 * JavaScript text as the login form sees it: a string is a sequence of
 * UTF-16 code units, and a regular expression without the `u` flag matches
 * one code unit at a time.
 */
module JsText {

  /** One UTF-16 code unit. */
  newtype CodeUnit = x: int | 0 <= x < 0x1_0000

  /** A JavaScript string value: `length` counts code units. */
  type JsString = seq<CodeUnit>

  const NEWLINE: CodeUnit := 0x0A
  const PERCENT: CodeUnit := 0x25
  const PLUS: CodeUnit := 0x2B
  const HYPHEN: CodeUnit := 0x2D
  const DOT: CodeUnit := 0x2E
  const AT_SIGN: CodeUnit := 0x40
  const UNDERSCORE: CodeUnit := 0x5F

  /** `\d` without the `u` flag: the ASCII digits `0`-`9` only. */
  predicate IsAsciiDigit(c: CodeUnit) { 0x30 <= c <= 0x39 }

  /** The class `[1-9]`. */
  predicate IsNonZeroDigit(c: CodeUnit) { 0x31 <= c <= 0x39 }

  predicate IsAsciiUpper(c: CodeUnit) { 0x41 <= c <= 0x5A }

  predicate IsAsciiLower(c: CodeUnit) { 0x61 <= c <= 0x7A }

  /**
   * The class `[A-Z]` under the `i` flag and without `u`. Case-insensitive
   * matching compares upper-cased code units, but never lets a non-ASCII unit
   * fold onto an ASCII one, so exactly the 52 ASCII letters match.
   */
  predicate IsAsciiLetter(c: CodeUnit) { IsAsciiUpper(c) || IsAsciiLower(c) }

  predicate IsAscii(c: CodeUnit) { c < 0x80 }

  /** Upper-cases ASCII letters and leaves every other code unit alone. */
  function AsciiUpper(c: CodeUnit): (r: CodeUnit)
    ensures IsAsciiLetter(c) ==> IsAsciiUpper(r)
    ensures !IsAsciiLower(c) ==> r == c
    ensures IsAsciiLetter(r) <==> IsAsciiLetter(c)
  {
    if IsAsciiLower(c) then c - 0x20 else c
  }

  function AsciiUpperCase(s: JsString): (r: JsString)
    ensures |r| == |s|
    ensures forall k :: 0 <= k < |s| ==> r[k] == AsciiUpper(s[k])
  {
    seq(|s|, k requires 0 <= k < |s| => AsciiUpper(s[k]))
  }

  lemma ConcatEmpty(w: JsString)
    ensures w + [] == w
  {
  }

  /** Moving the first unit of `s` to the end of `w` leaves the concatenation unchanged. */
  lemma ConcatHead(w: JsString, s: JsString)
    requires s != []
    ensures (w + [s[0]]) + s[1..] == w + s
  {
    assert s == [s[0]] + s[1..];
  }
}
