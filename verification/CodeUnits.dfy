/** What several modules share of characters: UTF-16 code units, code points, bytes, hexadecimal digits. */
module CodeUnits {
  const MAX_CODE_POINT: nat := 0x10FFFF

  type CodeUnit = u: int | 0 <= u < 0x1_0000
  type CodePoint = c: nat | c <= MAX_CODE_POINT
  type Byte = b: int | 0 <= b < 256

  predicate IsSurrogate(c: int) { 0xD800 <= c < 0xE000 }

  predicate IsHigh(c: int) { 0xD800 <= c < 0xDC00 }

  predicate IsLow(c: int) { 0xDC00 <= c < 0xE000 }

  /** UTF-16 of a code point. */
  function Units(p: CodePoint): seq<CodeUnit> {
    if p < 0x10000 then [p] else [HighOf(p - 0x10000), LowOf(p - 0x10000)]
  }

  function HighOf(offset: int): (u: CodeUnit)
    requires 0 <= offset < 0x100000
    ensures IsHigh(u)
  {
    assert offset / 0x400 < 0x400;
    0xD800 + offset / 0x400
  }

  function LowOf(offset: int): (u: CodeUnit)
    ensures IsLow(u)
  {
    0xDC00 + offset % 0x400
  }

  predicate IsHex(c: int) {
    0x30 <= c <= 0x39 || 0x41 <= c <= 0x46 || 0x61 <= c <= 0x66
  }

  function HexValue(c: int): (d: nat)
    requires IsHex(c)
    ensures d < 16
  {
    if c <= 0x39 then c - 0x30 else if c <= 0x46 then c - 0x41 + 10 else c - 0x61 + 10
  }

  /** The bytes, or code units, of an ASCII text; there is no other character in the texts it is used for. */
  function Ascii(s: string): (t: seq<Byte>)
    ensures |t| == |s| && forall k :: 0 <= k < |s| && s[k] as int < 128 ==> t[k] == s[k] as int
  {
    seq(|s|, k requires 0 <= k < |s| => if s[k] as int < 128 then s[k] as int else 0)
  }

  lemma AsciiJoined(a: string, b: string)
    ensures Ascii(a + b) == Ascii(a) + Ascii(b)
  {
  }
}
