/**
 * Percent encoding of UTF-16 strings: `encodeStr` with the `noEscape` table of
 * lib/querystring.js, `decodeURIComponent` as the language defines it, and the
 * byte-wise `unescapeBuffer`.
 */
module PercentEncoding {
  import opened CodeUnits
  import opened Results

  type Text = seq<CodeUnit>

  const PERCENT: CodeUnit := 0x25
  const PLUS: CodeUnit := 0x2B
  const SPACE: CodeUnit := 0x20

  // -------------------------------------------------------------------- digits

  function Hex(d: nat): (c: CodeUnit)
    requires d < 16
    ensures IsHex(c) && HexValue(c) == d
  {
    if d < 10 then 0x30 + d else 0x41 + d - 10
  }

  /** An entry of `hexTable`. */
  function Escaped(b: Byte): Text {
    [PERCENT, Hex(b / 16), Hex(b % 16)]
  }

  /** `s` starts with an encoded byte. */
  predicate StartsEncoded(s: Text) {
    |s| >= 3 && s[0] == PERCENT && IsHex(s[1]) && IsHex(s[2])
  }

  function EncodedByte(s: Text): Byte
    requires StartsEncoded(s)
  {
    HexValue(s[1]) * 16 + HexValue(s[2])
  }

  lemma ReadEscaped(b: Byte, rest: Text)
    ensures StartsEncoded(Escaped(b) + rest) && EncodedByte(Escaped(b) + rest) == b
    ensures (Escaped(b) + rest)[3..] == rest
  {
  }

  // -------------------------------------------------------------------- encode

  /** The characters that the `noEscape` table lets through. */
  predicate NoEscape(c: int) {
    || 0x30 <= c <= 0x39 || 0x41 <= c <= 0x5A || 0x61 <= c <= 0x7A
    || c == 0x21 || 0x27 <= c <= 0x2A || c == 0x2D || c == 0x2E || c == 0x5F || c == 0x7E
  }

  /** The characters of a URI that stand for themselves: section 15.1.3 of ECMA-262 (5.1) calls them unescaped. */
  predicate Unreserved(c: int) {
    || 'A' as int <= c <= 'Z' as int || 'a' as int <= c <= 'z' as int || '0' as int <= c <= '9' as int
    || c == '-' as int || c == '_' as int || c == '.' as int || c == '!' as int || c == '~' as int
    || c == '*' as int || c == '\'' as int || c == '(' as int || c == ')' as int
  }

  /** The table lets through just those. */
  lemma TableUnreserved(c: int)
    ensures NoEscape(c) <==> Unreserved(c)
  {
    assert '\'' as int == 0x27 && '(' as int == 0x28 && ')' as int == 0x29 && '*' as int == 0x2A;
  }

  /** The code point that `encodeStr` makes of a surrogate and whatever unit follows it. */
  function Pair(c: CodeUnit, c2: CodeUnit): (p: int)
    requires IsSurrogate(c)
    ensures 0x10000 <= p <= 0x10FFFF
  {
    0x10000 + (c % 0x400) * 0x400 + c2 % 0x400
  }

  /** The escaped UTF-8 bytes of a code point from 0x80 on. */
  function EscapedPoint(p: int): Text
    requires 0x80 <= p <= 0x10FFFF
  {
    if p < 0x800 then Escaped(0xC0 + p / 0x40) + Escaped(0x80 + p % 0x40)
    else if p < 0x10000 then
      Escaped(0xE0 + p / 0x1000) + Escaped(0x80 + p / 0x40 % 0x40) + Escaped(0x80 + p % 0x40)
    else
      Escaped(0xF0 + p / 0x40000) + Escaped(0x80 + p / 0x1000 % 0x40) +
      Escaped(0x80 + p / 0x40 % 0x40) + Escaped(0x80 + p % 0x40)
  }

  /** `encodeStr`; it throws for a surrogate at the end of the string. */
  function Escape(s: Text): Option<Text> {
    if s == [] then Some([])
    else if s[0] < 0x80 then Prepend(if NoEscape(s[0]) then [s[0]] else Escaped(s[0]), Escape(s[1..]))
    else if !IsSurrogate(s[0]) then Prepend(EscapedPoint(s[0]), Escape(s[1..]))
    else if |s| == 1 then None
    else Prepend(EscapedPoint(Pair(s[0], s[1])), Escape(s[2..]))
  }

  function Prepend(a: Text, r: Option<Text>): Option<Text> {
    if r.Some? then Some(a + r.value) else None
  }

  // -------------------------------------------------------------------- decode

  /** A continuation byte of UTF-8. */
  predicate Continues(s: Text) {
    StartsEncoded(s) && EncodedByte(s) / 0x40 == 2
  }

  function Tail6(s: Text): nat
    requires StartsEncoded(s)
  {
    EncodedByte(s) % 0x40
  }

  /** One encoded code point at the head of `s`, with the length of its UTF-8; strict, as `decodeURIComponent` is. */
  function ReadPoint(s: Text): (r: Option<(int, nat)>)
    requires StartsEncoded(s)
    ensures r.Some? ==> 0 <= r.value.0 <= 0x10FFFF && 1 <= r.value.1 <= 4 && 3 * r.value.1 <= |s|
  {
    var b := EncodedByte(s);
    if b < 0x80 then Some((b, 1))
    else if 0xC0 <= b < 0xE0 && Continues(s[3..]) then
      var p := (b - 0xC0) * 0x40 + Tail6(s[3..]);
      if p >= 0x80 then Some((p, 2)) else None
    else if 0xE0 <= b < 0xF0 && Continues(s[3..]) && Continues(s[6..]) then
      var p := (b - 0xE0) * 0x1000 + Tail6(s[3..]) * 0x40 + Tail6(s[6..]);
      if p >= 0x800 && !IsSurrogate(p) then Some((p, 3)) else None
    else if 0xF0 <= b < 0xF8 && Continues(s[3..]) && Continues(s[6..]) && Continues(s[9..]) then
      var p := (b - 0xF0) * 0x40000 + Tail6(s[3..]) * 0x1000 + Tail6(s[6..]) * 0x40 + Tail6(s[9..]);
      if 0x10000 <= p <= 0x10FFFF then Some((p, 4)) else None
    else None
  }

  /** `decodeURIComponent`; `None` when it throws. */
  function DecodeUri(s: Text): Option<Text>
    decreases |s|
  {
    if s == [] then Some([])
    else if s[0] != PERCENT then Prepend([s[0]], DecodeUri(s[1..]))
    else if !StartsEncoded(s) || ReadPoint(s).None? then None
    else
      var (p, len) := ReadPoint(s).value;
      Prepend(Units(p), DecodeUri(s[3 * len..]))
  }

  /** `unescapeBuffer`: encoded bytes are decoded one by one, anything else stands for itself. */
  function UnescapeBytes(s: Text, decodeSpaces: bool): seq<Byte>
    decreases |s|
  {
    if s == [] then []
    else if s[0] == PLUS && decodeSpaces then [32] + UnescapeBytes(s[1..], decodeSpaces)
    else if StartsEncoded(s) then [EncodedByte(s)] + UnescapeBytes(s[3..], decodeSpaces)
    else [s[0] % 256] + UnescapeBytes(s[1..], decodeSpaces)
  }

  // ---------------------------------------------------------------- round trip

  /** What a string becomes by pairing every surrogate with the unit after it. */
  function Paired(s: Text): Text {
    if s == [] then []
    else if !IsSurrogate(s[0]) || |s| == 1 then [s[0]] + Paired(s[1..])
    else Units(Pair(s[0], s[1])) + Paired(s[2..])
  }

  /** Every surrogate belongs to a pair. */
  predicate WellFormed(s: Text) {
    s == [] ||
    (if !IsSurrogate(s[0]) then WellFormed(s[1..]) else |s| > 1 && IsHigh(s[0]) && IsLow(s[1]) && WellFormed(s[2..]))
  }

  /** The bits of a code point, six by six. */
  lemma SixBits(p: int)
    requires 0 <= p <= 0x10FFFF
    ensures p == p / 0x40 * 0x40 + p % 0x40
    ensures p / 0x40 == p / 0x1000 * 0x40 + p / 0x40 % 0x40
    ensures p / 0x1000 == p / 0x40000 * 0x40 + p / 0x1000 % 0x40
  {
  }

  lemma ReadOne(s: Text, rest: Text, p: int)
    requires 0x80 <= p < 0x800 && s == EscapedPoint(p) + rest
    ensures StartsEncoded(s) && ReadPoint(s) == Some((p, 2)) && s[6..] == rest
  {
    hide Escaped, StartsEncoded, EncodedByte;
    var b0, b1 := 0xC0 + p / 0x40, 0x80 + p % 0x40;
    assert s == Escaped(b0) + (Escaped(b1) + rest);
    ReadEscaped(b0, Escaped(b1) + rest);
    ReadEscaped(b1, rest);
    assert s[6..] == s[3..][3..];
  }

  lemma ReadTwo(s: Text, rest: Text, p: int)
    requires 0x800 <= p < 0x10000 && !IsSurrogate(p) && s == EscapedPoint(p) + rest
    ensures StartsEncoded(s) && ReadPoint(s) == Some((p, 3)) && s[9..] == rest
  {
    hide Escaped, ReadPoint, StartsEncoded;
    var b0, b1, b2 := 0xE0 + p / 0x1000, 0x80 + p / 0x40 % 0x40, 0x80 + p % 0x40;
    assert s == Escaped(b0) + (Escaped(b1) + (Escaped(b2) + rest));
    SixBits(p);
    TwoContinues(s, b0, b1, b2, rest);
  }

  lemma TwoContinues(s: Text, b0: Byte, b1: Byte, b2: Byte, rest: Text)
    requires s == Escaped(b0) + (Escaped(b1) + (Escaped(b2) + rest))
    requires 0xE0 <= b0 < 0xF0 && 0x80 <= b1 < 0xC0 && 0x80 <= b2 < 0xC0
    ensures StartsEncoded(s) && s[9..] == rest
    ensures var p := (b0 - 0xE0) * 0x1000 + (b1 - 0x80) * 0x40 + (b2 - 0x80);
            ReadPoint(s) == if p >= 0x800 && !IsSurrogate(p) then Some((p, 3)) else None
  {
    hide Escaped, StartsEncoded, EncodedByte;
    ReadEscaped(b0, Escaped(b1) + (Escaped(b2) + rest));
    ReadEscaped(b1, Escaped(b2) + rest);
    ReadEscaped(b2, rest);
    assert s[6..] == s[3..][3..] && s[9..] == s[6..][3..];
  }

  lemma {:induction false} ReadThree(s: Text, rest: Text, p: int)
    requires 0x10000 <= p <= 0x10FFFF && s == EscapedPoint(p) + rest
    ensures StartsEncoded(s) && ReadPoint(s) == Some((p, 4)) && s[12..] == rest
  {
    hide Escaped, ReadPoint, StartsEncoded;
    var b0, b1, b2, b3 := 0xF0 + p / 0x40000, 0x80 + p / 0x1000 % 0x40, 0x80 + p / 0x40 % 0x40, 0x80 + p % 0x40;
    assert s == Escaped(b0) + (Escaped(b1) + (Escaped(b2) + (Escaped(b3) + rest)));
    SixBits(p);
    ThreeContinues(s, b0, b1, b2, b3, rest);
  }

  lemma ThreeContinues(s: Text, b0: Byte, b1: Byte, b2: Byte, b3: Byte, rest: Text)
    requires s == Escaped(b0) + (Escaped(b1) + (Escaped(b2) + (Escaped(b3) + rest)))
    requires 0xF0 <= b0 < 0xF8 && 0x80 <= b1 < 0xC0 && 0x80 <= b2 < 0xC0 && 0x80 <= b3 < 0xC0
    ensures StartsEncoded(s) && s[12..] == rest
    ensures var p := (b0 - 0xF0) * 0x40000 + (b1 - 0x80) * 0x1000 + (b2 - 0x80) * 0x40 + (b3 - 0x80);
            ReadPoint(s) == if 0x10000 <= p <= 0x10FFFF then Some((p, 4)) else None
  {
    hide Escaped, StartsEncoded, EncodedByte;
    ReadEscaped(b0, Escaped(b1) + (Escaped(b2) + (Escaped(b3) + rest)));
    ReadEscaped(b1, Escaped(b2) + (Escaped(b3) + rest));
    ReadEscaped(b2, Escaped(b3) + rest);
    ReadEscaped(b3, rest);
    assert s[6..] == s[3..][3..] && s[9..] == s[6..][3..] && s[12..] == s[9..][3..];
  }

  lemma {:induction false} DecodePoint(p: int, rest: Text)
    requires 0x80 <= p <= 0x10FFFF && !IsSurrogate(p)
    ensures DecodeUri(EscapedPoint(p) + rest) == Prepend(Units(p), DecodeUri(rest))
  {
    hide ReadPoint, EscapedPoint, Units;
    var s := EscapedPoint(p) + rest;
    if p < 0x800 {
      ReadOne(s, rest, p);
    } else if p < 0x10000 {
      ReadTwo(s, rest, p);
    } else {
      ReadThree(s, rest, p);
    }
  }

  /** Decoding undoes escaping, except that it pairs surrogates. */
  lemma {:induction false} DecodeEscape(s: Text)
    requires Escape(s).Some?
    ensures DecodeUri(Escape(s).value) == Some(Paired(s))
    decreases |s|
  {
    hide EscapedPoint, Units, ReadPoint;
    if s == [] {
    } else if s[0] < 0x80 {
      DecodeEscape(s[1..]);
      var rest := Escape(s[1..]).value;
      if NoEscape(s[0]) {
        assert ([s[0]] + rest)[1..] == rest;
      } else {
        DecodeAscii(s[0], rest);
      }
    } else if !IsSurrogate(s[0]) {
      DecodeEscape(s[1..]);
      DecodePoint(s[0], Escape(s[1..]).value);
      UnitsSmall(s[0]);
    } else {
      DecodeEscape(s[2..]);
      DecodePoint(Pair(s[0], s[1]), Escape(s[2..]).value);
    }
  }

  lemma UnitsSmall(c: CodeUnit)
    ensures Units(c) == [c]
  {
  }

  lemma DecodeAscii(c: CodeUnit, rest: Text)
    requires c < 0x80
    ensures DecodeUri(Escaped(c) + rest) == Prepend([c], DecodeUri(rest))
  {
    ReadEscaped(c, rest);
  }

  /** The low ten bits of both units, as a pair. */
  lemma UnitsPair(c: CodeUnit, c2: CodeUnit)
    requires IsSurrogate(c)
    ensures Units(Pair(c, c2)) == [0xD800 + c % 0x400, 0xDC00 + c2 % 0x400]
    ensures |Units(Pair(c, c2))| == 2 && IsHigh(Units(Pair(c, c2))[0]) && IsLow(Units(Pair(c, c2))[1])
    ensures Units(Pair(c, c2)) == [c, c2] <==> IsHigh(c) && IsLow(c2)
  {
    var p := Pair(c, c2) - 0x10000;
    assert p / 0x400 == c % 0x400 && p % 0x400 == c2 % 0x400;
  }

  /** Pairing changes exactly the strings that are not well-formed; what it makes of them, if they escape at all, is. */
  lemma {:induction false} PairedWellFormed(s: Text)
    ensures Paired(s) == s && Escape(s).Some? <==> WellFormed(s)
    ensures Escape(s).Some? ==> WellFormed(Paired(s))
    ensures |Paired(s)| == |s|
    decreases |s|
  {
    hide EscapedPoint, Units, Pair;
    if s == [] {
    } else if !IsSurrogate(s[0]) {
      PairedWellFormed(s[1..]);
      assert Paired(s)[1..] == Paired(s[1..]);
      assert s == [s[0]] + s[1..];
    } else if |s| > 1 {
      PairedWellFormed(s[2..]);
      UnitsPair(s[0], s[1]);
      var u := Units(Pair(s[0], s[1]));
      assert Paired(s)[2..] == Paired(s[2..]) && Paired(s)[..2] == u;
      assert s == [s[0], s[1]] + s[2..] && s[..2] == [s[0], s[1]];
    }
  }

  // --------------------------------------------------------- nothing to decode

  /** An encoded byte somewhere in `s`. */
  predicate HasEncoded(s: Text) {
    exists k :: 0 <= k <= |s| && StartsEncoded(s[k..])
  }

  predicate AllAscii(s: seq<int>) {
    forall k :: 0 <= k < |s| ==> 0 <= s[k] < 0x80
  }

  lemma HasEncodedTail(s: Text)
    requires s != [] && !HasEncoded(s)
    ensures !HasEncoded(s[1..]) && !StartsEncoded(s)
  {
    assert s[0..] == s;
    forall k | 0 <= k <= |s[1..]| ensures !StartsEncoded(s[1..][k..]) {
      assert s[1..][k..] == s[k + 1..];
    }
  }

  /** Without an encoded byte there is nothing to decode: `decodeURIComponent` returns the text or, for a "%", throws. */
  lemma {:induction false} DecodeNothing(s: Text)
    requires !HasEncoded(s)
    ensures DecodeUri(s) == if PERCENT in s then None else Some(s)
    decreases |s|
  {
    hide HasEncoded, StartsEncoded, ReadPoint, Units;
    if s != [] {
      HasEncodedTail(s);
      DecodeNothing(s[1..]);
      assert s == [s[0]] + s[1..];
    }
  }

  /** The byte-wise decoding then keeps the low byte of every unit. */
  lemma {:induction false} UnescapeNothing(s: Text)
    requires !HasEncoded(s)
    ensures |UnescapeBytes(s, false)| == |s| && forall k :: 0 <= k < |s| ==> UnescapeBytes(s, false)[k] == s[k] % 256
    decreases |s|
  {
    hide HasEncoded, StartsEncoded, EncodedByte;
    if s != [] {
      HasEncodedTail(s);
      UnescapeNothing(s[1..]);
    }
  }

  // --------------------------------------------------------------- UTF-8 as text

  const REPLACEMENT: CodeUnit := 0xFFFD

  /** How many bytes a UTF-8 sequence has that starts with `b`; none when `b` starts no sequence. */
  function SequenceLength(b: Byte): nat {
    if 0xC2 <= b < 0xE0 then 2 else if 0xE0 <= b < 0xF0 then 3 else if 0xF0 <= b <= 0xF4 then 4 else 0
  }

  predicate IsContinuation(b: Byte) { 0x80 <= b < 0xC0 }

  /** The second bytes that go with a first one: no overlong forms, no surrogates, nothing beyond U+10FFFF. */
  predicate GoesWith(b: Byte, second: Byte) {
    && IsContinuation(second)
    && (b == 0xE0 ==> second >= 0xA0) && (b == 0xED ==> second < 0xA0)
    && (b == 0xF0 ==> second >= 0x90) && (b == 0xF4 ==> second < 0x90)
  }

  /** How many bytes at the head belong together, and whether they are a whole sequence. */
  function HeadPart(s: seq<Byte>): (r: (nat, bool))
    requires s != [] && s[0] >= 0x80
    ensures 1 <= r.0 <= 4 && r.0 <= |s| && (r.1 ==> r.0 == SequenceLength(s[0])) && (r.0 > 1 ==> SequenceLength(s[0]) > 0)
  {
    var n := SequenceLength(s[0]);
    if n == 0 || |s| < 2 || !GoesWith(s[0], s[1]) then (1, false)
    else if n == 2 then (2, true)
    else if |s| < 3 || !IsContinuation(s[2]) then (2, false)
    else if n == 3 then (3, true)
    else if |s| < 4 || !IsContinuation(s[3]) then (3, false)
    else (4, true)
  }

  /** The bits of the first byte after the mark of its length, and those of three continuation bytes. */
  function Bits(first: int, a: int, b: int, c: int): int {
    first * 0x40000 + (a - 0x80) * 0x1000 + (b - 0x80) * 0x40 + (c - 0x80)
  }

  function PointOf(s: seq<Byte>): (p: int)
    requires s != [] && s[0] >= 0x80 && HeadPart(s).1
    ensures 0 <= p <= 0x10FFFF && (HeadPart(s).0 < 4 ==> p < 0x10000)
  {
    var n, first: int := HeadPart(s).0, s[0];
    if n == 2 then Bits(0, 0x80, first - 0x40, s[1])
    else if n == 3 then Bits(0, first - 0x60, s[1], s[2])
    else Bits(first - 0xF0, s[1], s[2], s[3])
  }

  /** What those bytes are read as. */
  function HeadText(s: seq<Byte>): (r: Text)
    requires s != [] && s[0] >= 0x80
    ensures |r| <= HeadPart(s).0
  {
    if HeadPart(s).1 then Units(PointOf(s)) else [REPLACEMENT]
  }

  /** The conversion of a buffer to a string: what belongs to no sequence is replaced, part by part. */
  function Utf8Text(s: seq<Byte>): (r: Text)
    ensures |r| <= |s|
  {
    if s == [] then []
    else if s[0] < 0x80 then [s[0]] + Utf8Text(s[1..])
    else
      HeadText(s) + Utf8Text(s[HeadPart(s).0..])
  }

  /** ASCII characters and replacement characters only. */
  predicate AsciiOrReplaced(s: Text) {
    forall k :: 0 <= k < |s| ==> s[k] < 0x80 || s[k] == REPLACEMENT
  }

  lemma AsciiOrReplacedFirst(t: Text)
    requires t != []
    ensures AsciiOrReplaced(t) <==> (t[0] < 0x80 || t[0] == REPLACEMENT) && AsciiOrReplaced(t[1..])
  {
    assert forall k :: 0 <= k < |t[1..]| ==> t[1..][k] == t[k + 1];
    assert forall k :: 0 < k < |t| ==> t[k] == t[1..][k - 1];
  }

  /** Characters that byte-wise decoding can change count more. */
  function Weight(s: Text): nat {
    if s == [] then 0 else (if s[0] < 0x80 || s[0] == REPLACEMENT then 2 else 3) + Weight(s[1..])
  }

  lemma {:induction false} WeightSplit(a: Text, b: Text)
    ensures Weight(a + b) == Weight(a) + Weight(b)
    ensures 2 * |a| <= Weight(a) <= 3 * |a|
  {
    if a == [] {
      assert a + b == b;
    } else {
      assert (a + b)[1..] == a[1..] + b;
      WeightSplit(a[1..], b);
    }
  }

  /**
   * The low bytes of a text, read as UTF-8, are that same text exactly when it
   * is of that kind; any other text becomes lighter.
   */
  lemma {:induction false} LowBytes(t: Text, b: seq<Byte>)
    requires |b| == |t| && forall k :: 0 <= k < |t| ==> b[k] == t[k] % 256
    ensures Utf8Text(b) == t <==> AsciiOrReplaced(t)
    ensures Utf8Text(b) == t || Weight(Utf8Text(b)) < Weight(t)
    decreases |t|
  {
    hide AsciiOrReplaced, HeadPart, HeadText;
    if t == [] {
      assert b == [] && t == [];
      NothingReplaced();
    } else if b[0] < 0x80 || t[0] == REPLACEMENT {
      LowBytes(t[1..], b[1..]);
      AsciiOrReplacedFirst(t);
      var c: CodeUnit := if b[0] < 0x80 then b[0] else REPLACEMENT;
      Replaced(b);
      FirstAndRest(c, Utf8Text(b[1..]), t);
    } else {
      var n := HeadPart(b).0;
      LowBytes(t[n..], b[n..]);
      AsciiOrReplacedFirst(t);
      HeadLight(t[..n], b, t[0]);
      LighterBy(t, b, n);
    }
  }

  lemma NothingReplaced()
    ensures AsciiOrReplaced([])
  {
  }

  lemma Replaced(b: seq<Byte>)
    requires b != []
    ensures b[0] == REPLACEMENT % 256 ==> Utf8Text(b) == [REPLACEMENT] + Utf8Text(b[1..])
  {
  }

  lemma LighterBy(t: Text, b: seq<Byte>, n: nat)
    requires b != [] && b[0] >= 0x80 && n == HeadPart(b).0 && n <= |t|
    requires Weight(HeadText(b)) < Weight(t[..n]) && Weight(Utf8Text(b[n..])) <= Weight(t[n..])
    ensures Weight(Utf8Text(b)) < Weight(t)
  {
    hide HeadPart, HeadText, Weight;
    WeightSplit(HeadText(b), Utf8Text(b[n..]));
    WeightSplit(t[..n], t[n..]);
    assert t[..n] + t[n..] == t;
  }

  /** One part is lighter than the characters that its bytes are of, other than a replacement character. */
  lemma HeadLight(t: Text, b: seq<Byte>, c: CodeUnit)
    requires b != [] && b[0] >= 0x80 && b[0] == c % 256 && |t| == HeadPart(b).0 && t[0] == c != REPLACEMENT
    ensures Weight(HeadText(b)) < Weight(t)
  {
    hide PointOf, Weight;
    WeightSplit(t, []);
    WeightSplit(HeadText(b), []);
    WeightOne(c);
    WeightOne(REPLACEMENT);
    assert |t| == 1 ==> t == [c];
  }

  lemma WeightOne(c: CodeUnit)
    ensures Weight([c]) == if c < 0x80 || c == REPLACEMENT then 2 else 3
  {
    assert Weight([c]) == Weight([c][1..]) + if c < 0x80 || c == REPLACEMENT then 2 else 3;
  }

  lemma FirstAndRest(c: CodeUnit, rest: Text, t: Text)
    requires t != []
    ensures [c] + rest == t <==> c == t[0] && rest == t[1..]
  {
    assert t == [t[0]] + t[1..];
    assert ([c] + rest)[0] == c && ([c] + rest)[1..] == rest;
  }
}
