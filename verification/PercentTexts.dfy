/** What escaping writes, said without its table: every string has one escaped text, and decoding reads it back. */
module PercentTexts {
  import opened CodeUnits
  import opened Results
  import opened PercentEncoding

  /** A hexadecimal digit as escaping writes it. */
  predicate UpperHex(c: int) {
    '0' as int <= c <= '9' as int || 'A' as int <= c <= 'F' as int
  }

  /** An encoded byte in upper case that is none of the characters that stand for themselves. */
  predicate EncodesByte(t: Text) {
    StartsEncoded(t) && UpperHex(t[1]) && UpperHex(t[2]) && !Unreserved(EncodedByte(t))
  }

  /** Unreserved characters, and encoded bytes for everything else. */
  predicate PercentEncoded(t: Text)
    decreases |t|
  {
    || t == []
    || (Unreserved(t[0]) && PercentEncoded(t[1..]))
    || (EncodesByte(t) && PercentEncoded(t[3..]))
  }

  lemma EscapedByte(b: Byte, rest: Text)
    requires !Unreserved(b)
    ensures EncodesByte(Escaped(b) + rest) && (Escaped(b) + rest)[3..] == rest
  {
    ReadEscaped(b, rest);
  }

  lemma AddByte(b: Byte, rest: Text)
    requires !Unreserved(b) && PercentEncoded(rest)
    ensures PercentEncoded(Escaped(b) + rest)
  {
    hide EncodesByte, Escaped;
    EscapedByte(b, rest);
  }

  lemma AddPoint(p: int, rest: Text)
    requires 0x80 <= p <= 0x10FFFF && PercentEncoded(rest)
    ensures PercentEncoded(EscapedPoint(p) + rest)
  {
    hide PercentEncoded, Escaped;
    var last := 0x80 + p % 0x40;
    AddByte(last, rest);
    if p < 0x800 {
      AddByte(0xC0 + p / 0x40, Escaped(last) + rest);
      assert EscapedPoint(p) + rest == Escaped(0xC0 + p / 0x40) + (Escaped(last) + rest);
    } else {
      var third := 0x80 + p / 0x40 % 0x40;
      AddByte(third, Escaped(last) + rest);
      if p < 0x10000 {
        AddByte(0xE0 + p / 0x1000, Escaped(third) + (Escaped(last) + rest));
        assert EscapedPoint(p) + rest == Escaped(0xE0 + p / 0x1000) + (Escaped(third) + (Escaped(last) + rest));
      } else {
        var first, second := 0xF0 + p / 0x40000, 0x80 + p / 0x1000 % 0x40;
        AddByte(second, Escaped(third) + (Escaped(last) + rest));
        AddByte(first, Escaped(second) + (Escaped(third) + (Escaped(last) + rest)));
        assert EscapedPoint(p) + rest
            == Escaped(first) + (Escaped(second) + (Escaped(third) + (Escaped(last) + rest)));
      }
    }
  }

  /** Escaping writes such a text. */
  lemma {:induction false} EscapeEncodes(s: Text)
    requires Escape(s).Some?
    ensures PercentEncoded(Escape(s).value)
    decreases |s|
  {
    hide EncodesByte, Escaped, EscapedPoint, Unreserved, NoEscape;
    if s == [] {
    } else if s[0] < 0x80 {
      EscapeEncodes(s[1..]);
      TableUnreserved(s[0]);
      var rest := Escape(s[1..]).value;
      if Unreserved(s[0]) {
        assert ([s[0]] + rest)[1..] == rest;
      } else {
        AddByte(s[0], rest);
      }
    } else if !IsSurrogate(s[0]) {
      EscapeEncodes(s[1..]);
      AddPoint(s[0], Escape(s[1..]).value);
    } else {
      EscapeEncodes(s[2..]);
      AddPoint(Pair(s[0], s[1]), Escape(s[2..]).value);
    }
  }

  // ------------------------------------------------------------- reading back

  lemma ByteText(t: Text)
    requires EncodesByte(t)
    ensures t == Escaped(EncodedByte(t)) + t[3..]
  {
    var b := EncodedByte(t);
    UpperHexDigit(t[1]);
    UpperHexDigit(t[2]);
    assert b / 16 == HexValue(t[1]) && b % 16 == HexValue(t[2]);
    assert t == [t[0], t[1], t[2]] + t[3..];
  }

  lemma UpperHexDigit(c: CodeUnit)
    requires UpperHex(c)
    ensures IsHex(c) && Hex(HexValue(c)) == c
  {
  }

  /** The text of one code point, as escaping writes it. */
  function PointText(p: int): Text
    requires 0 <= p <= 0x10FFFF
  {
    if p < 0x80 then Escaped(p) else EscapedPoint(p)
  }

  /** Nothing else is read as that code point: no longer form, no surrogate. */
  lemma {:induction false} ReadPointText(t: Text)
    requires PercentEncoded(t) && StartsEncoded(t) && ReadPoint(t).Some?
    ensures var (p, len) := ReadPoint(t).value;
            && !IsSurrogate(p) && (p < 0x80 ==> !Unreserved(p))
            && t == PointText(p) + t[3 * len..] && PercentEncoded(t[3 * len..])
  {
    hide Escaped, EncodesByte, Unreserved, EscapedPoint;
    TakeByte(t);
    var (p, len) := ReadPoint(t).value;
    if len > 1 { ContinuesByte(t[3..]); }
    if len > 2 { assert t[6..] == t[3..][3..]; ContinuesByte(t[6..]); }
    if len > 3 { assert t[9..] == t[6..][3..]; ContinuesByte(t[9..]); assert t[12..] == t[9..][3..]; }
    if p >= 0x80 { PointBytes(t, p, len); }
  }

  lemma TakeByte(t: Text)
    requires PercentEncoded(t) && StartsEncoded(t)
    ensures EncodesByte(t) && PercentEncoded(t[3..]) && t == Escaped(EncodedByte(t)) + t[3..]
    ensures !Unreserved(EncodedByte(t))
  {
    hide Escaped;
    ByteText(t);
  }

  lemma ContinuesByte(t: Text)
    requires PercentEncoded(t) && Continues(t)
    ensures PercentEncoded(t[3..]) && t == Escaped(0x80 + Tail6(t)) + t[3..]
  {
    hide Escaped;
    TakeByte(t);
  }

  /** The bits of a code point put together from six bits each. */
  lemma BitsBack(top: nat, x: nat, y: nat, z: nat)
    requires x < 0x40 && y < 0x40 && z < 0x40
    ensures var p := top * 0x40000 + x * 0x1000 + y * 0x40 + z;
            p / 0x40000 == top && p / 0x1000 == top * 0x40 + x && p / 0x1000 % 0x40 == x
            && p / 0x40 % 0x40 == y && p % 0x40 == z
  {
  }

  lemma PointBytes(t: Text, p: int, len: nat)
    requires StartsEncoded(t) && ReadPoint(t) == Some((p, len)) && p >= 0x80
    requires t == Escaped(EncodedByte(t)) + t[3..] && t[3..] == Escaped(0x80 + Tail6(t[3..])) + t[6..]
    requires len > 2 ==> t[6..] == Escaped(0x80 + Tail6(t[6..])) + t[9..]
    requires len > 3 ==> t[9..] == Escaped(0x80 + Tail6(t[9..])) + t[12..]
    ensures t == EscapedPoint(p) + t[3 * len..]
  {
    hide Escaped, StartsEncoded, EncodedByte, EscapedPoint;
    var b := EncodedByte(t);
    if len == 2 {
      var z := Tail6(t[3..]);
      BitsBack(0, 0, b - 0xC0, z);
      assert EscapedPoint(p) == Escaped(b) + Escaped(0x80 + z) by { TwoBytes(p, b, z); }
    } else if len == 3 {
      var y, z := Tail6(t[3..]), Tail6(t[6..]);
      BitsBack(0, b - 0xE0, y, z);
      ThreeBytes(p, b, y, z);
    } else {
      var x, y, z := Tail6(t[3..]), Tail6(t[6..]), Tail6(t[9..]);
      BitsBack(b - 0xF0, x, y, z);
      FourBytes(p, b, x, y, z);
    }
  }

  lemma TwoBytes(p: int, b: Byte, z: nat)
    requires 0x80 <= p < 0x800 && b == 0xC0 + p / 0x40 && z == p % 0x40
    ensures EscapedPoint(p) == Escaped(b) + Escaped(0x80 + z)
  {
    hide Escaped;
  }

  lemma ThreeBytes(p: int, b: Byte, y: nat, z: nat)
    requires 0x800 <= p < 0x10000 && b == 0xE0 + p / 0x1000 && y == p / 0x40 % 0x40 && z == p % 0x40
    ensures EscapedPoint(p) == Escaped(b) + Escaped(0x80 + y) + Escaped(0x80 + z)
  {
    hide Escaped;
  }

  lemma FourBytes(p: int, b: Byte, x: nat, y: nat, z: nat)
    requires 0x10000 <= p <= 0x10FFFF && b == 0xF0 + p / 0x40000
    requires x == p / 0x1000 % 0x40 && y == p / 0x40 % 0x40 && z == p % 0x40
    ensures EscapedPoint(p) == Escaped(b) + Escaped(0x80 + x) + Escaped(0x80 + y) + Escaped(0x80 + z)
  {
    hide Escaped;
  }

  /** One code point at the head of a string is escaped as its text. */
  lemma EscapeHead(p: CodePoint, rest: Text)
    requires !IsSurrogate(p) && (p < 0x80 ==> !Unreserved(p))
    ensures Escape(Units(p) + rest) == Prepend(PointText(p), Escape(rest))
    ensures WellFormed(Units(p) + rest) <==> WellFormed(rest)
  {
    hide Escaped, EscapedPoint, Unreserved, NoEscape;
    var s := Units(p) + rest;
    if p < 0x10000 {
      TableUnreserved(p);
      assert s[1..] == rest;
    } else {
      assert s[2..] == rest;
      assert Pair(s[0], s[1]) == p;
    }
  }

  /**
   * Escaping a well-formed string gives the one text of that kind that decodes
   * to it; no text of that kind decodes to a string that is not well-formed.
   */
  lemma {:induction false} EscapeUnique(s: Text, t: Text)
    ensures Escape(s) == Some(t) && WellFormed(s) <==> PercentEncoded(t) && DecodeUri(t) == Some(s)
  {
    if Escape(s) == Some(t) && WellFormed(s) {
      EscapeEncodes(s);
      DecodeEscape(s);
      PairedWellFormed(s);
    } else if PercentEncoded(t) && DecodeUri(t) == Some(s) {
      DecodedEscapes(s, t);
    }
  }

  lemma {:induction false} DecodedEscapes(s: Text, t: Text)
    requires PercentEncoded(t) && DecodeUri(t) == Some(s)
    ensures Escape(s) == Some(t) && WellFormed(s)
    decreases |t|
  {
    hide ReadPoint, Escaped, EscapedPoint, Units, StartsEncoded, NoEscape, PointText, Unreserved, EncodesByte;
    if t == [] {
    } else if t[0] != PERCENT {
      FirstPlain(t);
      var rest := DecodeUri(t[1..]).value;
      DecodedEscapes(rest, t[1..]);
      TableUnreserved(t[0]);
      assert s[1..] == rest && t == [t[0]] + t[1..];
    } else {
      var (p, len) := ReadPoint(t).value;
      ReadPointText(t);
      var rest := DecodeUri(t[3 * len..]).value;
      DecodedEscapes(rest, t[3 * len..]);
      EscapeHead(p, rest);
    }
  }

  lemma FirstPlain(t: Text)
    requires t != [] && PercentEncoded(t) && t[0] != PERCENT
    ensures Unreserved(t[0]) && t[0] < 0x80 && PercentEncoded(t[1..])
  {
    assert '~' as int == 0x7E && 'z' as int == 0x7A;
  }

  /** Escaping leaves just the strings of unreserved characters as they are. */
  lemma {:induction false} EscapeSame(s: Text)
    ensures Escape(s) == Some(s) <==> forall k :: 0 <= k < |s| ==> Unreserved(s[k])
    ensures Escape(s).Some? ==> |Escape(s).value| >= |s|
    decreases |s|
  {
    hide Escaped, EscapedPoint, Unreserved, NoEscape;
    if s != [] {
      TableUnreserved(s[0]);
      PlainIsAscii(s[0]);
      EscapeSame(s[1..]);
      assert s == [s[0]] + s[1..];
      if s[0] < 0x80 && Unreserved(s[0]) {
        if Escape(s) == Some(s) {
          assert Escape(s[1..]).value == s[1..];
        }
        assert forall k :: 0 < k < |s| ==> s[k] == s[1..][k - 1];
      } else if s[0] < 0x80 || !IsSurrogate(s[0]) {
        LongText(s[0]);
      } else if |s| > 1 {
        EscapeSame(s[2..]);
        LongText(Pair(s[0], s[1]));
      }
    }
  }

  lemma PlainIsAscii(c: int)
    ensures Unreserved(c) ==> c < 0x80
  {
    assert '~' as int == 0x7E && 'z' as int == 0x7A;
  }

  lemma LongText(p: int)
    requires 0 <= p <= 0x10FFFF
    ensures |PointText(p)| >= 3
  {
  }

  // ------------------------------------------------------------ the two decoders

  /** The bytes at the head of a text that are read as one code point. */
  function PointBytesOf(t: Text, len: nat): seq<Byte>
    requires 3 * len <= |t| && (forall k :: 0 <= k < len ==> StartsEncoded(t[3 * k..]))
  {
    seq(len, k requires 0 <= k < len && StartsEncoded(t[3 * k..]) => EncodedByte(t[3 * k..]))
  }

  lemma TakeOne(t: Text)
    requires StartsEncoded(t)
    ensures UnescapeBytes(t, false) == [EncodedByte(t)] + UnescapeBytes(t[3..], false)
  {
  }

  lemma {:induction false} TakeBytes(t: Text, len: nat)
    requires 1 <= len && 3 * len <= |t| && (forall k :: 0 <= k < len ==> StartsEncoded(t[3 * k..]))
    ensures UnescapeBytes(t, false) == PointBytesOf(t, len) + UnescapeBytes(t[3 * len..], false)
    decreases len
  {
    hide EncodedByte, StartsEncoded, UnescapeBytes;
    var u := t[3..];
    assert t[3 * 0..] == t;
    TakeOne(t);
    if len > 1 {
      assert forall k :: 0 <= k < len - 1 ==> u[3 * k..] == t[3 * (k + 1)..];
      TakeBytes(u, len - 1);
      assert u[3 * (len - 1)..] == t[3 * len..];
      assert PointBytesOf(t, len) == [EncodedByte(t)] + PointBytesOf(u, len - 1);
    } else {
      assert PointBytesOf(t, len) == [EncodedByte(t)];
    }
  }

  lemma {:induction false} BytesContinue(t: Text, len: nat)
    requires StartsEncoded(t) && ReadPoint(t).Some? && ReadPoint(t).value.1 == len
    ensures forall k :: 0 <= k < len ==> StartsEncoded(t[3 * k..])
    ensures forall k :: 1 <= k < len ==> Continues(t[3 * k..])
  {
    assert t[3 * 0..] == t;
  }

  /** Those bytes are one sequence of UTF-8 for it. */
  lemma HeadOfPoint(t: Text, rest: seq<Byte>)
    requires StartsEncoded(t) && ReadPoint(t).Some? && ReadPoint(t).value.0 >= 0x80
    requires var len := ReadPoint(t).value.1; forall k :: 0 <= k < len ==> StartsEncoded(t[3 * k..])
    ensures var (p, len) := ReadPoint(t).value; var s := PointBytesOf(t, len) + rest;
            s[0] >= 0x80 && HeadPart(s) == (len, true) && PointOf(s) == p
  {
    var (p, len) := ReadPoint(t).value;
    var s := PointBytesOf(t, len) + rest;
    assert t[3 * 0..] == t && s[0] == EncodedByte(t);
    assert forall k :: 0 <= k < len ==> s[k] == EncodedByte(t[3 * k..]);
  }

  /**
   * Where `decodeURIComponent` returns, the byte-wise decoder read as UTF-8 gives
   * the same text, as long as what is not encoded is ASCII.
   */
  lemma {:induction false} DecodersAgree(t: Text)
    requires DecodeUri(t).Some? && AllAscii(t)
    ensures Utf8Text(UnescapeBytes(t, false)) == DecodeUri(t).value
    decreases |t|
  {
    hide ReadPoint, EncodedByte, StartsEncoded, Utf8Text, UnescapeBytes, Units;
    if t == [] {
      NothingRead();
    } else if t[0] != PERCENT {
      DecodersAgree(t[1..]);
      PlainFirst(t);
    } else {
      var (p, len) := ReadPoint(t).value;
      DecodersAgree(t[3 * len..]);
      BytesContinue(t, len);
      TakeBytes(t, len);
      ReadAsPoint(t, UnescapeBytes(t[3 * len..], false));
    }
  }

  lemma NothingRead()
    ensures Utf8Text([]) == [] && Utf8Text(UnescapeBytes([], false)) == []
  {
  }

  lemma PlainFirst(t: Text)
    requires t != [] && t[0] != PERCENT && t[0] < 0x80
    ensures Utf8Text(UnescapeBytes(t, false)) == [t[0]] + Utf8Text(UnescapeBytes(t[1..], false))
  {
    hide Utf8Text, EncodedByte, IsHex;
    assert UnescapeBytes(t, false) == [t[0]] + UnescapeBytes(t[1..], false);
    AsciiFirst(t[0], UnescapeBytes(t[1..], false));
  }

  lemma AsciiFirst(b: Byte, rest: seq<Byte>)
    requires b < 0x80
    ensures Utf8Text([b] + rest) == [b] + Utf8Text(rest)
  {
    hide HeadPart, HeadText;
    assert ([b] + rest)[1..] == rest;
  }

  lemma ReadAsPoint(t: Text, rest: seq<Byte>)
    requires StartsEncoded(t) && ReadPoint(t).Some?
    requires var len := ReadPoint(t).value.1; forall k :: 0 <= k < len ==> StartsEncoded(t[3 * k..])
    ensures var (p, len) := ReadPoint(t).value;
            Utf8Text(PointBytesOf(t, len) + rest) == Units(p) + Utf8Text(rest)
  {
    hide HeadPart, PointOf;
    var (p, len) := ReadPoint(t).value;
    var s := PointBytesOf(t, len) + rest;
    assert s[len..] == rest;
    if p >= 0x80 {
      HeadOfPoint(t, rest);
    } else {
      assert t[3 * 0..] == t && s[0] == p;
    }
  }

  /** A byte escaped in either case reads as its digits in the table of sixteen. */
  lemma HexTable(d: nat)
    requires d < 16
    ensures IsHex("0123456789abcdef"[d] as int) && HexValue("0123456789abcdef"[d] as int) == d
    ensures IsHex("0123456789ABCDEF"[d] as int) && HexValue("0123456789ABCDEF"[d] as int) == d
    ensures Hex(d) == "0123456789ABCDEF"[d] as int
  {
    var i := [0, 1, 2, 3, 4, 5, 6, 7, 8, 9, 10, 11, 12, 13, 14, 15];
    assert i[d] == d;
  }

  // --------------------------------------------------------- bytes that are no UTF-8

  const BROKEN: seq<Byte> := [0x61, 0xF1, 0x80, 0x80, 0xE1, 0x80, 0xC2, 0x62, 0x80, 0x63, 0x80, 0xBF, 0x64]

  /** An ASCII character in front of `s`, which reads as `t`. */
  lemma Plain(b: Byte, s: seq<Byte>, t: Text) returns (s': seq<Byte>, t': Text)
    requires b < 0x80 && Utf8Text(s) == t
    ensures s' == [b] + s && t' == [b] + t && Utf8Text(s') == t'
  {
    hide Utf8Text;
    AsciiFirst(b, s);
    s', t' := [b] + s, [b] + t;
  }

  /** A part that is no whole sequence in front of it. */
  lemma Broken(part: seq<Byte>, s: seq<Byte>, t: Text) returns (s': seq<Byte>, t': Text)
    requires part != [] && part[0] >= 0x80 && HeadPart(part + s) == (|part|, false) && Utf8Text(s) == t
    ensures s' == part + s && t' == [REPLACEMENT] + t && Utf8Text(s') == t'
  {
    hide HeadPart;
    s', t' := part + s, [REPLACEMENT] + t;
    assert s'[|part|..] == s;
  }

  /** The example of the Unicode Standard, table 3-8 in section 3.9: one replacement for each longest part of a sequence. */
  lemma MaximalParts()
    ensures Utf8Text(BROKEN) == [0x61, REPLACEMENT, REPLACEMENT, REPLACEMENT, 0x62, REPLACEMENT, 0x63,
                                 REPLACEMENT, REPLACEMENT, 0x64]
  {
    hide Utf8Text;
    NothingRead();
    var s, t := Plain(0x64, [], []);
    s, t := Broken([0xBF], s, t);
    s, t := Broken([0x80], s, t);
    s, t := Plain(0x63, s, t);
    s, t := Broken([0x80], s, t);
    s, t := Plain(0x62, s, t);
    s, t := Broken([0xC2], s, t);
    s, t := Broken([0xE1, 0x80], s, t);
    s, t := Broken([0xF1, 0x80, 0x80], s, t);
    s, t := Plain(0x61, s, t);
    assert s == BROKEN;
  }
}
