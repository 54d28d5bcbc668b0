/** What the encoder writes: the table of digits, and texts that RFC 3492 fixes in its section 7.1. */
module PunycodeSamples {
  import opened CodeUnits
  import opened Results
  import opened PunycodeVarInt
  import opened PunycodeSteps
  import opened PunycodeTheorems
  import opened Punycode

  /** Section 5: "a" to "z" are 0 to 25, in both cases, and "0" to "9" are 26 to 35; the encoder writes small letters. */
  lemma DigitTable(d: nat)
    requires d < 36
    ensures DigitToBasic(d) == "abcdefghijklmnopqrstuvwxyz0123456789"[d] as int
    ensures BasicToDigit("abcdefghijklmnopqrstuvwxyz0123456789"[d] as int) == d
    ensures BasicToDigit("ABCDEFGHIJKLMNOPQRSTUVWXYZ0123456789"[d] as int) == d
  {
    LetterAt(d);
  }

  lemma LetterAt(d: nat)
    requires d < 36
    ensures "abcdefghijklmnopqrstuvwxyz0123456789"[d] as int == if d < 26 then 'a' as int + d else '0' as int + d - 26
    ensures "ABCDEFGHIJKLMNOPQRSTUVWXYZ0123456789"[d] as int == if d < 26 then 'A' as int + d else '0' as int + d - 26
  {
  }

  /** The largest sum that the decoder reads, and the next one, which overflows. */
  lemma LargestSum(rest: seq<CodeUnit>)
    ensures ReadInt(Digits(2147483647, BASE, 72) + rest, 0, 1, BASE, 72) == Ok((2147483647, rest))
    ensures ReadInt(Digits(2147483648, BASE, 72) + rest, 0, 1, BASE, 72) == Err(Overflow)
  {
    hide ReadInt, Digits;
    ReadDigits(2147483647, rest, 0, 1, BASE, 72);
    ReadDigits(2147483648, rest, 0, 1, BASE, 72);
  }

  /** Digits that run out, and something that is no digit. */
  lemma InvalidInputs()
    ensures DecodePoints(Ascii("t")) == Err(InvalidInput) && DecodePoints(Ascii("!")) == Err(InvalidInput)
  {
    NotFinished(Ascii("t"));
    NotFinished(Ascii("!"));
  }

  lemma NotFinished(s: seq<CodeUnit>)
    requires |s| == 1 && s[0] < 0x80 && s[0] != DELIMITER
    requires BasicToDigit(s[0]) >= BASE || BasicToDigit(s[0]) >= 1
    ensures DecodePoints(s) == Err(InvalidInput)
  {
    assert s[..0] == [] && s[0..] == s && s[1..] == [];
    var i := AddDigit(0, BasicToDigit(s[0]), 1);
    assert ReadInt([], i, NextWeight(1, BASE, 72), BASE + BASE, 72) == Err(InvalidInput);
  }

  // ---------------------------------------------------------- one digit, one step

  lemma More(q: nat, k: nat, bias: nat, digit: nat, rest: nat)
    requires q >= Threshold(k, bias)
    requires digit == Threshold(k, bias) + (q - Threshold(k, bias)) % (BASE - Threshold(k, bias))
    requires rest == (q - Threshold(k, bias)) / (BASE - Threshold(k, bias))
    ensures Digits(q, k, bias) == [if digit < 26 then 0x61 + digit else 0x30 + digit - 26] + Digits(rest, k + BASE, bias)
  {
  }

  lemma Last(q: nat, k: nat, bias: nat)
    requires q < Threshold(k, bias)
    ensures Digits(q, k, bias) == [0x61 + q]
  {
  }

  /** One insertion of the decoder, told by the digits it reads. */
  lemma Inserted(d: Decoder, q: nat, s: string, digits: string, rest: string, n: nat, p: nat, bias: nat)
    returns (d': Decoder)
    requires s == digits + rest
    requires DecoderOk(d) && Digits(q, BASE, d.bias) == Ascii(digits)
    requires q + d.i <= MAX_INT && d.n <= n <= MAX_INT
    requires p <= |d.out| && q + d.i == (n - d.n) * (|d.out| + 1) + p
    requires bias == Adapt(q, |d.out| + 1, d.i == 0)
    ensures d' == Decoder(Insert(d.out, p, n), n, p + 1, bias) && DecoderOk(d')
    ensures Decoding(Ascii(s), d) == Decoding(Ascii(rest), d')
  {
    hide Decoding, Adapt, Digits, DecoderOk, InsertAt, Insert, Ascii;
    Placed(d, q + d.i, n, p);
    d' := InsertAt(d, q + d.i);
    InsertKeepsOk(d, q + d.i);
    AsciiJoined(digits, rest);
    DecodingReads(q, Ascii(rest), d);
  }

  lemma Placed(d: Decoder, total: nat, n: nat, p: nat)
    requires total >= d.i && d.n <= n && p <= |d.out| && total == (n - d.n) * (|d.out| + 1) + p
    ensures InsertAt(d, total) == Decoder(Insert(d.out, p, n), n, p + 1, Adapt(total - d.i, |d.out| + 1, d.i == 0))
  {
    hide Adapt, Insert;
    var len := |d.out| + 1;
    TimesIsProduct(n - d.n, len);
    WrapSum(d.n, n - d.n, p, len);
  }

  lemma Ended(d: Decoder)
    ensures Decoding(Ascii(""), d) == Ok(d.out)
  {
  }

  lemma {:induction false} Ucs2Plain(x: seq<CodeUnit>)
    requires forall k :: 0 <= k < |x| ==> !IsSurrogate(x[k])
    ensures Ucs2Decode(x) == x && Ucs2Encode(x) == x
  {
    if x != [] {
      Ucs2Plain(x[1..]);
      assert x == [x[0]] + x[1..];
    }
  }

  predicate SmallBasic(c: char) {
    c < 128 as char && c != '-' && !('A' <= c <= 'Z')
  }

  lemma Starts(head: seq<nat>)
    requires forall k :: 0 <= k < |head| ==> head[k] < 128
    ensures DecoderOk(Decoder(head, INITIAL_N, 0, INITIAL_BIAS))
  {
  }

  /** Once the digits are known to decode to `y`, the text is what `y` is encoded to, and the other way round. */
  lemma Whole(head: string, tail: string, text: string, y: seq<CodeUnit>)
    requires forall k :: 0 <= k < |tail| ==> SmallBasic(tail[k])
    requires text == (if head == "" then "" else head + "-") + tail
    requires Decoding(Ascii(tail), Decoder(Ascii(head), INITIAL_N, 0, INITIAL_BIAS)) == Ok(y)
    requires |y| <= MAX_INT && forall k :: 0 <= k < |y| ==> !IsSurrogate(y[k])
    ensures EncodeString(y) == Ok(Ascii(text)) && DecodeString(Ascii(text)) == Ok(y)
  {
    hide Decoding, EncodePoints, Ucs2Decode, Ucs2Encode, LowerTail, TailStart, BasicLength;
    var s := Ascii(text);
    Parts(Ascii(head), Ascii(tail), s);
    assert AllBasic(Ascii(head));
    assert DecodePoints(s) == Ok(y);
    Canonical(s, y);
    Ucs2Plain(y);
  }

  lemma Parts(head: seq<CodeUnit>, tail: seq<CodeUnit>, s: seq<CodeUnit>)
    requires s == (if head == [] then [] else head + [DELIMITER]) + tail
    requires forall k :: 0 <= k < |tail| ==> tail[k] == LowerUnit(tail[k]) != DELIMITER
    ensures s[..BasicLength(s)] == head && s[TailStart(s)..] == tail && LowerTail(s) == s
  {
    var front := if head == [] then [] else head + [DELIMITER];
    LastDelimiter(front, tail);
    assert s[TailStart(s)..] == tail && s[..TailStart(s)] == front;
    assert Lower(tail) == tail;
  }

  const UMLAUT: seq<CodeUnit> := [0xFC]

  const UMLAUT_0: Decoder := Decoder([], INITIAL_N, 0, INITIAL_BIAS)
  const UMLAUT_1: Decoder := Decoder([0xFC], 252, 1, 0)

  lemma Umlaut1()
    requires DecoderOk(UMLAUT_0)
    ensures Decoding(Ascii("tda"), UMLAUT_0) == Ok(UMLAUT)
  {
    hide Digits, AdaptLoop, Decoding, DecoderOk;
    More(124, 36, 72, 19, 3); More(3, 72, 72, 3, 0); Last(0, 108, 72);
    AdaptStep(0, 0);
    var d := Inserted(UMLAUT_0, 124, "tda", "tda", "", 252, 0, 0);
    assert d == UMLAUT_1;
    Ended(d);
  }

  /** "ü". */
  lemma Umlaut()
    ensures EncodeString(UMLAUT) == Ok(Ascii("tda")) && DecodeString(Ascii("tda")) == Ok(UMLAUT)
  {
    hide Decoding, EncodeString, DecodeString;
    assert Ascii("") == [];
    Umlaut1();
    Whole("", "tda", "tda", UMLAUT);
  }

  const SPEED: seq<CodeUnit> := [0x305D, 0x306E, 0x30B9, 0x30D4, 0x30FC, 0x30C9, 0x3067]

  const SPEED_0: Decoder := Decoder([], INITIAL_N, 0, INITIAL_BIAS)
  const SPEED_1: Decoder := Decoder([0x305D], 12381, 1, 17)
  const SPEED_2: Decoder := Decoder([0x305D, 0x3067], 12391, 2, 10)
  const SPEED_3: Decoder := Decoder([0x305D, 0x306E, 0x3067], 12398, 2, 9)
  const SPEED_4: Decoder := Decoder([0x305D, 0x306E, 0x30B9, 0x3067], 12473, 3, 29)
  const SPEED_5: Decoder := Decoder([0x305D, 0x306E, 0x30B9, 0x30C9, 0x3067], 12489, 4, 20)
  const SPEED_6: Decoder := Decoder([0x305D, 0x306E, 0x30B9, 0x30D4, 0x30C9, 0x3067], 12500, 4, 17)
  const SPEED_7: Decoder := Decoder([0x305D, 0x306E, 0x30B9, 0x30D4, 0x30FC, 0x30C9, 0x3067], 12540, 5, 29)

  lemma Speed1()
    requires DecoderOk(SPEED_0)
    ensures Decoding(Ascii("d9juau41awczczp"), SPEED_0) == Ok(SPEED)
  {
    hide Digits, AdaptLoop, Decoding, DecoderOk;
    More(12253, 36, 72, 3, 350); More(350, 72, 72, 35, 9); Last(9, 108, 72);
    AdaptStep(34, 0);
    var d := Inserted(SPEED_0, 12253, "d9juau41awczczp", "d9j", "uau41awczczp", 12381, 0, 17);
    assert d == SPEED_1;
    Speed2();
  }

  lemma Speed2()
    requires DecoderOk(SPEED_1)
    ensures Decoding(Ascii("uau41awczczp"), SPEED_1) == Ok(SPEED)
  {
    hide Digits, AdaptLoop, Decoding, DecoderOk;
    More(20, 36, 17, 20, 0); Last(0, 72, 17);
    AdaptStep(15, 0);
    var d := Inserted(SPEED_1, 20, "uau41awczczp", "ua", "u41awczczp", 12391, 1, 10);
    assert d == SPEED_2;
    Speed3();
  }

  lemma Speed3()
    requires DecoderOk(SPEED_2)
    ensures Decoding(Ascii("u41awczczp"), SPEED_2) == Ok(SPEED)
  {
    hide Digits, AdaptLoop, Decoding, DecoderOk;
    Last(20, 36, 10);
    AdaptStep(13, 0);
    var d := Inserted(SPEED_2, 20, "u41awczczp", "u", "41awczczp", 12398, 1, 9);
    assert d == SPEED_3;
    Speed4();
  }

  lemma Speed4()
    requires DecoderOk(SPEED_3)
    ensures Decoding(Ascii("41awczczp"), SPEED_3) == Ok(SPEED)
  {
    hide Digits, AdaptLoop, Decoding, DecoderOk;
    More(300, 36, 9, 30, 27); More(27, 72, 9, 27, 0); Last(0, 108, 9);
    AdaptStep(187, 0);
    var d := Inserted(SPEED_3, 300, "41awczczp", "41a", "wczczp", 12473, 2, 29);
    assert d == SPEED_4;
    Speed5();
  }

  lemma Speed5()
    requires DecoderOk(SPEED_4)
    ensures Decoding(Ascii("wczczp"), SPEED_4) == Ok(SPEED)
  {
    hide Digits, AdaptLoop, Decoding, DecoderOk;
    More(80, 36, 29, 22, 2); Last(2, 72, 29);
    AdaptStep(48, 0);
    var d := Inserted(SPEED_4, 80, "wczczp", "wc", "zczp", 12489, 3, 20);
    assert d == SPEED_5;
    Speed6();
  }

  lemma Speed6()
    requires DecoderOk(SPEED_5)
    ensures Decoding(Ascii("zczp"), SPEED_5) == Ok(SPEED)
  {
    hide Digits, AdaptLoop, Decoding, DecoderOk;
    More(65, 36, 20, 25, 2); Last(2, 72, 20);
    AdaptStep(37, 0);
    var d := Inserted(SPEED_5, 65, "zczp", "zc", "zp", 12500, 3, 17);
    assert d == SPEED_6;
    Speed7();
  }

  lemma Speed7()
    requires DecoderOk(SPEED_6)
    ensures Decoding(Ascii("zp"), SPEED_6) == Ok(SPEED)
  {
    hide Digits, AdaptLoop, Decoding, DecoderOk;
    More(280, 36, 17, 25, 15); Last(15, 72, 17);
    AdaptStep(160, 0);
    var d := Inserted(SPEED_6, 280, "zp", "zp", "", 12540, 4, 29);
    assert d == SPEED_7;
    Ended(d);
  }

  /** Sample (R): seven insertions. */
  lemma Speed()
    ensures EncodeString(SPEED) == Ok(Ascii("d9juau41awczczp")) && DecodeString(Ascii("d9juau41awczczp")) == Ok(SPEED)
  {
    hide Decoding, EncodeString, DecodeString;
    assert Ascii("") == [];
    Speed1();
    Whole("", "d9juau41awczczp", "d9juau41awczczp", SPEED);
  }

  const ROOF: seq<CodeUnit> := [0x3072, 0x3068, 0x3064, 0x5C4B, 0x6839, 0x306E, 0x4E0B, 0x32]

  const ROOF_0: Decoder := Decoder([0x32], INITIAL_N, 0, INITIAL_BIAS)
  const ROOF_1: Decoder := Decoder([0x3064, 0x32], 12388, 1, 20)
  const ROOF_2: Decoder := Decoder([0x3068, 0x3064, 0x32], 12392, 1, 4)
  const ROOF_3: Decoder := Decoder([0x3068, 0x3064, 0x306E, 0x32], 12398, 3, 10)
  const ROOF_4: Decoder := Decoder([0x3072, 0x3068, 0x3064, 0x306E, 0x32], 12402, 1, 6)
  const ROOF_5: Decoder := Decoder([0x3072, 0x3068, 0x3064, 0x306E, 0x4E0B, 0x32], 19979, 5, 84)
  const ROOF_6: Decoder := Decoder([0x3072, 0x3068, 0x3064, 0x5C4B, 0x306E, 0x4E0B, 0x32], 23627, 4, 68)
  const ROOF_7: Decoder := Decoder([0x3072, 0x3068, 0x3064, 0x5C4B, 0x6839, 0x306E, 0x4E0B, 0x32], 26681, 5, 68)

  lemma Roof1()
    requires DecoderOk(ROOF_0)
    ensures Decoding(Ascii("u9tlzr9756bt3uc0v"), ROOF_0) == Ok(ROOF)
  {
    hide Digits, AdaptLoop, Decoding, DecoderOk;
    More(24520, 36, 72, 20, 700); More(700, 72, 72, 35, 19); Last(19, 108, 72);
    AdaptStep(52, 0);
    var d := Inserted(ROOF_0, 24520, "u9tlzr9756bt3uc0v", "u9t", "lzr9756bt3uc0v", 12388, 0, 20);
    assert d == ROOF_1;
    Roof2();
  }

  lemma Roof2()
    requires DecoderOk(ROOF_1)
    ensures Decoding(Ascii("lzr9756bt3uc0v"), ROOF_1) == Ok(ROOF)
  {
    hide Digits, AdaptLoop, Decoding, DecoderOk;
    Last(11, 36, 20);
    AdaptStep(6, 0);
    var d := Inserted(ROOF_1, 11, "lzr9756bt3uc0v", "l", "zr9756bt3uc0v", 12392, 0, 4);
    assert d == ROOF_2;
    Roof3();
  }

  lemma Roof3()
    requires DecoderOk(ROOF_2)
    ensures Decoding(Ascii("zr9756bt3uc0v"), ROOF_2) == Ok(ROOF)
  {
    hide Digits, AdaptLoop, Decoding, DecoderOk;
    Last(25, 36, 4);
    AdaptStep(15, 0);
    var d := Inserted(ROOF_2, 25, "zr9756bt3uc0v", "z", "r9756bt3uc0v", 12398, 2, 10);
    assert d == ROOF_3;
    Roof4();
  }

  lemma Roof4()
    requires DecoderOk(ROOF_3)
    ensures Decoding(Ascii("r9756bt3uc0v"), ROOF_3) == Ok(ROOF)
  {
    hide Digits, AdaptLoop, Decoding, DecoderOk;
    Last(17, 36, 10);
    AdaptStep(9, 0);
    var d := Inserted(ROOF_3, 17, "r9756bt3uc0v", "r", "9756bt3uc0v", 12402, 0, 6);
    assert d == ROOF_4;
    Roof5();
  }

  lemma Roof5()
    requires DecoderOk(ROOF_4)
    ensures Decoding(Ascii("9756bt3uc0v"), ROOF_4) == Ok(ROOF)
  {
    hide Digits, AdaptLoop, Decoding, DecoderOk;
    More(45465, 36, 6, 35, 4543); More(4543, 72, 6, 33, 451); More(451, 108, 6, 31, 42); More(42, 144, 6, 32, 1);
    Last(1, 180, 6);
    AdaptStep(26520, 0); AdaptStep(757, 36); AdaptStep(21, 72);
    var d := Inserted(ROOF_4, 45465, "9756bt3uc0v", "9756b", "t3uc0v", 19979, 4, 84);
    assert d == ROOF_5;
    Roof6();
  }

  lemma Roof6()
    requires DecoderOk(ROOF_5)
    ensures Decoding(Ascii("t3uc0v"), ROOF_5) == Ok(ROOF)
  {
    hide Digits, AdaptLoop, Decoding, DecoderOk;
    More(25534, 36, 84, 19, 729); More(729, 72, 84, 29, 20); Last(20, 108, 84);
    AdaptStep(14590, 0); AdaptStep(416, 36);
    var d := Inserted(ROOF_5, 25534, "t3uc0v", "t3u", "c0v", 23627, 3, 68);
    assert d == ROOF_6;
    Roof7();
  }

  lemma Roof7()
    requires DecoderOk(ROOF_6)
    ensures Decoding(Ascii("c0v"), ROOF_6) == Ok(ROOF)
  {
    hide Digits, AdaptLoop, Decoding, DecoderOk;
    More(24432, 36, 68, 2, 698); More(698, 72, 68, 26, 21); Last(21, 108, 68);
    AdaptStep(13743, 0); AdaptStep(392, 36);
    var d := Inserted(ROOF_6, 24432, "c0v", "c0v", "", 26681, 4, 68);
    assert d == ROOF_7;
    Ended(d);
  }

  lemma RoofText()
    ensures "2-u9tlzr9756bt3uc0v" == "2" + "-" + "u9tlzr9756bt3uc0v"
    ensures forall k :: 0 <= k < 17 ==> SmallBasic("u9tlzr9756bt3uc0v"[k])
    ensures Ascii("2") == [0x32]
  {
  }

  /** Sample (O): with "2" before the delimiter. */
  lemma Roof()
    ensures EncodeString(ROOF) == Ok(Ascii("2-u9tlzr9756bt3uc0v")) && DecodeString(Ascii("2-u9tlzr9756bt3uc0v")) == Ok(ROOF)
  {
    hide Decoding, EncodeString, DecodeString, SmallBasic, DecoderOk;
    RoofText();
    assert DecoderOk(ROOF_0) by { Starts(ROOF_0.out); }
    Roof1();
    Whole("2", "u9tlzr9756bt3uc0v", "2-u9tlzr9756bt3uc0v", ROOF);
  }
}
