/**
 * lib/punycode.js as a whole: `encode` and `decode` on UTF-16 strings, with the
 * loops of the original, and the laws that hold between them.
 */
module Punycode {
  import opened CodeUnits
  import opened Results
  import opened PunycodeVarInt
  import opened PunycodeSteps
  import opened PunycodeTheorems

  const DELIMITER: CodeUnit := 0x2D

  // ------------------------------------------------------------------ UTF-16

  function Combine(high: int, low: int): CodePoint
    requires IsHigh(high) && IsLow(low)
  {
    (high - 0xD800) * 0x400 + (low - 0xDC00) + 0x10000
  }

  /** `ucs2decode`: surrogate pairs are combined, unmatched surrogates stand for themselves. */
  function Ucs2Decode(s: seq<CodeUnit>): (x: seq<CodePoint>)
    ensures |x| <= |s|
  {
    if s == [] then []
    else if IsHigh(s[0]) && |s| > 1 && IsLow(s[1]) then
      [Combine(s[0], s[1])] + Ucs2Decode(s[2..])
    else [s[0]] + Ucs2Decode(s[1..])
  }

  /** `String.fromCodePoint` on code points in range. */
  function Ucs2Encode(x: seq<CodePoint>): seq<CodeUnit> {
    if x == [] then [] else Units(x[0]) + Ucs2Encode(x[1..])
  }

  lemma {:induction false} Ucs2RoundTrip(s: seq<CodeUnit>)
    ensures Ucs2Encode(Ucs2Decode(s)) == s
    decreases |s|
  {
    if s == [] {
    } else if IsHigh(s[0]) && |s| > 1 && IsLow(s[1]) {
      Ucs2RoundTrip(s[2..]);
      assert Units(Combine(s[0], s[1])) == [s[0], s[1]];
      assert Ucs2Decode(s)[1..] == Ucs2Decode(s[2..]);
    } else {
      Ucs2RoundTrip(s[1..]);
      assert Ucs2Decode(s)[1..] == Ucs2Decode(s[1..]);
    }
  }

  /** Two surrogates standing for themselves that would be taken for a pair. */
  ghost predicate HasSplitPair(x: seq<CodePoint>) {
    exists k :: 0 <= k < |x| - 1 && IsHigh(x[k]) && IsLow(x[k + 1])
  }

  /** Code points survive UTF-16 exactly when no two of them look like a surrogate pair. */
  lemma {:induction false} Ucs2RoundTripPoints(x: seq<CodePoint>)
    ensures Ucs2Decode(Ucs2Encode(x)) == x <==> !HasSplitPair(x)
  {
    if x == [] {
    } else {
      hide HasSplitPair, Ucs2Decode;
      Ucs2RoundTripPoints(x[1..]);
      SplitPairFirst(x);
      var rest := Ucs2Encode(x[1..]);
      if |x| > 1 && IsHigh(x[0]) && IsLow(x[1]) {
        assert Units(x[0]) == [x[0]] && rest == [x[1]] + Ucs2Encode(x[2..]);
        DecodePair(x[0], x[1], Ucs2Encode(x[2..]));
      } else {
        assert rest != [] ==> |x| > 1 && rest[0] == Units(x[1])[0];
        DecodeUnits(x[0], rest);
        assert ([x[0]] + Ucs2Decode(rest))[1..] == Ucs2Decode(rest);
        assert x == [x[0]] + x[1..];
      }
    }
  }

  lemma SplitPairFirst(x: seq<CodePoint>)
    requires x != []
    ensures HasSplitPair(x) <==> (|x| > 1 && IsHigh(x[0]) && IsLow(x[1])) || HasSplitPair(x[1..])
  {
    if k :| 0 <= k < |x| - 1 && IsHigh(x[k]) && IsLow(x[k + 1]) {
      assert k > 0 ==> IsHigh(x[1..][k - 1]) && IsLow(x[1..][k]);
    }
    if k :| 0 <= k < |x[1..]| - 1 && IsHigh(x[1..][k]) && IsLow(x[1..][k + 1]) {
      assert IsHigh(x[k + 1]) && IsLow(x[k + 2]);
    }
  }

  lemma DecodePair(high: CodeUnit, low: CodeUnit, rest: seq<CodeUnit>)
    requires IsHigh(high) && IsLow(low)
    ensures Ucs2Decode([high] + ([low] + rest)) == [Combine(high, low)] + Ucs2Decode(rest)
    ensures Combine(high, low) >= 0x10000
  {
    assert ([high] + ([low] + rest))[2..] == rest;
  }

  lemma DecodeUnits(c: CodePoint, rest: seq<CodeUnit>)
    requires !(IsHigh(c) && rest != [] && IsLow(rest[0]))
    ensures Ucs2Decode(Units(c) + rest) == [c] + Ucs2Decode(rest)
  {
    if c >= 0x10000 {
      assert (Units(c) + rest)[2..] == rest;
    } else {
      assert ([c] + rest)[1..] == rest;
    }
  }

  // ------------------------------------------------- encode on code points

  lemma {:induction false} KeepBelow(x: seq<nat>, n: nat)
    ensures forall k :: 0 <= k < |Keep(x, n)| ==> Keep(x, n)[k] < n
  {
    if x != [] { KeepBelow(x[1..], n); }
  }

  function Basics(x: seq<CodePoint>): seq<CodeUnit> {
    KeepBelow(x, INITIAL_N);
    Keep(x, INITIAL_N)
  }

  /** The basic code points with the delimiter that follows them, if there are any. */
  function Head(x: seq<CodePoint>): seq<CodeUnit> {
    if Basics(x) == [] then [] else Basics(x) + [DELIMITER]
  }

  function Prepend(s: seq<CodeUnit>, r: Result<seq<CodeUnit>, Error>): Result<seq<CodeUnit>, Error> {
    if r.Ok? then Ok(s + r.value) else r
  }

  function EncodePoints(x: seq<CodePoint>): Result<seq<CodeUnit>, Error> {
    Prepend(Head(x), Rounds(x, Start(x)))
  }

  // ------------------------------------------------- decode to code points

  /** The position of the last delimiter, or 0 when there is none. */
  function BasicLength(s: seq<CodeUnit>): (b: nat)
    ensures b < |s| || b == 0
    ensures b > 0 ==> s[b] == DELIMITER
    ensures forall k :: b < k < |s| ==> s[k] != DELIMITER
  {
    if s == [] then 0
    else if s[|s| - 1] == DELIMITER then |s| - 1
    else BasicLength(s[..|s| - 1])
  }

  /** Where the digits start: after the last delimiter if anything stands before it. */
  function TailStart(s: seq<CodeUnit>): (t: nat)
    ensures t <= |s|
  {
    if BasicLength(s) > 0 then BasicLength(s) + 1 else 0
  }

  predicate AllBasic(s: seq<CodeUnit>) {
    forall k :: 0 <= k < |s| ==> s[k] < 0x80
  }

  function DecodePoints(s: seq<CodeUnit>): Result<seq<nat>, Error> {
    var b := BasicLength(s);
    if !AllBasic(s[..b]) then Err(NotBasic)
    else Decoding(s[TailStart(s)..], Decoder(s[..b], INITIAL_N, 0, INITIAL_BIAS))
  }

  // ---------------------------------------------------------------- strings

  function EncodeString(s: seq<CodeUnit>): Result<seq<CodeUnit>, Error> {
    EncodePoints(Ucs2Decode(s))
  }

  predicate AllCodePoints(x: seq<nat>) {
    forall k :: 0 <= k < |x| ==> x[k] <= MAX_CODE_POINT
  }

  function DecodeString(s: seq<CodeUnit>): Result<seq<CodeUnit>, Error> {
    var r := DecodePoints(s);
    if r.Err? then Err(r.error)
    else if AllCodePoints(r.value) then Ok(Ucs2Encode(r.value))
    else Err(BadCodePoint)
  }

  // ------------------------------------------------------------------- laws

  /** Every sum the decoder has to reach for `x` is representable. */
  ghost predicate Fits(x: seq<CodePoint>) {
    FitsFrom(x, INITIAL_N, 0)
  }

  lemma {:induction false} RoundsHaveNoDelimiter(x: seq<CodePoint>, e: Encoder)
    requires InRound(x, e)
    ensures Rounds(x, e).Ok? ==> DELIMITER !in Rounds(x, e).value
    decreases |x| - |Keep(x, e.n)|, 0
  {
    if e.handled < |x| {
      hide Sweep, Keep, Handled;
      var m := NextCodePoint(x, e.n);
      RoundStart(x, e);
      var delta := e.delta + Times(m - e.n, e.handled + 1);
      if delta <= MAX_INT {
        SweepHasNoDelimiter(x, e.(n := m, delta := delta), 0);
      }
    }
  }

  lemma {:induction false} SweepHasNoDelimiter(x: seq<CodePoint>, e: Encoder, j: nat)
    requires InSweep(x, e, j)
    ensures Sweep(x, e, j).Ok? ==> DELIMITER !in Sweep(x, e, j).value
    decreases |x| - |Keep(x, e.n + 1)|, |x| - j + 1
  {
    hide Rounds, Keep, Digits, Handled;
    if j == |x| {
      HandledEnds(x, e.n);
      RoundsHaveNoDelimiter(x, e.(n := e.n + 1, delta := e.delta + 1));
    } else if x[j] == e.n {
      EmitInSweep(x, e, j);
      SweepHasNoDelimiter(x, Emit(e), j + 1);
    } else {
      HandledStep(x, e.n, j);
      SweepHasNoDelimiter(x, if x[j] < e.n then e.(delta := e.delta + 1) else e, j + 1);
    }
  }

  lemma {:induction false} LastDelimiter(h: seq<CodeUnit>, t: seq<CodeUnit>)
    requires h == [] || h[|h| - 1] == DELIMITER
    requires DELIMITER !in t
    ensures BasicLength(h + t) == if h == [] then 0 else |h| - 1
  {
    if t == [] {
      assert h + t == h;
    } else {
      assert (h + t)[..|h + t| - 1] == h + t[..|t| - 1];
      LastDelimiter(h, t[..|t| - 1]);
    }
  }

  /** The decoder finds the encoder's basic part and its digits again. */
  lemma SplitEncoded(x: seq<CodePoint>, t: seq<CodeUnit>)
    requires DELIMITER !in t
    ensures var s := Head(x) + t; s[..BasicLength(s)] == Basics(x) && AllBasic(Basics(x)) && s[TailStart(s)..] == t
  {
    LastDelimiter(Head(x), t);
    KeepBelow(x, INITIAL_N);
  }

  /**
   * The round trip, exactly: decoding the encoding gives `x` back when every
   * sum fits, and one of the two overflows when some sum does not. Nothing else
   * can happen; in particular the decoder's weight guard never rejects what the
   * encoder wrote for an `x` that fits.
   */
  lemma {:induction false} RoundTripPoints(x: seq<CodePoint>)
    requires |x| <= MAX_INT
    ensures if Fits(x) then EncodePoints(x).Ok? && DecodePoints(EncodePoints(x).value) == Ok(x)
            else EncodePoints(x) == Err(Overflow) ||
                 (EncodePoints(x).Ok? && DecodePoints(EncodePoints(x).value) == Err(Overflow))
  {
    RelatedStart(x);
    var d := Decoder(Basics(x), INITIAL_N, 0, INITIAL_BIAS);
    RoundsDecode(x, Start(x), d);
    RoundsHaveNoDelimiter(x, Start(x));
    var r := Rounds(x, Start(x));
    if r.Ok? {
      SplitEncoded(x, r.value);
    }
  }

  /** The length bound under which every sum fits. */
  lemma ShortFits(x: seq<CodePoint>)
    requires (|x| + 1) * 0x110000 <= MAX_INT
    ensures Fits(x)
  {
    forall j | 0 <= j < |x| && FirstAhead(x, INITIAL_N, 0, j) ensures Reach(x, j) <= MAX_INT {
      var c: nat := x[j];
      KeepMono(x, c, c + 1);
      KeepPrefix(x, j, c);
      var rounds: nat, len := c - LargestBelow(x, c), |Keep(x, c)| + 1;
      TimesIsProduct(rounds, len);
      assert len <= |x|;
      MulMono(rounds, MAX_CODE_POINT, len);
      MulMono(len, |x|, MAX_CODE_POINT);
    }
  }

  /** `k` letters and then the last code point of all. */
  function LettersThenLast(k: nat): seq<CodePoint> {
    seq(k, _ => 0x61) + [MAX_CODE_POINT]
  }

  /** The limit is real: from 1927 letters on, the last code point is out of the decoder's reach. */
  lemma LettersLimit(k: nat)
    ensures Fits(LettersThenLast(k)) <==> k < 1927
  {
    var x, a: seq<nat>, c: nat := LettersThenLast(k), seq(k, _ => 0x61), MAX_CODE_POINT;
    assert x[..k] == a && x == a + [c];
    KeepAll(a, c);
    KeepAppend(a, [c], c);
    LargestBelowGap(a + [c], INITIAL_N, c);
    TimesIsProduct(c - INITIAL_N, k + 1);
    assert LargestBelow(a + [c], INITIAL_N) == INITIAL_N;
    assert Keep([c], c) == [];
    assert Reach(x, k) == (c - INITIAL_N) * (k + 1) + k;
    assert FirstAhead(x, INITIAL_N, 0, k);
    assert forall j :: 0 <= j < |x| && FirstAhead(x, INITIAL_N, 0, j) ==> j == k;
  }

  lemma KeepPrefix(x: seq<nat>, j: nat, n: nat)
    requires j <= |x|
    ensures |Keep(x[..j], n)| <= |Keep(x, n)|
  {
    assert x == x[..j] + x[j..];
    KeepAppend(x[..j], x[j..], n);
  }

  /** `s` with its digits in lower case. */
  function LowerTail(s: seq<CodeUnit>): seq<CodeUnit> {
    s[..TailStart(s)] + Lower(s[TailStart(s)..])
  }

  /** Punycode is canonical: an input that decodes is, up to the case of its digits, the encoding of the result. */
  lemma Canonical(s: seq<CodeUnit>, y: seq<CodePoint>)
    requires DecodePoints(s) == Ok(y) && |y| <= MAX_INT
    ensures EncodePoints(y) == Ok(LowerTail(s))
  {
    hide Decoding, ReadInt, Rounds, NextCodePoint, LargestBelow, Keep, Times;
    var b, t := BasicLength(s), s[TailStart(s)..];
    var d := Decoder(s[..b], INITIAL_N, 0, INITIAL_BIAS);
    assert DecoderOk(d) by { assert forall k :: 0 <= k < b ==> s[..b][k] < 0x80; }
    RunKeeps(t, d, y);
    KeepAll(s[..b], INITIAL_N);
    assert Basics(y) == s[..b];
    RelatedStart(y);
    RoundsCanonical(y, Start(y), d, t);
    if b > 0 {
      assert Head(y) == s[..b + 1];
    }
  }

  /** So decoding is injective up to the case of the digits. */
  lemma {:induction false} DecodeInjective(s: seq<CodeUnit>, s': seq<CodeUnit>, y: seq<CodePoint>)
    requires DecodePoints(s) == Ok(y) && DecodePoints(s') == Ok(y) && |y| <= MAX_INT
    ensures LowerTail(s) == LowerTail(s')
  {
    Canonical(s, y);
    Canonical(s', y);
  }

  /** For strings: `decode(encode(s))` is `s` exactly when the code points of `s` fit. */
  lemma {:induction false} RoundTripString(s: seq<CodeUnit>)
    requires |s| <= MAX_INT
    ensures EncodeString(s).Ok? && DecodeString(EncodeString(s).value) == Ok(s) <==> Fits(Ucs2Decode(s))
    ensures (|s| + 1) * 0x110000 <= MAX_INT ==> Fits(Ucs2Decode(s))
  {
    var x := Ucs2Decode(s);
    RoundTripPoints(x);
    Ucs2RoundTrip(s);
    if (|s| + 1) * 0x110000 <= MAX_INT {
      ShortFits(x);
    }
  }

  lemma {:induction false} DecodingLower(s: seq<CodeUnit>, d: Decoder)
    ensures Decoding(Lower(s), d) == Decoding(s, d)
    decreases |s|
  {
    hide ReadInt, InsertAt;
    if s != [] {
      ReadIntLower(s, d.i, 1, BASE, d.bias);
      var r := ReadInt(s, d.i, 1, BASE, d.bias);
      if r.Ok? {
        DecodingLower(r.value.1, InsertAt(d, r.value.0));
      }
    }
  }

  lemma {:induction false} SameDelimiters(s: seq<CodeUnit>, s': seq<CodeUnit>)
    requires |s| == |s'| && forall k :: 0 <= k < |s| ==> (s[k] == DELIMITER <==> s'[k] == DELIMITER)
    ensures BasicLength(s) == BasicLength(s')
  {
    if s != [] { SameDelimiters(s[..|s| - 1], s'[..|s| - 1]); }
  }

  /** The case of the digits never matters to the decoder. */
  lemma DecodeLowerTail(s: seq<CodeUnit>)
    ensures DecodePoints(LowerTail(s)) == DecodePoints(s)
  {
    var b, s' := BasicLength(s), LowerTail(s);
    assert forall k :: 0 <= k < |s| ==> s'[k] == s[k] || s'[k] == LowerUnit(s[k]);
    SameDelimiters(s, s');
    assert s'[..b] == s[..b];
    assert s'[TailStart(s')..] == Lower(s[TailStart(s)..]);
    DecodingLower(s[TailStart(s)..], Decoder(s[..b], INITIAL_N, 0, INITIAL_BIAS));
  }

  /**
   * Re-encoding a decoded string gives its canonical form back exactly when the
   * code points in it survive UTF-16, that is, when no two unmatched surrogates
   * in it came to stand next to each other as a pair.
   */
  lemma {:induction false} CanonicalString(s: seq<CodeUnit>, y: seq<CodePoint>)
    requires DecodePoints(s) == Ok(y) && |y| <= MAX_INT
    ensures DecodeString(s) == Ok(Ucs2Encode(y))
    ensures EncodeString(Ucs2Encode(y)) == Ok(LowerTail(s)) <==> !HasSplitPair(y)
  {
    Canonical(s, y);
    Ucs2RoundTripPoints(y);
    var y' := Ucs2Decode(Ucs2Encode(y));
    if EncodePoints(y') == Ok(LowerTail(s)) {
      Ucs2Shorter(y);
      RoundTripPoints(y');
      DecodeLowerTail(s);
    }
  }

  lemma {:induction false} Ucs2Shorter(x: seq<CodePoint>)
    ensures |Ucs2Decode(Ucs2Encode(x))| <= |x|
  {
    if x != [] {
      Ucs2Shorter(x[1..]);
      var rest := Ucs2Encode(x[1..]);
      if x[0] >= 0x10000 {
        assert (Units(x[0]) + rest)[2..] == rest;
      } else {
        assert ([x[0]] + rest)[1..] == rest;
        if IsHigh(x[0]) && rest != [] && IsLow(rest[0]) {
          assert ([x[0]] + rest)[2..] == rest[1..];
          assert Ucs2Decode(rest) == [rest[0]] + Ucs2Decode(rest[1..]);
        }
      }
    }
  }

  lemma {:induction false} SomeError(s: seq<CodeUnit>, i: nat, w: nat, k: nat, bias: nat)
    requires w > 0
    ensures ReadInt(s, i, w, k, bias).Err? ==> ReadInt(s, i, w, k, bias).error in {Overflow, InvalidInput}
    decreases |s|
  {
    hide AddDigit, NextWeight, Threshold;
    if s != [] && BasicToDigit(s[0]) < BASE && BasicToDigit(s[0]) <= (MAX_INT - i) / w {
      SomeError(s[1..], AddDigit(i, BasicToDigit(s[0]), w), NextWeight(w, k, bias), k + BASE, bias);
    }
  }

  lemma {:induction false} DecodingErrors(s: seq<CodeUnit>, d: Decoder)
    ensures Decoding(s, d).Err? ==> Decoding(s, d).error in {Overflow, InvalidInput}
    decreases |s|
  {
    hide ReadInt, InsertAt;
    if s != [] {
      SomeError(s, d.i, 1, BASE, d.bias);
      var r := ReadInt(s, d.i, 1, BASE, d.bias);
      if r.Ok? {
        DecodingErrors(r.value.1, InsertAt(d, r.value.0));
      }
    }
  }

  /** The "not basic" error is for the inputs with a unit beyond ASCII somewhere before a delimiter, and for no others. */
  lemma NotBasicExactly(s: seq<CodeUnit>)
    ensures DecodePoints(s) == Err(NotBasic) <==> exists i, j :: 0 <= i < j < |s| && s[i] >= 0x80 && s[j] == DELIMITER
  {
    hide Decoding;
    var b := BasicLength(s);
    DecodingErrors(s[TailStart(s)..], Decoder(s[..b], INITIAL_N, 0, INITIAL_BIAS));
    if i, j :| 0 <= i < j < |s| && s[i] >= 0x80 && s[j] == DELIMITER {
      assert i < b && s[..b][i] == s[i];
    }
    if !AllBasic(s[..b]) {
      var i :| 0 <= i < b && s[..b][i] >= 0x80;
      assert s[i] >= 0x80 && s[b] == DELIMITER;
    }
  }
}
