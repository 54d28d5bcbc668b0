/**
 * The generalized variable-length integers of Punycode (RFC 3492, section 3.3)
 * and the bias adaptation of section 3.4, as computed by lib/punycode.js.
 */
module PunycodeVarInt {
  import opened CodeUnits
  import opened Results

  const MAX_INT: int := 0x7FFF_FFFF
  const BASE: int := 36
  const T_MIN: int := 1
  const T_MAX: int := 26
  const SKEW: int := 38
  const DAMP: int := 700

  /** A bound on every bias that `Adapt` can produce; digit weights stay below MAX_INT because of it. */
  const BIAS_BOUND: int := 216

  datatype Error = Overflow | NotBasic | InvalidInput | BadCodePoint

  /** `BASE` stands for "not a digit". Both letter cases are digits. */
  function BasicToDigit(c: CodeUnit): (d: nat)
    ensures d <= BASE
  {
    if 0x30 <= c < 0x3A then 26 + (c - 0x30)
    else if 0x41 <= c < 0x5B then c - 0x41
    else if 0x61 <= c < 0x7B then c - 0x61
    else BASE
  }

  /** The lower-case form only: the encoder always passes a zero flag. */
  function DigitToBasic(digit: nat): (c: CodeUnit)
    requires digit < BASE
    ensures BasicToDigit(c) == digit
    ensures c == LowerUnit(c) != 0x2D
  {
    digit + 22 + 75 * (if digit < 26 then 1 else 0)
  }

  function LowerUnit(c: CodeUnit): CodeUnit {
    if 0x41 <= c < 0x5B then c + 32 else c
  }

  function Lower(s: seq<CodeUnit>): (r: seq<CodeUnit>)
    ensures |r| == |s|
    ensures forall i :: 0 <= i < |s| ==> r[i] == LowerUnit(s[i])
  {
    seq(|s|, i requires 0 <= i < |s| => LowerUnit(s[i]))
  }

  function Threshold(k: nat, bias: nat): (t: nat)
    ensures T_MIN <= t <= T_MAX
  {
    if k <= bias then T_MIN else if k >= bias + T_MAX then T_MAX else k - bias
  }

  // ---------------------------------------------------------------- digits

  /** The digit value that is written, above its threshold, for a `q` that needs more digits. */
  function Low(q: nat, k: nat, bias: nat): (r: nat)
    requires q >= Threshold(k, bias)
    ensures r < BASE - Threshold(k, bias)
  {
    (q - Threshold(k, bias)) % (BASE - Threshold(k, bias))
  }

  /** What the digits after that one stand for. */
  function Carry(q: nat, k: nat, bias: nat): (r: nat)
    requires q >= Threshold(k, bias)
    ensures r < q
  {
    DivShrinks(q - Threshold(k, bias), BASE - Threshold(k, bias));
    (q - Threshold(k, bias)) / (BASE - Threshold(k, bias))
  }

  /** The digits that the encoder writes for `q` from digit position `k` on. */
  function Digits(q: nat, k: nat, bias: nat): (s: seq<CodeUnit>)
    ensures |s| > 0
    ensures forall c :: c in s ==> c == LowerUnit(c) != 0x2D
    decreases q
  {
    if q < Threshold(k, bias) then [DigitToBasic(q)]
    else [DigitToBasic(Threshold(k, bias) + Low(q, k, bias))] + Digits(Carry(q, k, bias), k + BASE, bias)
  }

  lemma DivShrinks(a: nat, d: nat)
    requires d >= 2
    ensures 0 <= a / d <= a
  {
  }

  /** The decoder's sum after a digit. */
  function AddDigit(i: nat, digit: nat, w: nat): (i': nat)
    ensures i <= i'
  {
    MulMono(0, digit, w);
    i + digit * w
  }

  /** The weight of the digit after position `k`. */
  function NextWeight(w: nat, k: nat, bias: nat): (w': nat)
    ensures w > 0 ==> w' > 0
  {
    MulMono(0, w, BASE - Threshold(k, bias));
    MulMono(1, BASE - Threshold(k, bias), w);
    w * (BASE - Threshold(k, bias))
  }

  lemma MulMono(x: int, y: int, w: nat)
    requires x <= y
    ensures x * w <= y * w
  {
  }

  /**
   * The decoder's inner loop: adds to `i` the integer that `s` starts with and
   * returns the sum with what follows that integer in `s`.
   */
  function ReadInt(s: seq<CodeUnit>, i: nat, w: nat, k: nat, bias: nat): (r: Result<(nat, seq<CodeUnit>), Error>)
    requires w > 0
    ensures r.Ok? ==> i <= r.value.0 && |r.value.1| < |s|
    decreases |s|
  {
    if s == [] then Err(InvalidInput)
    else
      var digit := BasicToDigit(s[0]);
      if digit >= BASE then Err(InvalidInput)
      else if digit > (MAX_INT - i) / w then Err(Overflow)
      else if digit < Threshold(k, bias) then Ok((AddDigit(i, digit, w), s[1..]))
      else if w > MAX_INT / (BASE - Threshold(k, bias)) then Err(Overflow)
      else ReadInt(s[1..], AddDigit(i, digit, w), NextWeight(w, k, bias), k + BASE, bias)
  }

  /** The largest weight a digit at position `k` can have while all smaller positions had threshold 1. */
  function MaxWeight(k: nat): nat {
    if k == 36 then 1
    else if k == 72 then 35
    else if k == 108 then 1225
    else if k == 144 then 42875
    else if k == 180 then 1500625
    else 52521875
  }

  predicate WeightInRange(w: nat, k: nat) {
    w > 0 && k % 36 == 0 && k >= 36 && (k <= 216 ==> w <= MaxWeight(k))
  }

  /** The fit test on a digit is exactly the test that the new sum stays within MAX_INT. */
  lemma {:induction false} DigitFits(digit: nat, i: int, w: nat)
    requires w > 0
    ensures digit > (MAX_INT - i) / w <==> i + digit * w > MAX_INT
  {
    var a := MAX_INT - i;
    DivBound(a, w, digit);
  }

  lemma {:induction false} DivBound(a: int, w: nat, d: int)
    requires w > 0
    ensures d > a / w <==> d * w > a
  {
    var q, r := a / w, a % w;
    assert a == q * w + r && 0 <= r < w;
    if d > q {
      assert d * w >= (q + 1) * w by { MulMono(q + 1, d, w); }
      assert (q + 1) * w == q * w + w;
    } else {
      MulMono(d, q, w);
    }
  }

  /** The weight guard cannot fire on a digit that leaves the sum within MAX_INT. */
  lemma WeightStep(q: nat, i: nat, w: nat, k: nat, bias: nat)
    requires WeightInRange(w, k) && bias < BIAS_BOUND
    requires q >= Threshold(k, bias) && i + q * w <= MAX_INT
    ensures w <= MAX_INT / (BASE - Threshold(k, bias))
    ensures WeightInRange(w * (BASE - Threshold(k, bias)), k + BASE)
  {
    var t := Threshold(k, bias);
    var d := BASE - t;
    if k <= 216 {
      assert w * d <= MaxWeight(k) * 35 by { MulMono(w, MaxWeight(k), d); MulMono(d, 35, MaxWeight(k)); }
      assert w * d > 0 by { MulMono(1, w, d); }
    } else {
      assert t == 26 && d == 10;
      MulMono(26, q, w);
    }
    DivBound(MAX_INT, d, w);
  }

  /** One digit taken off `q` and weighted leaves the sum unchanged. */
  lemma SplitDigit(q: nat, t: nat, d: nat, i: nat, w: nat)
    requires d > 0 && q >= t
    ensures i + (t + (q - t) % d) * w + ((q - t) / d) * (w * d) == i + q * w
  {
    var q', r := (q - t) / d, (q - t) % d;
    assert q == t + r + q' * d;
    calc {
      i + (t + r) * w + q' * (w * d);
      i + (t + r) * w + (q' * d) * w;
      i + (t + r + q' * d) * w;
    }
  }

  /** One round of the decoder's inner loop, told apart by whether the new sum fits. */
  lemma {:induction false} ReadMore(c: CodeUnit, s: seq<CodeUnit>, i: nat, w: nat, k: nat, bias: nat)
    requires w > 0 && BasicToDigit(c) < BASE
    ensures ReadInt([c] + s, i, w, k, bias) ==
            if AddDigit(i, BasicToDigit(c), w) > MAX_INT then Err(Overflow)
            else if BasicToDigit(c) < Threshold(k, bias) then Ok((AddDigit(i, BasicToDigit(c), w), s))
            else if w > MAX_INT / (BASE - Threshold(k, bias)) then Err(Overflow)
            else ReadInt(s, AddDigit(i, BasicToDigit(c), w), NextWeight(w, k, bias), k + BASE, bias)
  {
    var s' := [c] + s;
    assert s'[0] == c && s'[1..] == s;
    DigitFits(BasicToDigit(c), i, w);
  }

  /** One digit of the encoder's output against the sum and weight that the decoder keeps. */
  lemma {:induction false} DigitsMore(q: nat, i: nat, w: nat, k: nat, bias: nat) returns (digit: nat, q': nat)
    requires w > 0 && q >= Threshold(k, bias)
    ensures q' < q && Threshold(k, bias) <= digit < BASE
    ensures AddDigit(AddDigit(i, digit, w), q', NextWeight(w, k, bias)) == AddDigit(i, q, w)
    ensures Digits(q, k, bias) == [DigitToBasic(digit)] + Digits(q', k + BASE, bias)
    ensures AddDigit(i, q, w) <= MAX_INT && WeightInRange(w, k) && bias < BIAS_BOUND
            ==> w <= MAX_INT / (BASE - Threshold(k, bias)) && WeightInRange(NextWeight(w, k, bias), k + BASE)
  {
    digit, q' := Threshold(k, bias) + Low(q, k, bias), Carry(q, k, bias);
    SplitDigit(q, Threshold(k, bias), BASE - Threshold(k, bias), i, w);
    if AddDigit(i, q, w) <= MAX_INT && WeightInRange(w, k) && bias < BIAS_BOUND {
      WeightStep(q, i, w, k, bias);
    }
  }

  /**
   * Reading what the encoder wrote: the sum comes back exactly when it fits,
   * and otherwise the decoder raises an overflow. In particular its weight guard never
   * rejects digits whose value fits.
   */
  lemma {:induction false} ReadDigits(q: nat, rest: seq<CodeUnit>, i: nat, w: nat, k: nat, bias: nat)
    requires w > 0
    requires AddDigit(i, q, w) <= MAX_INT ==> WeightInRange(w, k) && bias < BIAS_BOUND
    ensures var r := ReadInt(Digits(q, k, bias) + rest, i, w, k, bias);
            r == if AddDigit(i, q, w) <= MAX_INT then Ok((AddDigit(i, q, w), rest)) else Err(Overflow)
    decreases q
  {
    hide AddDigit, NextWeight, Low, Carry, MaxWeight, ReadInt;
    if q < Threshold(k, bias) {
      ReadMore(DigitToBasic(q), rest, i, w, k, bias);
    } else {
      var digit, q' := DigitsMore(q, i, w, k, bias);
      var tail := Digits(q', k + BASE, bias) + rest;
      assert Digits(q, k, bias) + rest == [DigitToBasic(digit)] + tail;
      ReadMore(DigitToBasic(digit), tail, i, w, k, bias);
      ReadDigits(q', rest, AddDigit(i, digit, w), NextWeight(w, k, bias), k + BASE, bias);
    }
  }

  /** What the decoder reads is, up to letter case, what the encoder writes for the value read. */
  lemma {:induction false} ReadIntCanonical(s: seq<CodeUnit>, i: nat, w: nat, k: nat, bias: nat)
    returns (q: nat, rest: seq<CodeUnit>)
    requires w > 0
    requires ReadInt(s, i, w, k, bias).Ok?
    ensures ReadInt(s, i, w, k, bias) == Ok((AddDigit(i, q, w), rest))
    ensures AddDigit(i, q, w) <= MAX_INT
    ensures Lower(s) == Digits(q, k, bias) + Lower(rest)
    decreases |s|
  {
    hide AddDigit, NextWeight, Digits, ReadInt, BasicToDigit, DigitToBasic, Threshold, Lower, LowerUnit;
    ReadSome(s, i, w, k, bias);
    var digit := BasicToDigit(s[0]);
    assert s == [s[0]] + s[1..];
    ReadMore(s[0], s[1..], i, w, k, bias);
    LowerFirst(s);
    if digit < Threshold(k, bias) {
      q, rest := digit, s[1..];
      LastDigit(q, k, bias);
    } else {
      var q';
      q', rest := ReadIntCanonical(s[1..], AddDigit(i, digit, w), NextWeight(w, k, bias), k + BASE, bias);
      q := Undigit(digit, q', i, w, k, bias);
    }
  }

  lemma LowerFirst(s: seq<CodeUnit>)
    requires s != [] && BasicToDigit(s[0]) < BASE
    ensures Lower(s) == [DigitToBasic(BasicToDigit(s[0]))] + Lower(s[1..])
  {
  }

  lemma LastDigit(q: nat, k: nat, bias: nat)
    requires q < Threshold(k, bias)
    ensures Digits(q, k, bias) == [DigitToBasic(q)]
  {
  }

  lemma {:induction false} ReadSome(s: seq<CodeUnit>, i: nat, w: nat, k: nat, bias: nat)
    requires w > 0 && ReadInt(s, i, w, k, bias).Ok?
    ensures |s| > 0 && BasicToDigit(s[0]) < BASE
  {
  }

  /** The converse of `DigitsMore`: what a digit that is not the last contributes. */
  lemma {:induction false} Undigit(digit: nat, q': nat, i: nat, w: nat, k: nat, bias: nat) returns (q: nat)
    requires w > 0 && Threshold(k, bias) <= digit < BASE
    ensures AddDigit(i, q, w) == AddDigit(AddDigit(i, digit, w), q', NextWeight(w, k, bias))
    ensures Digits(q, k, bias) == [DigitToBasic(digit)] + Digits(q', k + BASE, bias)
  {
    var t := Threshold(k, bias);
    MulMono(0, q', BASE - t);
    q := digit + q' * (BASE - t);
    DigitOf(digit, t, BASE - t, q');
    SplitDigit(q, t, BASE - t, i, w);
  }

  lemma {:induction false} DigitOf(digit: nat, t: nat, d: nat, q': nat)
    requires t <= digit < t + d
    ensures (digit + q' * d - t) / d == q'
    ensures (digit + q' * d - t) % d == digit - t
    ensures digit + q' * d >= t
  {
    var a := digit + q' * d - t;
    MulMono(0, q', d);
    DivBound(a, d, q');
    DivBound(a, d, q' + 1);
    assert (q' + 1) * d == q' * d + d;
    assert a == (a / d) * d + a % d;
  }

  /** Letter case does not matter to the decoder. */
  lemma {:induction false} ReadIntLower(s: seq<CodeUnit>, i: nat, w: nat, k: nat, bias: nat)
    requires w > 0
    ensures var r, r' := ReadInt(s, i, w, k, bias), ReadInt(Lower(s), i, w, k, bias);
            if r.Ok? then r' == Ok((r.value.0, Lower(r.value.1))) else r' == r
    decreases |s|
  {
    hide AddDigit, NextWeight;
    if s != [] {
      assert Lower(s)[1..] == Lower(s[1..]);
      ReadIntLower(s[1..], AddDigit(i, BasicToDigit(s[0]), w), NextWeight(w, k, bias), k + BASE, bias);
    }
  }

  // ---------------------------------------------------------------- errors

  /** The text ends, or something else than a digit comes, before the last digit of an integer. */
  predicate Unfinished(s: seq<CodeUnit>, k: nat, bias: nat) {
    || s == [] || BasicToDigit(s[0]) >= BASE
    || (BasicToDigit(s[0]) >= Threshold(k, bias) && Unfinished(s[1..], k + BASE, bias))
  }

  /** Digits up to a last one are what the encoder writes for some value, up to letter case. */
  lemma {:induction false} Finished(s: seq<CodeUnit>, k: nat, bias: nat) returns (q: nat, rest: seq<CodeUnit>)
    requires !Unfinished(s, k, bias)
    ensures Lower(s) == Digits(q, k, bias) + rest
    decreases |s|
  {
    hide Digits, BasicToDigit, DigitToBasic, Threshold, Lower, LowerUnit;
    var digit := BasicToDigit(s[0]);
    LowerFirst(s);
    if digit < Threshold(k, bias) {
      q, rest := digit, Lower(s[1..]);
      LastDigit(q, k, bias);
    } else {
      var q';
      q', rest := Finished(s[1..], k + BASE, bias);
      q := Undigit(digit, q', 0, 1, k, bias);
    }
  }

  /**
   * A whole integer is read when the sum fits and overflows when it does not;
   * the input is invalid only where an integer is not finished, and then
   * nothing is read.
   */
  lemma {:induction false} ReadErrors(s: seq<CodeUnit>, i: nat, bias: nat)
    requires i <= MAX_INT && bias < BIAS_BOUND
    ensures var r := ReadInt(s, i, 1, BASE, bias);
            if Unfinished(s, BASE, bias) then r.Err? && r.error in {Overflow, InvalidInput}
            else r.Ok? || r == Err(Overflow)
  {
    hide ReadInt, Digits, Unfinished, Lower;
    if Unfinished(s, BASE, bias) {
      NothingRead(s, i, 1, BASE, bias);
    } else {
      var q, rest := Finished(s, BASE, bias);
      ReadDigits(q, rest, i, 1, BASE, bias);
      ReadIntLower(s, i, 1, BASE, bias);
    }
  }

  lemma {:induction false} NothingRead(s: seq<CodeUnit>, i: nat, w: nat, k: nat, bias: nat)
    requires w > 0 && Unfinished(s, k, bias)
    ensures var r := ReadInt(s, i, w, k, bias); r.Err? && r.error in {Overflow, InvalidInput}
    ensures (s == [] || BasicToDigit(s[0]) >= BASE) ==> ReadInt(s, i, w, k, bias) == Err(InvalidInput)
    decreases |s|
  {
    hide AddDigit, NextWeight, BasicToDigit, Threshold;
    if s != [] && BasicToDigit(s[0]) < BASE {
      NothingRead(s[1..], AddDigit(i, BasicToDigit(s[0]), w), NextWeight(w, k, bias), k + BASE, bias);
    }
  }

  // ------------------------------------------------------------------ bias

  function AdaptLoop(delta: nat, k: nat): nat
    decreases delta
  {
    if delta > 455 then AdaptLoop(delta / 35, k + BASE)
    else k + 36 * delta / (delta + SKEW)
  }

  /** The first division of the bias adaptation: by `damp` for the first delta, by two afterwards. */
  function Dampen(delta: nat, numPoints: nat, firstTime: bool): nat
    requires numPoints > 0
  {
    var d := if firstTime then delta / DAMP else delta / 2;
    d + d / numPoints
  }

  function Adapt(delta: nat, numPoints: nat, firstTime: bool): nat
    requires numPoints > 0
  {
    AdaptLoop(Dampen(delta, numPoints, firstTime), 0)
  }

  /** Beyond the delta itself the number of code points does not matter. */
  lemma {:induction false} AdaptStale(delta: nat, numPoints: nat, more: nat, firstTime: bool)
    requires delta < numPoints <= more
    ensures Adapt(delta, numPoints, firstTime) == Adapt(delta, more, firstTime)
  {
    hide AdaptLoop;
    var d := if firstTime then delta / DAMP else delta / 2;
    DivShrinks(delta, if firstTime then DAMP else 2);
    DivSmall(d, numPoints);
    DivSmall(d, more);
  }

  lemma DivSmall(a: nat, d: nat)
    requires a < d
    ensures a / d == 0
  {
  }

  lemma AdaptBounded(delta: nat, numPoints: nat, firstTime: bool)
    requires numPoints > 0 && delta <= MAX_INT
    ensures Adapt(delta, numPoints, firstTime) < BIAS_BOUND
  {
    var d := if firstTime then delta / DAMP else delta / 2;
    assert d / numPoints <= d by { DivBound(d, numPoints, d + 1); MulMono(1, numPoints, d + 1); }
    AdaptLoopBounded(Dampen(delta, numPoints, firstTime), 0);
  }

  lemma {:induction false} AdaptLoopBounded(delta: nat, k: nat)
    requires k % 36 == 0 && k <= 180
    requires k == 0 ==> delta <= 2147483647
    requires k == 36 ==> delta <= 61356675
    requires k == 72 ==> delta <= 1753047
    requires k == 108 ==> delta <= 50087
    requires k == 144 ==> delta <= 1431
    requires k == 180 ==> delta <= 40
    ensures AdaptLoop(delta, k) < BIAS_BOUND
    decreases delta
  {
    if delta > 455 {
      AdaptLoopBounded(delta / 35, k + 36);
    } else {
      LastQuotient(delta);
    }
  }

  lemma LastQuotient(delta: nat)
    ensures 36 * delta / (delta + SKEW) < 36
  {
    DivBound(36 * delta, delta + SKEW, 36);
  }

  /** The adaptation loop of the original, with its early scaling written as assignments. */
  lemma AdaptStep(d: nat, k: nat)
    ensures AdaptLoop(d, k) ==
            if d > (BASE - T_MIN) * T_MAX / 2 then AdaptLoop(d / (BASE - T_MIN), k + BASE)
            else k + (BASE - T_MIN + 1) * d / (d + SKEW)
  {
  }

  lemma AdaptStart(delta: nat, numPoints: nat, firstTime: bool)
    requires numPoints > 0
    ensures var d := if firstTime then delta / DAMP else delta / 2;
            d / numPoints >= 0 && Adapt(delta, numPoints, firstTime) == AdaptLoop(d + d / numPoints, 0)
  {
    hide AdaptLoop;
  }

  method ComputeAdapt(delta: nat, numPoints: nat, firstTime: bool) returns (bias: nat)
    requires numPoints > 0
    ensures bias == Adapt(delta, numPoints, firstTime)
  {
    hide AdaptLoop, Adapt;
    AdaptStart(delta, numPoints, firstTime);
    var k: nat := 0;
    var d: nat := if firstTime then delta / DAMP else delta / 2;
    d := d + d / numPoints;
    AdaptStep(d, k);
    while d > (BASE - T_MIN) * T_MAX / 2
      invariant AdaptLoop(d, k) == Adapt(delta, numPoints, firstTime)
      invariant d <= (BASE - T_MIN) * T_MAX / 2 ==> AdaptLoop(d, k) == k + (BASE - T_MIN + 1) * d / (d + SKEW)
    {
      AdaptStep(d, k);
      AdaptStep(d / (BASE - T_MIN), k + BASE);
      d := d / (BASE - T_MIN);
      k := k + BASE;
    }
    bias := k + (BASE - T_MIN + 1) * d / (d + SKEW);
  }
}
