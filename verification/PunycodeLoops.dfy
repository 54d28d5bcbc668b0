/** `encode` and `decode` of lib/punycode.js loop by loop, proved equal to the functions the laws are about. */
module PunycodeLoops {
  import opened CodeUnits
  import opened Results
  import opened PunycodeVarInt
  import opened PunycodeSteps
  import opened PunycodeTheorems
  import opened Punycode

  lemma DecodeStep(s: seq<CodeUnit>, at: nat)
    requires at < |s|
    ensures Ucs2Decode(s[at..]) ==
            if IsHigh(s[at]) && at + 1 < |s| && IsLow(s[at + 1]) then [Combine(s[at], s[at + 1])] + Ucs2Decode(s[at + 2..])
            else [s[at]] + Ucs2Decode(s[at + 1..])
  {
    hide Combine;
    assert s[at..][1..] == s[at + 1..];
    assert at + 1 < |s| ==> s[at..][2..] == s[at + 2..] && s[at..][1] == s[at + 1];
  }

  lemma DecodeEnds(s: seq<CodeUnit>)
    ensures s[0..] == s && Ucs2Decode(s[|s|..]) == []
  {
  }

  lemma AppendThen(output: seq<CodePoint>, c: CodePoint, rest: seq<CodePoint>)
    ensures output + ([c] + rest) == output + [c] + rest
  {
  }

  method ReadCodePoints(s: seq<CodeUnit>) returns (output: seq<CodePoint>)
    ensures output == Ucs2Decode(s)
  {
    hide Ucs2Decode, Combine;
    DecodeEnds(s);
    output := [];
    var counter := 0;
    while counter < |s|
      invariant 0 <= counter <= |s|
      invariant output + Ucs2Decode(s[counter..]) == Ucs2Decode(s)
    {
      DecodeStep(s, counter);
      var value := s[counter];
      counter := counter + 1;
      if 0xD800 <= value <= 0xDBFF && counter < |s| {
        var extra := s[counter];
        counter := counter + 1;
        if 0xDC00 <= extra <= 0xDFFF {
          AppendThen(output, Combine(value, extra), Ucs2Decode(s[counter..]));
          output := output + [Combine(value, extra)];
        } else {
          counter := counter - 1;
          AppendThen(output, value, Ucs2Decode(s[counter..]));
          output := output + [value];
        }
      } else {
        AppendThen(output, value, Ucs2Decode(s[counter..]));
        output := output + [value];
      }
    }
  }

  method FindNext(x: seq<CodePoint>, n: nat) returns (m: nat)
    ensures m == NextCodePoint(x, n)
  {
    m := MAX_INT;
    var k := 0;
    while k < |x|
      invariant 0 <= k <= |x|
      invariant m == NextCodePoint(x[..k], n)
    {
      assert x[..k + 1][..k] == x[..k];
      if x[k] >= n && x[k] < m {
        m := x[k];
      }
      k := k + 1;
    }
    assert x[..k] == x;
  }

  method WriteDigits(delta: nat, bias: nat) returns (output: seq<CodeUnit>)
    ensures output == Digits(delta, BASE, bias)
  {
    hide Low, Carry;
    output := [];
    var q: nat, k: nat := delta, BASE;
    while true
      invariant output + Digits(q, k, bias) == Digits(delta, BASE, bias)
      decreases q
    {
      var t := Threshold(k, bias);
      if q < t {
        break;
      }
      var qMinusT, baseMinusT := q - t, BASE - t;
      LowCarry(q, k, bias);
      output := output + [DigitToBasic(t + qMinusT % baseMinusT)];
      q, k := qMinusT / baseMinusT, k + BASE;
    }
    output := output + [DigitToBasic(q)];
  }

  lemma LowCarry(q: nat, k: nat, bias: nat)
    requires q >= Threshold(k, bias)
    ensures (q - Threshold(k, bias)) % (BASE - Threshold(k, bias)) == Low(q, k, bias)
    ensures (q - Threshold(k, bias)) / (BASE - Threshold(k, bias)) == Carry(q, k, bias)
  {
  }

  method CopyBasics(x: seq<CodePoint>) returns (output: seq<CodeUnit>)
    ensures output == Basics(x)
  {
    output := [];
    var k := 0;
    while k < |x|
      invariant 0 <= k <= |x|
      invariant output == Keep(x[..k], INITIAL_N)
    {
      assert x[..k + 1] == x[..k] + [x[k]];
      KeepAppend(x[..k], [x[k]], INITIAL_N);
      if x[k] < 0x80 {
        output := output + [x[k]];
      }
      k := k + 1;
    }
    assert x[..k] == x;
  }

  /** The guard of the original, by division, against the sum it protects. */
  lemma {:induction false} LeapGuard(m: nat, n: nat, delta: nat, len: nat)
    requires m >= n && len > 0
    ensures Times(m - n, len) == (m - n) * len
    ensures m - n > (MAX_INT - delta) / len <==> delta + (m - n) * len > MAX_INT
  {
    TimesIsProduct(m - n, len);
    DivBound(MAX_INT - delta, len, m - n);
  }

  lemma TailKeeps(x: seq<nat>, j: nat, n: nat)
    requires j <= |x|
    ensures |Keep(x[j..], n)| <= |Keep(x, n)|
  {
    assert x[..j] + x[j..] == x;
    KeepAppend(x[..j], x[j..], n);
  }

  /**
   * The encoder's inner loop: one pass over the input for the code point `n`.
   * The bias is adapted with the count at the head of the round, which is too
   * small from the second occurrence on, but then `delta` is smaller still.
   */
  method RunSweep(x: seq<CodePoint>, written: seq<CodeUnit>, n: nat, from: nat, oldBias: nat, count: nat, basic: nat)
    returns (r: Result<(seq<CodeUnit>, nat, nat, nat), Error>)
    requires InSweep(x, Encoder(n, from, oldBias, count, basic), 0)
    ensures r.Ok? ==>
              var (output, delta, bias, handled) := r.value;
              InSweep(x, Encoder(n, delta, bias, handled, basic), |x|) &&
              Prepend(output, Sweep(x, Encoder(n, delta, bias, handled, basic), |x|)) ==
              Prepend(written, Sweep(x, Encoder(n, from, oldBias, count, basic), 0))
    ensures r.Err? ==> Sweep(x, Encoder(n, from, oldBias, count, basic), 0) == Err(r.error)
  {
    hide Keep, Handled, Digits, Rounds, Adapt;
    ghost var all := Prepend(written, Sweep(x, Encoder(n, from, oldBias, count, basic), 0));
    var output, delta: nat, bias: nat, handled: nat := written, from, oldBias, count;
    var handledPlusOne := count + 1;
    HandledEnds(x, n);
    var j := 0;
    while j < |x|
      invariant 0 <= j <= |x| && handled >= count
      invariant InSweep(x, Encoder(n, delta, bias, handled, basic), j)
      invariant handled > count ==> delta + |Keep(x[j..], n)| <= count
      invariant Prepend(output, Sweep(x, Encoder(n, delta, bias, handled, basic), j)) == all
    {
      ghost var e := Encoder(n, delta, bias, handled, basic);
      HandledStep(x, n, j);
      if x[j] == n {
        EmitInSweep(x, e, j);
        TailKeeps(x, j + 1, n);
      }
      if x[j] < n {
        delta := delta + 1;
        if delta > MAX_INT {
          return Err(Overflow);
        }
      }
      if x[j] == n {
        var digits := WriteDigits(delta, bias);
        ghost var rest := Sweep(x, Emit(e), j + 1);
        assert rest.Ok? ==> output + (digits + rest.value) == (output + digits) + rest.value;
        output := output + digits;
        if handled > count {
          AdaptStale(delta, handledPlusOne, handled + 1, handled == basic);
        }
        bias := ComputeAdapt(delta, handledPlusOne, handled == basic);
        delta := 0;
        handled := handled + 1;
      }
      j := j + 1;
    }
    return Ok((output, delta, bias, handled));
  }

  lemma {:induction false} RoundsHead(x: seq<CodePoint>, e: Encoder)
    requires InRound(x, e)
    ensures e.handled >= |x| ==> Rounds(x, e) == Ok([])
    ensures e.handled < |x| ==> NextCodePoint(x, e.n) >= e.n
    ensures e.handled < |x| ==>
              var m := NextCodePoint(x, e.n);
              var e' := e.(n := m, delta := e.delta + Times(m - e.n, e.handled + 1));
              InSweep(x, e', 0) && Rounds(x, e) == if e'.delta > MAX_INT then Err(Overflow) else Sweep(x, e', 0)
  {
    hide Sweep, Times;
    if e.handled < |x| {
      RoundStart(x, e);
    }
  }

  lemma {:induction false} SweepEnd(x: seq<CodePoint>, e: Encoder)
    requires InSweep(x, e, |x|)
    ensures var e' := e.(n := e.n + 1, delta := e.delta + 1);
            InRound(x, e') && Sweep(x, e, |x|) == Rounds(x, e')
  {
    hide Rounds;
    HandledEnds(x, e.n);
  }

  method Encode(input: seq<CodeUnit>) returns (r: Result<seq<CodeUnit>, Error>)
    ensures r == EncodeString(input)
  {
    hide Keep, Handled, Rounds, Sweep, Times, NextCodePoint;
    var x := ReadCodePoints(input);
    var output := CopyBasics(x);
    var basicLength := |output|;
    var n: nat, delta: nat, bias: nat, handled: nat := INITIAL_N, 0, INITIAL_BIAS, basicLength;
    if basicLength > 0 {
      output := output + [DELIMITER];
    }
    while handled < |x|
      invariant InRound(x, Encoder(n, delta, bias, handled, basicLength))
      invariant Prepend(output, Rounds(x, Encoder(n, delta, bias, handled, basicLength))) == EncodePoints(x)
      decreases |x| - |Keep(x, n)|
    {
      var m := FindNext(x, n);
      RoundStart(x, Encoder(n, delta, bias, handled, basicLength));
      RoundsHead(x, Encoder(n, delta, bias, handled, basicLength));
      LeapGuard(m, n, delta, handled + 1);
      if m - n > (MAX_INT - delta) / (handled + 1) {
        return Err(Overflow);
      }
      delta := delta + (m - n) * (handled + 1);
      n := m;
      var swept := RunSweep(x, output, n, delta, bias, handled, basicLength);
      if swept.Err? {
        return Err(swept.error);
      }
      output, delta, bias, handled := swept.value.0, swept.value.1, swept.value.2, swept.value.3;
      SweepEnd(x, Encoder(n, delta, bias, handled, basicLength));
      delta := delta + 1;
      n := n + 1;
    }
    RoundsHead(x, Encoder(n, delta, bias, handled, basicLength));
    assert output + [] == output;
    return Ok(output);
  }

  /** One integer of the decoder, digit by digit, with the index of the character after it. */
  method ReadInteger(input: seq<CodeUnit>, start: nat, oldi: nat, bias: nat) returns (r: Result<(nat, nat), Error>)
    requires start < |input|
    ensures var spec := ReadInt(input[start..], oldi, 1, BASE, bias);
            if r.Ok? then start < r.value.1 <= |input| && spec == Ok((r.value.0, input[r.value.1..]))
            else spec == Err(r.error)
  {
    var index: nat, i: nat, w: nat, k: nat := start, oldi, 1, BASE;
    ghost var spec := ReadInt(input[start..], oldi, 1, BASE, bias);
    while true
      invariant start <= index <= |input| && w > 0
      invariant ReadInt(input[index..], i, w, k, bias) == spec
      decreases |input| - index
    {
      if index >= |input| {
        return Err(InvalidInput);
      }
      assert input[index..][1..] == input[index + 1..];
      var digit := BasicToDigit(input[index]);
      index := index + 1;
      if digit >= BASE {
        return Err(InvalidInput);
      }
      if digit > (MAX_INT - i) / w {
        return Err(Overflow);
      }
      ghost var next := AddDigit(i, digit, w);
      i := i + digit * w;
      var t := Threshold(k, bias);
      if digit < t {
        break;
      }
      var baseMinusT := BASE - t;
      if w > MAX_INT / baseMinusT {
        return Err(Overflow);
      }
      ghost var weight := NextWeight(w, k, bias);
      w := w * baseMinusT;
      k := k + BASE;
    }
    return Ok((i, index));
  }

  method Decode(input: seq<CodeUnit>) returns (r: Result<seq<CodeUnit>, Error>)
    ensures r == DecodeString(input)
  {
    hide ReadInt, Adapt, Wrap;
    var output: seq<nat> := [];
    var basic := BasicLength(input);
    var j := 0;
    while j < basic
      invariant 0 <= j <= basic
      invariant output == input[..j] && AllBasic(input[..j])
    {
      if input[j] >= 0x80 {
        assert !AllBasic(input[..basic]);
        return Err(NotBasic);
      }
      output := output + [input[j]];
      j := j + 1;
    }
    var i: nat, n: nat, bias: nat, index: nat := 0, INITIAL_N, INITIAL_BIAS, if basic > 0 then basic + 1 else 0;
    while index < |input|
      invariant 0 <= index <= |input|
      invariant Decoding(input[index..], Decoder(output, n, i, bias)) == DecodePoints(input)
    {
      var oldi := i;
      ghost var d := Decoder(output, n, oldi, bias);
      var read := ReadInteger(input, index, i, bias);
      if read.Err? {
        return Err(read.error);
      }
      i, index := read.value.0, read.value.1;
      var len := |output| + 1;
      WrapIsDivision(n, i, len);
      bias := ComputeAdapt(i - oldi, len, oldi == 0);
      if i / len > MAX_INT - n {
        return Err(Overflow);
      }
      n := n + i / len;
      i := i % len;
      output := output[..i] + [n] + output[i..];
      i := i + 1;
    }
    if AllCodePoints(output) {
      return Ok(Ucs2Encode(output));
    } else {
      return Err(BadCodePoint);
    }
  }
}
