/** What encoding and decoding do to each other, for every input. */
module PunycodeTheorems {
  import opened CodeUnits
  import opened Results
  import opened PunycodeVarInt
  import opened PunycodeSteps

  /** The decoder on a fresh integer, told by the value read. */
  lemma {:induction false} DecodingReads(q: nat, rest: seq<CodeUnit>, d: Decoder)
    requires DecoderOk(d)
    ensures var r := Decoding(Digits(q, BASE, d.bias) + rest, d);
            if q + d.i <= MAX_INT && InsertAt(d, q + d.i).n <= MAX_INT then r == Decoding(rest, InsertAt(d, q + d.i))
            else r == Err(Overflow)
  {
    ReadDigits(q, rest, d.i, 1, BASE, d.bias);
    assert AddDigit(d.i, q, 1) == q + d.i;
  }

  /**
   * From related states, the decoder makes the input list of everything the
   * encoder still writes exactly when every first occurrence still ahead fits;
   * when one does not, the encoder or the decoder raises an overflow.
   */
  ghost predicate RoundTrips(r: Result<seq<CodeUnit>, Error>, d: Decoder, x: seq<CodePoint>, fits: bool) {
    if fits then r.Ok? && Decoding(r.value, d) == Ok(x)
    else r == Err(Overflow) || (r.Ok? && Decoding(r.value, d) == Err(Overflow))
  }

  /** The encoder raises nothing else. */
  lemma {:induction false} RoundsErrors(x: seq<CodePoint>, e: Encoder)
    requires InRound(x, e)
    ensures Rounds(x, e).Ok? || Rounds(x, e) == Err(Overflow)
    decreases |x| - |Keep(x, e.n)|, 0
  {
    if e.handled < |x| {
      hide Sweep, Keep, Handled;
      var m := NextCodePoint(x, e.n);
      RoundStart(x, e);
      var delta := e.delta + Times(m - e.n, e.handled + 1);
      if delta <= MAX_INT {
        SweepErrors(x, e.(n := m, delta := delta), 0);
      }
    }
  }

  lemma {:induction false} SweepErrors(x: seq<CodePoint>, e: Encoder, j: nat)
    requires InSweep(x, e, j)
    ensures Sweep(x, e, j).Ok? || Sweep(x, e, j) == Err(Overflow)
    decreases |x| - |Keep(x, e.n + 1)|, |x| - j + 1
  {
    hide Rounds, Keep, Digits, Handled;
    if j == |x| {
      HandledEnds(x, e.n);
      RoundsErrors(x, e.(n := e.n + 1, delta := e.delta + 1));
    } else if x[j] == e.n {
      EmitInSweep(x, e, j);
      SweepErrors(x, Emit(e), j + 1);
    } else {
      HandledStep(x, e.n, j);
      SweepErrors(x, if x[j] < e.n then e.(delta := e.delta + 1) else e, j + 1);
    }
  }

  lemma {:induction false} RoundsDecode(x: seq<CodePoint>, e: Encoder, d: Decoder)
    requires RelatedRound(x, e, d) && |x| <= MAX_INT
    ensures RoundTrips(Rounds(x, e), d, x, FitsFrom(x, e.n, 0))
    decreases |x| - |Keep(x, e.n)|, 0
  {
    hide Sweep, Decoding, Handled, Keep, LargestBelow, NextCodePoint, Times, DecoderOk, Reach, FitsFrom;
    if e.handled >= |x| {
      RoundsDone(x, e, d);
    } else {
      RoundStart(x, e);
      var e' := RoundToSweep(x, e, d);
      if e'.delta > MAX_INT {
        SweepTooFar(x, e', 0, d);
      } else {
        SweepDecode(x, e', 0, d);
      }
    }
  }

  lemma RoundsDone(x: seq<CodePoint>, e: Encoder, d: Decoder)
    requires RelatedRound(x, e, d) && e.handled >= |x|
    ensures d.out == x && FitsFrom(x, e.n, 0) && Decoding([], d) == Ok(x)
  {
    hide Sweep, Handled, LargestBelow, NextCodePoint, Reach, DecoderOk;
    KeepWhole(x, e.n);
  }

  lemma {:induction false} SweepDecode(x: seq<CodePoint>, e: Encoder, j: nat, d: Decoder)
    requires Related(x, e, j, d) && |x| <= MAX_INT
    ensures RoundTrips(Sweep(x, e, j), d, x, FitsFrom(x, e.n, j))
    decreases |x| - |Keep(x, e.n + 1)|, |x| - j + 1
  {
    hide Rounds, Keep, Handled, Times, Digits, LargestBelow, DecoderOk, InsertAt, FitsFrom;
    if j == |x| {
      hide Decoding;
      HandledEnds(x, e.n);
      SweepToRound(x, e, d);
      RoundsDecode(x, e.(n := e.n + 1, delta := e.delta + 1), d);
    } else if x[j] != e.n {
      hide Decoding;
      SweepPast(x, e, j, d);
      var e' := if x[j] < e.n then e.(delta := e.delta + 1) else e;
      if x[j] < e.n && e'.delta > MAX_INT {
        SweepTooFar(x, e', j + 1, d);
      } else {
        SweepDecode(x, e', j + 1, d);
      }
    } else {
      hide Decoding;
      EmitInSweep(x, e, j);
      EmitFits(x, e, j, d);
      var total := Total(x, e, j, d);
      var r := Sweep(x, Emit(e), j + 1);
      SweepErrors(x, Emit(e), j + 1);
      if r.Ok? {
        DecodingReads(e.delta, r.value, d);
      }
      if total <= MAX_INT {
        SweepEmit(x, e, j, d);
        SweepDecode(x, Emit(e), j + 1, InsertAt(d, total));
      }
    }
  }

  lemma EmitInSweep(x: seq<CodePoint>, e: Encoder, j: nat)
    requires InSweep(x, e, j) && j < |x| && x[j] == e.n
    ensures InSweep(x, Emit(e), j + 1)
  {
    HandledStep(x, e.n, j);
  }

  lemma {:induction false} KeepWhole(x: seq<nat>, n: nat)
    requires |Keep(x, n)| >= |x|
    ensures Keep(x, n) == x && forall k :: 0 <= k < |x| ==> x[k] < n
  {
    if x != [] {
      KeepWhole(x[1..], n);
      assert forall k :: 0 < k < |x| ==> x[k] == x[1..][k - 1];
    }
  }

  /** Once `delta` has passed MAX_INT before the first occurrence, that one cannot fit. */
  lemma {:induction false} SweepTooFar(x: seq<CodePoint>, e: Encoder, j: nat, d: Decoder)
    requires Related(x, e, j, d) && |x| <= MAX_INT && e.delta > MAX_INT
    ensures !FitsFrom(x, e.n, j)
    decreases |x| - j
  {
    hide Handled, FitsFrom, DecoderOk, LargestBelow;
    if e.n in x[..j] {
      assert false;
    } else if j < |x| && x[j] == e.n {
      EmitFits(x, e, j, d);
    } else {
      assert x[..|x|] == x;
      SweepPast(x, e, j, d);
      SweepTooFar(x, if x[j] < e.n then e.(delta := e.delta + 1) else e, j + 1, d);
    }
  }

  // ------------------------------------------------------------ canonicality

  /**
   * A decoder that will end in `y` has no choice: from a state related to the
   * encoder's sweep over `y` at an element to be handled, the next integer it
   * reads inserts that element.
   */
  lemma {:induction false} OnlyNextInsertion(y: seq<CodePoint>, e: Encoder, j: nat, d: Decoder, s: seq<CodeUnit>, total: nat)
    requires Related(y, e, j, d) && j < |y| && y[j] == e.n
    requires d.i <= total <= MAX_INT && Decoding(s, InsertAt(d, total)) == Ok(y)
    ensures total == Total(y, e, j, d)
  {
    hide Decoding, Keep, Handled, Wrap, LargestBelow, Adapt;
    var d' := InsertAt(d, total);
    InsertKeepsOk(d, total);
    RunKeeps(s, d', y);
    OnlyNextPlace(y, e.n, j, d, d'.n, d'.i - 1);
    TotalWraps(y, e, j, d);
    WrapUndone(d.n, total, |d.out| + 1);
    WrapUndone(d.n, Total(y, e, j, d), |d.out| + 1);
  }

  /** The place of that insertion, from what the run after it leaves in `y`. */
  lemma OnlyNextPlace(y: seq<CodePoint>, n: nat, j: nat, d: Decoder, n': nat, p': nat)
    requires j < |y| && y[j] == n && DecoderOk(d) && d.out == Handled(y, n, j)
    requires p' <= |d.out| && d.n <= n && (n' == d.n ==> d.i <= p')
    requires d.n == n ==> d.i <= |Keep(y[..j], n + 1)|
    requires d.n <= n'
    requires forall c :: 0 <= c <= n' ==> Keep(y, c) == Keep(Insert(d.out, p', n'), c)
    requires |Keep(y, n' + 1)| >= |d.out| + 1
    requires Keep(y, n' + 1)[..p' + 1] == Insert(d.out, p', n')[..p' + 1]
    ensures n' == n && p' == |Keep(y[..j], n + 1)|
  {
    hide Keep, Handled;
    LowerPart(y, n, j);
    if n' > n {
      KeepInsert(d.out, p', n', n + 1);
    } else if n' == n {
      SamePosition(d.out, n, |Keep(y[..j], n + 1)|, p', Keep(y, n + 1));
    }
  }

  /** What a sweep over `y` has handled, against the elements of `y` below and up to its code point. */
  lemma LowerPart(y: seq<CodePoint>, n: nat, j: nat)
    requires j < |y| && y[j] == n
    ensures var p := |Keep(y[..j], n + 1)|;
            p <= |Handled(y, n, j)| < |Keep(y, n + 1)| &&
            Keep(y, n + 1)[..p + 1] == Handled(y, n, j)[..p] + [n]
    ensures forall c :: 0 <= c <= n ==> |Keep(y, c)| <= |Handled(y, n, j)|
  {
    hide Keep;
    var a := Keep(y[..j], n + 1);
    assert y == y[..j] + y[j..] && y[j..] == [n] + y[j + 1..];
    KeepAppend(y[..j], y[j..], n + 1);
    KeepAppend([n], y[j + 1..], n + 1);
    KeepAll([n], n + 1);
    KeepMono(y[j + 1..], n, n + 1);
    HandledStep(y, n, j);
    forall c | 0 <= c <= n ensures |Keep(y, c)| <= |Handled(y, n, j)| {
      KeepAppend(y[..j], y[j..], c);
      KeepMono(y[..j], c, n + 1);
      KeepMono(y[j..], c, n);
    }
  }

  lemma SamePosition(out: seq<nat>, n: nat, p: nat, p': nat, kept: seq<nat>)
    requires p <= |out| < |kept| && p' <= |out|
    requires kept[..p + 1] == out[..p] + [n]
    requires kept[..p' + 1] == Insert(out, p', n)[..p' + 1]
    requires forall k :: p <= k < |out| || p' <= k < |out| ==> out[k] < n
    ensures p == p'
  {
    assert kept[p] == kept[..p + 1][p] == n;
    assert kept[p'] == kept[..p' + 1][p'] == n;
    assert forall k :: 0 <= k < p ==> kept[k] == kept[..p + 1][k] == out[k];
    assert forall k :: 0 <= k < p' ==> kept[k] == kept[..p' + 1][k] == out[k];
  }

  lemma {:induction false} RoundsCanonical(y: seq<CodePoint>, e: Encoder, d: Decoder, s: seq<CodeUnit>)
    requires RelatedRound(y, e, d) && |y| <= MAX_INT && Decoding(s, d) == Ok(y)
    ensures Rounds(y, e) == Ok(Lower(s))
    decreases |y| - |Keep(y, e.n)|, 0
  {
    if e.handled >= |y| {
      hide Sweep, Keep, LargestBelow, NextCodePoint, DecoderOk, Decoding;
      NothingLeft(s, d, y);
    } else {
      hide Sweep, Decoding, Handled, Keep, LargestBelow, NextCodePoint, Times, DecoderOk;
      RoundStart(y, e);
      var e' := RoundToSweep(y, e, d);
      SweepCanonical(y, e', 0, d, s);
    }
  }

  lemma {:induction false} NothingLeft(s: seq<CodeUnit>, d: Decoder, y: seq<nat>)
    requires Decoding(s, d) == Ok(y) && |d.out| >= |y|
    ensures s == []
    decreases |s|
  {
    if s != [] {
      var (total, rest) := ReadInt(s, d.i, 1, BASE, d.bias).value;
      NothingLeft(rest, InsertAt(d, total), y);
    }
  }

  lemma {:induction false} SweepCanonical(y: seq<CodePoint>, e: Encoder, j: nat, d: Decoder, s: seq<CodeUnit>)
    requires Related(y, e, j, d) && |y| <= MAX_INT && Decoding(s, d) == Ok(y)
    ensures e.delta <= MAX_INT && Sweep(y, e, j) == Ok(Lower(s))
    decreases |y| - |Keep(y, e.n + 1)|, |y| - j + 1
  {
    hide Rounds, Keep, Handled, Times, Digits, LargestBelow, DecoderOk, InsertAt, FitsFrom, Decoding, Adapt, ReadInt;
    if j == |y| {
      HandledEnds(y, e.n);
      DeltaAtEnd(y, e, d);
      SweepToRound(y, e, d);
      RoundsCanonical(y, e.(n := e.n + 1, delta := e.delta + 1), d, s);
    } else if y[j] != e.n {
      SweepPast(y, e, j, d);
      SweepCanonical(y, if y[j] < e.n then e.(delta := e.delta + 1) else e, j + 1, d, s);
    } else {
      EmitInSweep(y, e, j);
      LowerPart(y, e.n, j);
      var q, rest := DecodingStep(s, d, y);
      OnlyNextInsertion(y, e, j, d, rest, d.i + q);
      SweepEmit(y, e, j, d);
      SweepCanonical(y, Emit(e), j + 1, InsertAt(d, d.i + q), rest);
    }
  }

  /** At the end of a sweep the way to its position is within one round. */
  lemma DeltaAtEnd(y: seq<CodePoint>, e: Encoder, d: Decoder)
    requires Related(y, e, |y|, d)
    ensures e.delta <= |y|
  {
    assert y[..|y|] == y;
  }

  /** A run that still lacks an element reads another integer, in the encoder's own digits. */
  lemma {:induction false} DecodingStep(s: seq<CodeUnit>, d: Decoder, y: seq<nat>) returns (q: nat, rest: seq<CodeUnit>)
    requires Decoding(s, d) == Ok(y) && |d.out| < |y|
    ensures Lower(s) == Digits(q, BASE, d.bias) + Lower(rest)
    ensures d.i + q <= MAX_INT && Decoding(rest, InsertAt(d, d.i + q)) == Ok(y)
  {
    q, rest := ReadIntCanonical(s, d.i, 1, BASE, d.bias);
  }
}
