/**
 * The main loops of lib/punycode.js as functions on their loop state: the
 * encoder's sorted sweep over the input and the decoder's insertion machine,
 * with every overflow guard. What the two loops do to each other is proved here.
 */
module PunycodeSteps {
  import opened CodeUnits
  import opened Results
  import opened PunycodeVarInt

  const INITIAL_BIAS: nat := 72
  const INITIAL_N: nat := 128

  // ------------------------------------------------- elements below a bound

  /** The elements of `x` smaller than `n`, in order. */
  function Keep(x: seq<nat>, n: nat): (r: seq<nat>)
    ensures |r| <= |x|
  {
    if x == [] then [] else (if x[0] < n then [x[0]] else []) + Keep(x[1..], n)
  }

  /** What has been handled once a sweep for `n` has passed `j` elements. */
  function Handled(x: seq<nat>, n: nat, j: nat): seq<nat>
    requires j <= |x|
  {
    Keep(x[..j], n + 1) + Keep(x[j..], n)
  }

  lemma {:induction false} KeepAppend(a: seq<nat>, b: seq<nat>, n: nat)
    ensures Keep(a + b, n) == Keep(a, n) + Keep(b, n)
  {
    if a == [] {
      assert a + b == b;
    } else {
      assert (a + b)[1..] == a[1..] + b;
      KeepAppend(a[1..], b, n);
    }
  }

  lemma {:induction false} KeepAll(x: seq<nat>, n: nat)
    requires forall k :: 0 <= k < |x| ==> x[k] < n
    ensures Keep(x, n) == x
  {
    if x != [] { KeepAll(x[1..], n); }
  }

  /** Nothing between the two bounds: the same elements are kept. */
  lemma {:induction false} KeepGap(x: seq<nat>, n: nat, m: nat)
    requires n <= m && forall k :: 0 <= k < |x| ==> x[k] < n || m <= x[k]
    ensures Keep(x, n) == Keep(x, m)
  {
    if x != [] { KeepGap(x[1..], n, m); }
  }

  lemma {:induction false} KeepKeep(x: seq<nat>, n: nat, m: nat)
    requires m <= n
    ensures Keep(Keep(x, n), m) == Keep(x, m)
  {
    if x != [] {
      KeepKeep(x[1..], n, m);
      KeepAppend(if x[0] < n then [x[0]] else [], Keep(x[1..], n), m);
    }
  }

  /** Fewer elements than the list has means that one is left out. */
  lemma {:induction false} KeepShort(x: seq<nat>, n: nat) returns (k: nat)
    requires |Keep(x, n)| < |x|
    ensures k < |x| && x[k] >= n
  {
    if x[0] >= n { k := 0; } else { k := KeepShort(x[1..], n); k := k + 1; }
  }

  lemma {:induction false} KeepMono(x: seq<nat>, n: nat, m: nat)
    requires n <= m
    ensures |Keep(x, n)| <= |Keep(x, m)|
    ensures (exists k :: 0 <= k < |x| && n <= x[k] < m) ==> |Keep(x, n)| < |Keep(x, m)|
  {
    if x != [] {
      KeepMono(x[1..], n, m);
      if k :| 0 <= k < |x| && n <= x[k] < m {
        assert k > 0 ==> x[1..][k - 1] == x[k];
      }
    }
  }

  lemma KeepLast(x: seq<nat>, n: nat, j: nat)
    requires j < |x|
    ensures Keep(x[..j + 1], n + 1) == Keep(x[..j], n + 1) + (if x[j] <= n then [x[j]] else [])
    ensures Keep(x[j..], n) == (if x[j] < n then [x[j]] else []) + Keep(x[j + 1..], n)
  {
    assert x[..j + 1] == x[..j] + [x[j]];
    KeepAppend(x[..j], [x[j]], n + 1);
    assert Keep([x[j]], n + 1) == (if x[j] <= n then [x[j]] else []) + Keep([], n + 1);
    assert x[j..][1..] == x[j + 1..];
  }

  /** Moving a sweep for `n` past one element. */
  lemma HandledStep(x: seq<nat>, n: nat, j: nat)
    requires j < |x|
    ensures Keep(x[..j + 1], n + 1) == Keep(x[..j], n + 1) + (if x[j] <= n then [x[j]] else [])
    ensures Keep(x[j..], n) == (if x[j] < n then [x[j]] else []) + Keep(x[j + 1..], n)
    ensures x[j] != n ==> Handled(x, n, j + 1) == Handled(x, n, j)
    ensures x[j] == n ==> Handled(x, n, j + 1) == Insert(Handled(x, n, j), |Keep(x[..j], n + 1)|, n)
  {
    hide Keep;
    KeepLast(x, n, j);
    var a, b := Keep(x[..j], n + 1), Keep(x[j + 1..], n);
    if x[j] == n {
      assert Handled(x, n, j) == a + b;
      assert (a + b)[..|a|] == a && (a + b)[|a|..] == b;
    } else if x[j] < n {
      assert Handled(x, n, j) == a + ([x[j]] + b);
      assert Handled(x, n, j + 1) == (a + [x[j]]) + b;
    }
  }

  lemma HandledEnds(x: seq<nat>, n: nat)
    ensures Handled(x, n, 0) == Keep(x, n)
    ensures Handled(x, n, |x|) == Keep(x, n + 1)
  {
    assert x[..0] == [] && x[0..] == x && x[..|x|] == x && x[|x|..] == [];
  }

  function Insert(s: seq<nat>, p: nat, n: nat): seq<nat>
    requires p <= |s|
  {
    s[..p] + [n] + s[p..]
  }

  // ------------------------------------------------- whole rounds of positions

  /** The positions in `rounds` rounds of `len` positions each. */
  function Times(rounds: nat, len: nat): nat {
    if rounds == 0 then 0 else len + Times(rounds - 1, len)
  }

  lemma {:induction false} TimesIsProduct(rounds: nat, len: nat)
    ensures Times(rounds, len) == rounds * len
  {
    if rounds > 0 {
      TimesIsProduct(rounds - 1, len);
      assert rounds * len == (rounds - 1) * len + len;
    }
  }

  lemma {:induction false} TimesAdd(a: nat, b: nat, len: nat)
    ensures Times(a + b, len) == Times(a, len) + Times(b, len)
  {
    if a > 0 { TimesAdd(a - 1, b, len); }
  }

  // ---------------------------------------------------------------- encoder

  /** The encoder's loop state; `basic` is the number of basic code points. */
  datatype Encoder = Encoder(n: nat, delta: nat, bias: nat, handled: nat, basic: nat)

  /** The smallest element that is at least `n`, or MAX_INT when there is none below it. */
  function NextCodePoint(x: seq<nat>, n: nat): (m: nat)
    ensures forall k :: 0 <= k < |x| && n <= x[k] < MAX_INT ==> m <= x[k]
    ensures m == MAX_INT || (m in x && n <= m < MAX_INT)
  {
    if x == [] then MAX_INT
    else
      var m := NextCodePoint(x[..|x| - 1], n);
      var c := x[|x| - 1];
      assert x == x[..|x| - 1] + [c];
      if n <= c < m then c else m
  }

  ghost predicate InRound(x: seq<CodePoint>, e: Encoder) {
    e.handled == |Keep(x, e.n)|
  }

  ghost predicate InSweep(x: seq<CodePoint>, e: Encoder, j: nat) {
    j <= |x| && e.handled == |Handled(x, e.n, j)| && e.n in x
  }

  /** The digits of `e.delta` with the state after them. */
  function Emit(e: Encoder): Encoder {
    e.(delta := 0, handled := e.handled + 1, bias := Adapt(e.delta, e.handled + 1, e.handled == e.basic))
  }

  /** One round of the main loop from its head: what it and all later rounds write. */
  function Rounds(x: seq<CodePoint>, e: Encoder): Result<seq<CodeUnit>, Error>
    requires InRound(x, e)
    decreases |x| - |Keep(x, e.n)|, 0
  {
    if e.handled >= |x| then Ok([])
    else
      var m := NextCodePoint(x, e.n);
      RoundStart(x, e);
      var delta := e.delta + Times(m - e.n, e.handled + 1);
      if delta > MAX_INT then Err(Overflow) else Sweep(x, e.(n := m, delta := delta), 0)
  }

  /** The rest of a round, from element `j` on, and all later rounds. */
  function Sweep(x: seq<CodePoint>, e: Encoder, j: nat): Result<seq<CodeUnit>, Error>
    requires InSweep(x, e, j)
    decreases |x| - |Keep(x, e.n + 1)|, |x| - j + 1
  {
    if j == |x| then
      HandledEnds(x, e.n);
      Rounds(x, e.(n := e.n + 1, delta := e.delta + 1))
    else
      HandledStep(x, e.n, j);
      if x[j] < e.n then
        if e.delta + 1 > MAX_INT then Err(Overflow) else Sweep(x, e.(delta := e.delta + 1), j + 1)
      else if x[j] == e.n then
        var r := Sweep(x, Emit(e), j + 1);
        if r.Ok? then Ok(Digits(e.delta, BASE, e.bias) + r.value) else r
      else Sweep(x, e, j + 1)
  }

  /** A round with elements left finds the next one, and handles it. */
  lemma RoundStart(x: seq<CodePoint>, e: Encoder)
    requires InRound(x, e) && e.handled < |x|
    ensures var m := NextCodePoint(x, e.n);
            m in x && m >= e.n && Keep(x, m) == Keep(x, e.n) == Handled(x, m, 0) &&
            |Keep(x, e.n)| < |Keep(x, m + 1)|
  {
    hide Handled, NextCodePoint;
    var k := KeepShort(x, e.n);
    var m := NextCodePoint(x, e.n);
    assert m <= x[k];
    KeepGap(x, e.n, m);
    KeepMono(x, e.n, m + 1);
    HandledEnds(x, m);
  }

  function Start(x: seq<CodePoint>): Encoder {
    Encoder(INITIAL_N, 0, INITIAL_BIAS, |Keep(x, INITIAL_N)|, |Keep(x, INITIAL_N)|)
  }

  // ---------------------------------------------------------------- decoder

  datatype Decoder = Decoder(out: seq<nat>, n: nat, i: nat, bias: nat)

  /** The decoder's position `i` wraps around from `len` to 0 and takes `n` up by one each time. */
  function Wrap(n: nat, i: nat, len: nat): (r: (nat, nat))
    requires len > 0
    ensures r.1 < len && r.0 >= n
    ensures r.0 == n ==> r.1 == i
    decreases i
  {
    if i < len then (n, i) else Wrap(n + 1, i - len, len)
  }

  lemma {:induction false} WrapSum(n: nat, rounds: nat, p: nat, len: nat)
    requires p < len
    ensures Wrap(n, Times(rounds, len) + p, len) == (n + rounds, p)
    decreases rounds
  {
    if rounds > 0 { WrapSum(n + 1, rounds - 1, p, len); }
  }

  /** All the wrapping at once, as the original does it. */
  lemma WrapIsDivision(n: nat, i: nat, len: nat)
    requires len > 0
    ensures i / len >= 0 && Wrap(n, i, len) == (n + i / len, i % len)
  {
    DivBound(i, len, 0);
    TimesIsProduct(i / len, len);
    WrapSum(n, i / len, i % len, len);
  }

  lemma {:induction false} WrapUndone(n: nat, i: nat, len: nat)
    requires len > 0
    ensures i == Times(Wrap(n, i, len).0 - n, len) + Wrap(n, i, len).1
    decreases i
  {
    if i >= len { WrapUndone(n + 1, i - len, len); }
  }

  /** One decoded sum `total`: where the wrapped position falls and what is inserted there. */
  function InsertAt(d: Decoder, total: nat): Decoder
    requires total >= d.i
  {
    var len := |d.out| + 1;
    var (n, p) := Wrap(d.n, total, len);
    Decoder(Insert(d.out, p, n), n, p + 1, Adapt(total - d.i, len, d.i == 0))
  }

  /** The decoder's main loop. */
  function Decoding(s: seq<CodeUnit>, d: Decoder): Result<seq<nat>, Error>
    decreases |s|
  {
    if s == [] then Ok(d.out)
    else
      var r := ReadInt(s, d.i, 1, BASE, d.bias);
      if r.Err? then Err(r.error)
      else if InsertAt(d, r.value.0).n > MAX_INT then Err(Overflow)
      else Decoding(r.value.1, InsertAt(d, r.value.0))
  }

  ghost predicate DecoderOk(d: Decoder) {
    && d.i <= |d.out|
    && (forall k :: 0 <= k < |d.out| ==> d.out[k] <= d.n)
    && (forall k :: d.i <= k < |d.out| ==> d.out[k] < d.n)
    && d.bias < BIAS_BOUND
  }

  lemma {:induction false} InsertKeepsOk(d: Decoder, total: nat)
    requires DecoderOk(d) && d.i <= total <= MAX_INT
    ensures DecoderOk(InsertAt(d, total))
    ensures InsertAt(d, total).n >= d.n
    ensures InsertAt(d, total).n == d.n ==> InsertAt(d, total).i == total + 1
    ensures InsertAt(d, total).out == Insert(d.out, InsertAt(d, total).i - 1, InsertAt(d, total).n)
  {
    AdaptBounded(total - d.i, |d.out| + 1, d.i == 0);
    var (n, p) := Wrap(d.n, total, |d.out| + 1);
    InsertOk(d.out, d.n, d.i, p, n);
  }

  lemma InsertOk(out: seq<nat>, n: nat, i: nat, p: nat, n': nat)
    requires i <= |out| && p <= |out| && n' >= n && (n' == n ==> p >= i)
    requires forall k :: 0 <= k < |out| ==> out[k] <= n
    requires forall k :: i <= k < |out| ==> out[k] < n
    ensures forall k :: 0 <= k <= |out| ==> Insert(out, p, n')[k] <= n'
    ensures forall k :: p + 1 <= k <= |out| ==> Insert(out, p, n')[k] < n'
  {
  }

  /**
   * Later insertions never reach back: a whole run of the decoder leaves the
   * elements below `d.n`, and those inserted before position `d.i`, where they were.
   */
  lemma {:induction false} RunKeeps(s: seq<CodeUnit>, d: Decoder, y: seq<nat>)
    requires DecoderOk(d) && Decoding(s, d) == Ok(y)
    ensures forall c :: 0 <= c <= d.n ==> Keep(y, c) == Keep(d.out, c)
    ensures |Keep(y, d.n + 1)| >= |d.out| && d.out[..d.i] == Keep(y, d.n + 1)[..d.i]
    decreases |s|
  {
    hide Digits, Wrap, Adapt, ReadInt, Keep;
    KeepAll(d.out, d.n + 1);
    if s != [] {
      var q, rest := ReadIntCanonical(s, d.i, 1, BASE, d.bias);
      var total := AddDigit(d.i, q, 1);
      var d' := InsertAt(d, total);
      InsertKeepsOk(d, total);
      RunKeeps(rest, d', y);
      KeepAll(d'.out, d'.n + 1);
      var p := d'.i - 1;
      forall c | 0 <= c <= d'.n ensures Keep(d'.out, c) == Keep(d.out, c) {
        KeepInsert(d.out, p, d'.n, c);
      }
      if d'.n == d.n {
        RunKeepsSame(d.out, d.i, p, d.n, Keep(y, d.n + 1));
      }
    }
  }

  lemma RunKeepsSame(out: seq<nat>, i: nat, p: nat, n: nat, kept: seq<nat>)
    requires i <= p <= |out| < |kept|
    requires Insert(out, p, n)[..p + 1] == kept[..p + 1]
    ensures out[..i] == kept[..i]
  {
    assert out[..i] == Insert(out, p, n)[..p + 1][..i];
    assert kept[..i] == kept[..p + 1][..i];
  }

  lemma KeepInsert(s: seq<nat>, p: nat, n: nat, c: nat)
    requires p <= |s| && c <= n
    ensures Keep(Insert(s, p, n), c) == Keep(s, c)
  {
    assert s == s[..p] + s[p..];
    KeepAppend(s[..p], s[p..], c);
    KeepAppend(s[..p] + [n], s[p..], c);
    KeepAppend(s[..p], [n], c);
  }

  // ------------------------------------------------------------- simulation

  /** The largest non-basic element below `c`: where the decoder's `n` stands when it moves on to `c`. */
  function LargestBelow(x: seq<nat>, c: nat): (r: nat)
    ensures r == INITIAL_N || INITIAL_N < r < c
  {
    if x == [] then INITIAL_N
    else
      var r := LargestBelow(x[1..], c);
      if r < x[0] < c then x[0] else r
  }

  /** The sum that the decoder reaches when it inserts the first occurrence `x[j]` of a code point. */
  function Reach(x: seq<nat>, j: nat): nat
    requires j < |x| && x[j] >= INITIAL_N
  {
    Times(x[j] - LargestBelow(x, x[j]), |Keep(x, x[j])| + 1) + |Keep(x[..j], x[j])|
  }

  /** `x[j]` is the first occurrence of its code point, and a sweep for `n` at element `at` has it ahead. */
  ghost predicate FirstAhead(x: seq<nat>, n: nat, at: nat, j: nat)
    requires j < |x|
  {
    x[j] !in x[..j] && (x[j] > n || (x[j] == n && j >= at))
  }

  /** Every sum still to be reached fits. */
  ghost predicate FitsFrom(x: seq<nat>, n: nat, at: nat)
    requires n >= INITIAL_N
  {
    forall j :: 0 <= j < |x| && FirstAhead(x, n, at, j) ==> Reach(x, j) <= MAX_INT
  }

  lemma {:induction false} LargestBelowGap(x: seq<nat>, n: nat, m: nat)
    requires n <= m && forall k :: 0 <= k < |x| ==> x[k] < n || m <= x[k]
    ensures LargestBelow(x, n) == LargestBelow(x, m)
  {
    if x != [] { LargestBelowGap(x[1..], n, m); }
  }

  lemma {:induction false} LargestBelowNext(x: seq<nat>, n: nat)
    requires n in x && n >= INITIAL_N
    ensures LargestBelow(x, n + 1) == n
  {
    if x[0] == n {
    } else {
      LargestBelowNext(x[1..], n);
    }
  }

  /**
   * The encoder in a sweep for `e.n` at element `j` against the decoder that has
   * read all that was written so far: the decoder holds exactly what has been
   * handled, and `e.delta` is the way from its state to the sweep's position.
   */
  ghost predicate Related(x: seq<CodePoint>, e: Encoder, j: nat, d: Decoder) {
    && InSweep(x, e, j) && DecoderOk(d)
    && e.n >= d.n >= INITIAL_N
    && d.out == Handled(x, e.n, j) && d.bias == e.bias
    && e.handled >= e.basic && (d.i == 0 <==> e.handled == e.basic)
    && e.delta + d.i == Times(e.n - d.n, e.handled + 1) + |Keep(x[..j], e.n + 1)|
    && d.n == (if e.n in x[..j] then e.n else LargestBelow(x, e.n))
  }

  /** The same at the head of a round, when no element from `e.n` on has been handled. */
  ghost predicate RelatedRound(x: seq<CodePoint>, e: Encoder, d: Decoder) {
    && InRound(x, e) && DecoderOk(d)
    && e.n >= d.n >= INITIAL_N
    && d.out == Keep(x, e.n) && d.bias == e.bias
    && e.handled >= e.basic && (d.i == 0 <==> e.handled == e.basic)
    && e.delta + d.i == Times(e.n - d.n, e.handled + 1)
    && d.n == LargestBelow(x, e.n)
  }

  lemma RelatedStart(x: seq<CodePoint>)
    ensures RelatedRound(x, Start(x), Decoder(Keep(x, INITIAL_N), INITIAL_N, 0, INITIAL_BIAS))
  {
  }

  /** From the head of a round to the start of its sweep. */
  lemma {:induction false} RoundToSweep(x: seq<CodePoint>, e: Encoder, d: Decoder) returns (e': Encoder)
    requires RelatedRound(x, e, d) && e.handled < |x|
    ensures e' == e.(n := NextCodePoint(x, e.n), delta := e'.delta) && Related(x, e', 0, d)
    ensures e'.delta == e.delta + Times(e'.n - e.n, e.handled + 1)
    ensures e'.n in x && e'.n >= e.n
    ensures FitsFrom(x, e.n, 0) <==> FitsFrom(x, e'.n, 0)
  {
    hide NextCodePoint, LargestBelow, Times, Keep, Handled, FitsFrom, DecoderOk;
    RoundStart(x, e);
    var m, h := NextCodePoint(x, e.n), e.handled + 1;
    NothingBetween(x, e.n);
    e' := e.(n := m, delta := e.delta + Times(m - e.n, h));
    LargestBelowGap(x, e.n, m);
    TimesBoth(m, e.n, d.n, h);
    FitsGap(x, e.n, m);
    assert x[..0] == [];
    KeepNothing(m + 1);
  }

  lemma KeepNothing(n: nat)
    ensures Keep([], n) == []
  {
  }

  lemma NothingBetween(x: seq<CodePoint>, n: nat)
    ensures forall k :: 0 <= k < |x| ==> x[k] < n || NextCodePoint(x, n) <= x[k]
  {
  }

  lemma TimesBoth(m: nat, n: nat, from: nat, len: nat)
    requires from <= n <= m
    ensures Times(m - from, len) == Times(m - n, len) + Times(n - from, len)
  {
    TimesAdd(m - n, n - from, len);
  }

  /** Where there is no element between, the sums still to be reached are the same. */
  lemma FitsGap(x: seq<CodePoint>, n: nat, m: nat)
    requires INITIAL_N <= n <= m && forall k :: 0 <= k < |x| ==> x[k] < n || m <= x[k]
    ensures FitsFrom(x, n, 0) <==> FitsFrom(x, m, 0)
  {
    hide Reach;
    assert forall j :: 0 <= j < |x| ==> (FirstAhead(x, n, 0, j) <==> FirstAhead(x, m, 0, j));
  }

  /** From the end of a sweep to the head of the next round. */
  lemma {:induction false} SweepToRound(x: seq<CodePoint>, e: Encoder, d: Decoder)
    requires Related(x, e, |x|, d)
    ensures RelatedRound(x, e.(n := e.n + 1, delta := e.delta + 1), d)
    ensures FitsFrom(x, e.n, |x|) <==> FitsFrom(x, e.n + 1, 0)
  {
    HandledEnds(x, e.n);
    assert x[..|x|] == x;
    LargestBelowNext(x, e.n);
    forall j | 0 <= j < |x| ensures FirstAhead(x, e.n, |x|, j) <==> FirstAhead(x, e.n + 1, 0, j) {
    }
  }

  /** Past an element that is not the one swept for: the decoder stands still. */
  lemma {:induction false} SweepPast(x: seq<CodePoint>, e: Encoder, j: nat, d: Decoder)
    requires Related(x, e, j, d) && j < |x| && x[j] != e.n
    ensures Related(x, if x[j] < e.n then e.(delta := e.delta + 1) else e, j + 1, d)
    ensures FitsFrom(x, e.n, j) <==> FitsFrom(x, e.n, j + 1)
  {
    HandledStep(x, e.n, j);
    assert x[..j + 1] == x[..j] + [x[j]];
    forall k | 0 <= k < |x| ensures FirstAhead(x, e.n, j, k) <==> FirstAhead(x, e.n, j + 1, k) {
    }
  }

  /** The sum that the decoder reaches on the digits written for `x[j] == e.n`. */
  function Total(x: seq<CodePoint>, e: Encoder, j: nat, d: Decoder): nat
    requires Related(x, e, j, d)
  {
    e.delta + d.i
  }

  /** That sum wraps to the sweep's position. */
  lemma {:induction false} TotalWraps(x: seq<CodePoint>, e: Encoder, j: nat, d: Decoder)
    requires Related(x, e, j, d)
    requires j < |x| && x[j] == e.n
    ensures |d.out| == e.handled
    ensures Wrap(d.n, Total(x, e, j, d), e.handled + 1) == (e.n, |Keep(x[..j], e.n + 1)|)
  {
    WrapSum(d.n, e.n - d.n, |Keep(x[..j], e.n + 1)|, e.handled + 1);
  }

  /** So the decoder inserts the right code point in the right place. */
  lemma {:induction false} SweepEmit(x: seq<CodePoint>, e: Encoder, j: nat, d: Decoder)
    requires Related(x, e, j, d) && j < |x| && x[j] == e.n
    requires Total(x, e, j, d) <= MAX_INT
    ensures InsertAt(d, Total(x, e, j, d)).n == e.n
    ensures Related(x, Emit(e), j + 1, InsertAt(d, Total(x, e, j, d)))
  {
    TotalWraps(x, e, j, d);
    InsertKeepsOk(d, Total(x, e, j, d));
    RelatedAfter(x, e, j, d, InsertAt(d, Total(x, e, j, d)));
  }

  lemma {:induction false} RelatedAfter(x: seq<CodePoint>, e: Encoder, j: nat, d: Decoder, d': Decoder)
    requires j < |x| && x[j] == e.n >= INITIAL_N
    requires InSweep(x, e, j) && d.out == Handled(x, e.n, j) && e.handled >= e.basic
    requires DecoderOk(d')
    requires d' == Decoder(Insert(d.out, |Keep(x[..j], e.n + 1)|, e.n), e.n, |Keep(x[..j], e.n + 1)| + 1, Emit(e).bias)
    ensures Related(x, Emit(e), j + 1, d')
  {
    HandledStep(x, e.n, j);
    assert x[..j + 1] == x[..j] + [x[j]];
  }

  /** The first occurrences still ahead fit exactly when this one does and those after it do. */
  lemma {:induction false} EmitFits(x: seq<CodePoint>, e: Encoder, j: nat, d: Decoder)
    requires Related(x, e, j, d) && j < |x| && x[j] == e.n && |x| <= MAX_INT
    ensures FitsFrom(x, e.n, j) <==> Total(x, e, j, d) <= MAX_INT && FitsFrom(x, e.n, j + 1)
  {
    if e.n in x[..j] {
      HandledStep(x, e.n, j);
      assert Total(x, e, j, d) <= |x|;
    } else {
      FirstHandled(x, e.n, j);
      assert Total(x, e, j, d) == Reach(x, j);
      assert FirstAhead(x, e.n, j, j);
    }
    forall k | 0 <= k < |x| && k != j ensures FirstAhead(x, e.n, j, k) <==> FirstAhead(x, e.n, j + 1, k) {
    }
  }

  /** Before its first occurrence, a code point's sweep has handled exactly the smaller elements. */
  lemma {:induction false} FirstHandled(x: seq<nat>, n: nat, j: nat)
    requires j <= |x| && n !in x[..j]
    ensures Keep(x[..j], n + 1) == Keep(x[..j], n)
    ensures Handled(x, n, j) == Keep(x, n)
  {
    KeepGap(x[..j], n, n + 1);
    assert x == x[..j] + x[j..];
    KeepAppend(x[..j], x[j..], n);
  }
}
