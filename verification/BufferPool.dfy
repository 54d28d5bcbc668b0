/**
 * The pool of lib/buffer.js that small buffers are cut from. Sizes and offsets
 * are numbers, whole or not; typed arrays cut fractions off, and `alignPool`
 * works on the low 32 bits.
 */
module BufferPool {
  import opened Results

  const TWO_31: int := 0x8000_0000
  const TWO_32: int := 0x1_0000_0000
  /** The largest pool whose slices are safe. */
  const LARGEST: int := TWO_32 - 8

  /** A stretch of the pool with the given number. */
  datatype Slice = Slice(pool: nat, offset: nat, length: nat)

  /** `RangeError` stands for every way of throwing: a negative size or start, and a write that does not fit. */
  datatype Outcome = Pooled(slice: Slice) | Unpooled | RangeError

  /**
   * `setting` is `Buffer.poolSize`; `sizes` are those of the pools made so far,
   * the last of which is `allocPool`; `slices` are those handed out.
   */
  datatype State = State(setting: real, poolSize: real, poolOffset: real, sizes: seq<nat>, slices: seq<Slice>)

  function Trunc(x: real): int { if x >= 0.0 then x.Floor else -((-x).Floor) }

  function ToInt32(x: int): int {
    (x + TWO_31) % TWO_32 - TWO_31
  }

  /** `x | 7` for a 32-bit `x`. */
  function OrSeven(x: int): int { x - x % 8 + 7 }

  function Align(offset: real): real {
    if Trunc(offset) % 8 == 0 then offset else (OrSeven(ToInt32(Trunc(offset))) + 1) as real
  }

  /** `Buffer.poolSize >>> 1`. */
  function Half(setting: real): nat {
    Trunc(setting) % TWO_32 / 2
  }

  /** `createPool`, and whether it returns; it has set `poolSize` when it throws. */
  function WithNewPool(s: State): (State, bool) {
    if s.setting <= -1.0 then (s.(poolSize := s.setting), false)
    else
      var length := if s.setting < 0.0 then 0 else Trunc(s.setting);
      (s.(poolSize := s.setting, poolOffset := 0.0, sizes := s.sizes + [length]), true)
  }

  function Room(s: State, length: real): (State, bool) {
    if length > s.poolSize - s.poolOffset then WithNewPool(s) else (s, true)
  }

  /** A slice of as many bytes, where there is room. */
  function Cut(s: State, length: real): (State, Outcome)
    requires |s.sizes| > 0 && length >= 0.0
  {
    if s.poolOffset < 0.0 then (s, RangeError)
    else
      var slice := Slice(|s.sizes| - 1, s.poolOffset.Floor, length.Floor);
      (s.(poolOffset := Align(s.poolOffset + length), slices := s.slices + [slice]), Pooled(slice))
  }

  /** `allocate`, and `fromArrayLike` for an object of that length. */
  function Allocated(s: State, size: real): (State, Outcome)
    requires |s.sizes| > 0
  {
    if size <= 0.0 then (s, Unpooled)
    else if size < Half(s.setting) as real then
      var (s1, made) := Room(s, size);
      if made then Cut(s1, size) else (s1, RangeError)
    else (s, Unpooled)
  }

  /** `fromStringFast` for a string of `units` code units and `bytes` bytes, of which at most `written` are written. */
  function FromString(s: State, units: nat, bytes: nat, written: nat): (State, Outcome)
    requires |s.sizes| > 0
  {
    var length := if units * 4 < Half(s.setting) then units * 4 else bytes;
    if units >= Half(s.setting) || length >= Half(s.setting) then (s, Unpooled)
    else
      var (s1, made) := Room(s, length as real);
      if !made || !Writable(s1, length) then (s1, RangeError)
      else Cut(s1, (if written < length then written else length) as real)
  }

  /** The check of every write: it starts in the pool and has room in it. */
  predicate Writable(s: State, length: nat)
    requires |s.sizes| > 0
  {
    s.poolOffset >= 0.0 && length as real <= s.sizes[|s.sizes| - 1] as real - s.poolOffset
  }

  datatype Call = Allocating(size: real) | Encoding(units: nat, bytes: nat, written: nat) | Setting(poolSize: real)

  function Step(s: State, c: Call): (r: (State, Outcome))
    requires |s.sizes| > 0
    ensures |r.0.sizes| > 0
  {
    match c
    case Allocating(size) => Allocated(s, size)
    case Encoding(units, bytes, written) => FromString(s, units, bytes, written)
    case Setting(poolSize) => (s.(setting := poolSize), Unpooled)
  }

  const START: State := State(8192.0, 8192.0, 0.0, [8192], [])

  function After(calls: seq<Call>): (s: State)
    ensures |s.sizes| > 0
  {
    if calls == [] then START else Step(After(calls[..|calls| - 1]), calls[|calls| - 1]).0
  }

  // ------------------------------------------------------------------ invariant

  predicate Apart(a: Slice, b: Slice) {
    a.pool == b.pool ==> a.offset + a.length <= b.offset || b.offset + b.length <= a.offset
  }

  /** Every slice is in its pool, starts at a multiple of 8, and shares no byte with another. */
  ghost predicate Safe(s: State) {
    && (forall i :: 0 <= i < |s.slices| ==>
          var b := s.slices[i]; b.pool < |s.sizes| && b.offset % 8 == 0 && b.offset + b.length <= s.sizes[b.pool])
    && (forall i, j :: 0 <= i < j < |s.slices| ==> Apart(s.slices[i], s.slices[j]))
  }

  /** What is cut next comes after all that was cut, or cannot be cut at all; a pool size below zero is never used. */
  ghost predicate Kept(s: State, most: nat) {
    && |s.sizes| > 0 && s.poolSize <= most as real && s.setting <= most as real
    && (s.poolSize > -1.0 ==> s.sizes[|s.sizes| - 1] == if s.poolSize < 0.0 then 0 else s.poolSize.Floor)
    && Trunc(s.poolOffset) % 8 == 0
    && (s.poolOffset >= 0.0 ==> forall i :: 0 <= i < |s.slices| && s.slices[i].pool == |s.sizes| - 1 ==>
          s.slices[i].offset + s.slices[i].length <= s.poolOffset.Floor)
    && (most <= TWO_31 ==> s.poolOffset >= 0.0)
  }

  /** Aligning an offset up to the largest safe one goes up to the next multiple of 8, or below zero from 2^31 on. */
  lemma AlignUp(offset: real)
    requires 0.0 <= offset <= LARGEST as real
    ensures Trunc(Align(offset)) % 8 == 0 && (Align(offset) >= 0.0 ==> Align(offset).Floor >= offset.Floor)
    ensures offset <= TWO_31 as real ==> Align(offset) >= 0.0
  {
    hide ToInt32, OrSeven;
    var k := offset.Floor;
    assert 0 <= k <= LARGEST;
    if k % 8 != 0 {
      NextEight(k);
      WholeTrunc(OrSeven(ToInt32(k)) + 1);
    }
  }

  lemma NextEight(k: nat)
    requires k <= LARGEST && k % 8 != 0
    ensures var up := OrSeven(ToInt32(k)) + 1; up % 8 == 0 && (up >= 0 ==> up > k) && (k < TWO_31 ==> up >= 0)
  {
    hide ToInt32;
    LowBits(k);
    OrSevenFacts(ToInt32(k));
  }

  lemma LowBits(k: nat)
    requires k <= LARGEST
    ensures ToInt32(k) == if k < TWO_31 then k else k - TWO_32
  {
  }

  lemma OrSevenFacts(x: int)
    ensures (OrSeven(x) + 1) % 8 == 0 && OrSeven(x) >= x && OrSeven(x) < x + 8
  {
  }

  lemma WholeTrunc(k: int)
    ensures Trunc(k as real) == k && (k >= 0 ==> (k as real).Floor == k)
  {
  }

  lemma FloorSum(a: real, b: real)
    requires a >= 0.0 && b >= 0.0
    ensures a.Floor + b.Floor <= (a + b).Floor
  {
  }

  lemma FloorMono(a: real, b: real)
    requires a <= b
    ensures a.Floor <= b.Floor
  {
  }

  lemma CreateKept(s: State, most: nat)
    requires Kept(s, most) && Safe(s)
    ensures Kept(WithNewPool(s).0, most) && Safe(WithNewPool(s).0)
    ensures WithNewPool(s).1 <==> s.setting > -1.0
  {
    var s' := WithNewPool(s).0;
    assert forall p :: 0 <= p < |s.sizes| ==> s'.sizes[p] == s.sizes[p];
  }

  /** There is room after that, if there can be. */
  lemma RoomKept(s: State, length: real, most: nat)
    requires Kept(s, most) && Safe(s) && most <= LARGEST && 0.0 <= length < Half(s.setting) as real
    ensures var (s1, made) := Room(s, length);
            && Kept(s1, most) && Safe(s1) && (s.setting >= 0.0 ==> made)
            && (made && s1.poolOffset >= 0.0 ==>
                  length <= s1.poolSize - s1.poolOffset && s1.poolSize >= 0.0
                  && s1.sizes[|s1.sizes| - 1] == s1.poolSize.Floor)
  {
    hide Safe;
    HalfFits(s.setting);
    if length > s.poolSize - s.poolOffset {
      CreateKept(s, most);
    }
  }

  lemma {:induction false} CutKept(s: State, length: real, most: nat)
    requires Kept(s, most) && Safe(s) && most <= LARGEST && length >= 0.0
    requires s.poolOffset >= 0.0 ==>
               length <= s.poolSize - s.poolOffset && s.sizes[|s.sizes| - 1] == s.poolSize.Floor && s.poolSize >= 0.0
    ensures Kept(Cut(s, length).0, most) && Safe(Cut(s, length).0)
    ensures most <= TWO_31 ==> Cut(s, length).1.Pooled?
  {
    hide Align;
    if s.poolOffset >= 0.0 {
      AlignUp(s.poolOffset + length);
      FloorSum(s.poolOffset, length);
      FloorMono(s.poolOffset + length, s.poolSize);
    }
  }

  lemma HalfFits(setting: real)
    requires setting <= LARGEST as real
    ensures setting >= 0.0 ==> Half(setting) as real <= setting
    ensures -1.0 < setting < 0.0 ==> Half(setting) == 0
  {
  }

  /** A setting beyond the limit never comes in. */
  predicate Limited(c: Call, most: nat) {
    c.Setting? ==> c.poolSize <= most as real
  }

  /** Whole settings from 0 on. */
  predicate Plain(setting: real) {
    setting >= 0.0 && setting.Floor as real == setting
  }

  ghost predicate Settled(s: State) {
    |s.sizes| > 0 && Plain(s.setting) && Plain(s.poolSize)
  }

  lemma {:induction false} StepKept(s: State, c: Call, most: nat)
    requires Kept(s, most) && Safe(s) && Limited(c, most) && most <= LARGEST
    ensures Kept(Step(s, c).0, most) && Safe(Step(s, c).0)
    ensures Settled(s) && (c.Setting? ==> Plain(c.poolSize)) ==>
              Settled(Step(s, c).0) && (most <= TWO_31 ==> !Step(s, c).1.RangeError?)
  {
    hide Half, Safe, Cut, Room, Kept, Writable, Settled, Plain;
    match c
    case Allocating(size) =>
      if 0.0 < size < Half(s.setting) as real {
        AllocatedKept(s, size, most);
      }
    case Encoding(units, bytes, written) =>
      if units < Half(s.setting) && (if units * 4 < Half(s.setting) then units * 4 else bytes) < Half(s.setting) {
        EncodedKept(s, units, bytes, written, most);
      }
    case Setting(poolSize) => SettingKept(s, poolSize, most);
  }

  lemma AllocatedKept(s: State, size: real, most: nat)
    requires Kept(s, most) && Safe(s) && most <= LARGEST && 0.0 < size < Half(s.setting) as real
    ensures var (s', r) := Allocated(s, size);
            Kept(s', most) && Safe(s') && (Settled(s) ==> Settled(s') && (most <= TWO_31 ==> !r.RangeError?))
  {
    hide Half, Safe, Cut;
    RoomKept(s, size, most);
    var (s1, made) := Room(s, size);
    if made {
      CutKept(s1, size, most);
      CutSettled(s1, size);
    }
  }

  lemma CutSettled(s: State, length: real)
    requires |s.sizes| > 0 && length >= 0.0
    ensures Settled(s) ==> Settled(Cut(s, length).0)
  {
    hide Align, Plain;
  }

  lemma EncodedKept(s: State, units: nat, bytes: nat, written: nat, most: nat)
    requires Kept(s, most) && Safe(s) && most <= LARGEST && units < Half(s.setting)
    requires (if units * 4 < Half(s.setting) then units * 4 else bytes) < Half(s.setting)
    ensures var (s', r) := FromString(s, units, bytes, written);
            Kept(s', most) && Safe(s') && (Settled(s) ==> Settled(s') && (most <= TWO_31 ==> !r.RangeError?))
  {
    hide Half, Safe, Cut;
    var length := if units * 4 < Half(s.setting) then units * 4 else bytes;
    RoomKept(s, length as real, most);
    var (s1, made) := Room(s, length as real);
    if made && Writable(s1, length) {
      var used := if written < length then written else length;
      CutKept(s1, used as real, most);
      CutSettled(s1, used as real);
    }
  }

  lemma SettingKept(s: State, poolSize: real, most: nat)
    requires Kept(s, most) && Safe(s) && poolSize <= most as real
    ensures Kept(s.(setting := poolSize), most) && Safe(s.(setting := poolSize))
    ensures Settled(s) && Plain(poolSize) ==> Settled(s.(setting := poolSize))
  {
  }

  /**
   * However `Buffer.poolSize` changes in between, up to 2^32 - 8: every slice
   * lies in its pool at a multiple of 8, apart from every other. With whole
   * settings from 0 to 2^31 no call throws either.
   */
  lemma {:induction false} SlicesSafe(calls: seq<Call>, most: nat)
    requires 8192 <= most <= LARGEST && forall i :: 0 <= i < |calls| ==> Limited(calls[i], most)
    ensures Safe(After(calls)) && Kept(After(calls), most)
    ensures AllPlain(calls) ==> Settled(After(calls)) && (most <= TWO_31 ==> !Throws(calls))
    decreases |calls|
  {
    hide Safe, Kept, Step, Limited, Plain, Settled;
    if calls == [] {
      StartKept(most);
    } else {
      SlicesSafe(calls[..|calls| - 1], most);
      StepKept(After(calls[..|calls| - 1]), calls[|calls| - 1], most);
    }
  }

  predicate AllPlain(calls: seq<Call>) {
    forall i :: 0 <= i < |calls| && calls[i].Setting? ==> Plain(calls[i].poolSize)
  }

  /** The last call throws. */
  predicate Throws(calls: seq<Call>) {
    calls != [] && Step(After(calls[..|calls| - 1]), calls[|calls| - 1]).1.RangeError?
  }

  lemma StartKept(most: nat)
    requires most >= 8192
    ensures Kept(START, most) && Safe(START) && Settled(START)
  {
  }

  // ----------------------------------------------------------- beyond the limits

  lemma Extend(calls: seq<Call>, c: Call)
    ensures After(calls + [c]) == Step(After(calls), c).0
  {
    assert (calls + [c])[..|calls + [c]| - 1] == calls;
  }

  /** A pooled allocation in a pool that has room. */
  lemma Fits(calls: seq<Call>, s: State, size: real)
    requires After(calls) == s && 0.0 < size < Half(s.setting) as real
    requires size <= s.poolSize - s.poolOffset && s.poolOffset >= 0.0
    ensures After(calls + [Allocating(size)]) ==
            s.(poolOffset := Align(s.poolOffset + size),
               slices := s.slices + [Slice(|s.sizes| - 1, s.poolOffset.Floor, size.Floor)])
  {
    hide Half, Align;
    Extend(calls, Allocating(size));
  }

  /** The first allocation in a pool of a new, larger size. */
  lemma NewPool(setting: nat, size: nat)
    requires setting >= TWO_31 && 8192 < size < Half(setting as real) && size <= setting
    ensures After([Setting(setting as real), Allocating(size as real)]) ==
            State(setting as real, setting as real, Align(size as real), [8192, setting], [Slice(1, 0, size)])
  {
    hide Half, Align;
    Extend([], Setting(setting as real));
    assert [] + [Setting(setting as real)] == [Setting(setting as real)];
    Extend([Setting(setting as real)], Allocating(size as real));
    assert [Setting(setting as real)] + [Allocating(size as real)] == [Setting(setting as real), Allocating(size as real)];
    WholeTrunc(setting);
    WholeTrunc(size);
    assert [8192] + [setting] == [8192, setting] && [] + [Slice(1, 0, size)] == [Slice(1, 0, size)];
  }

  lemma HalfOf(setting: nat)
    ensures Half(setting as real) == setting % TWO_32 / 2
  {
    WholeTrunc(setting);
  }

  lemma AlignOf(offset: nat)
    ensures Align(offset as real) == (if offset % 8 == 0 then offset else OrSeven(ToInt32(offset)) + 1) as real
  {
    WholeTrunc(offset);
  }

  /** At 2^31 + 1 an offset can become negative, and then every pooled call throws. */
  lemma FailsBeyond31()
    ensures var half := (TWO_31 / 2 - 1) as real;
            var s := After([Setting((TWO_31 + 1) as real), Allocating(half), Allocating(half), Allocating(1.0)]);
            && s.poolOffset < 0.0
            && forall size :: 0.0 < size < (TWO_31 / 2) as real ==> Step(s, Allocating(size)).1 == RangeError
  {
    hide Align, Step, Half;
    var half := TWO_31 / 2 - 1;
    HalfOf(TWO_31 + 1);
    NewPool(TWO_31 + 1, half);
    AlignsHalfway();
    var calls := [Setting((TWO_31 + 1) as real), Allocating(half as real)];
    var s := After(calls);
    Fits(calls, s, half as real);
    var s2 := After(calls + [Allocating(half as real)]);
    assert s.poolOffset + half as real == (2 * half + 1) as real;
    Fits(calls + [Allocating(half as real)], s2, 1.0);
    assert s2.poolOffset + 1.0 == (TWO_31 + 1) as real;
    assert calls + [Allocating(half as real)] + [Allocating(1.0)] ==
           [Setting((TWO_31 + 1) as real), Allocating(half as real), Allocating(half as real), Allocating(1.0)];
    NegativeFails(After(calls + [Allocating(half as real)] + [Allocating(1.0)]));
  }

  lemma AlignsHalfway()
    ensures var half := TWO_31 / 2 - 1;
            && Align(half as real) == (half + 1) as real && Align((2 * half + 1) as real) == TWO_31 as real
            && Align((TWO_31 + 1) as real) < 0.0
  {
    var half := TWO_31 / 2 - 1;
    AlignOf(half);
    AlignOf(2 * half + 1);
    AlignOf(TWO_31 + 1);
  }

  lemma NegativeFails(s: State)
    requires |s.sizes| > 0 && s.poolOffset < 0.0 && s.setting == s.poolSize >= 0.0
    ensures forall size :: 0.0 < size < Half(s.setting) as real && size <= s.setting ==>
              Step(s, Allocating(size)).1 == RangeError
  {
    hide Half;
  }

  /** At 2^32 - 7 an offset can start over, and two slices can share bytes. */
  lemma OverlapsBeyondLargest()
    ensures var size := (TWO_31 - 16) as real;
            !Safe(After([Setting((LARGEST + 1) as real), Allocating(size), Allocating(size), Allocating(25.0),
                         Allocating(8.0)]))
  {
    hide Align, Safe, Half, After, Step;
    var size := TWO_31 - 16;
    HalfOf(LARGEST + 1);
    var calls := [Setting((LARGEST + 1) as real), Allocating(size as real)];
    NewPool(LARGEST + 1, size);
    AlignsThere();
    var s1 := After(calls);
    Fits(calls, s1, size as real);
    var s2 := After(calls + [Allocating(size as real)]);
    assert s1.poolOffset + size as real == (2 * size) as real;
    Fits(calls + [Allocating(size as real)], s2, 25.0);
    var s3 := After(calls + [Allocating(size as real)] + [Allocating(25.0)]);
    assert s2.poolOffset + 25.0 == (2 * size + 25) as real;
    assert s3.poolOffset == 0.0;
    Fits(calls + [Allocating(size as real)] + [Allocating(25.0)], s3, 8.0);
    var s4 := After(calls + [Allocating(size as real)] + [Allocating(25.0)] + [Allocating(8.0)]);
    assert s4.slices[0] == Slice(1, 0, size) && s4.slices[3] == Slice(1, 0, 8);
    Shared(s4, 0, 3);
    assert calls + [Allocating(size as real)] + [Allocating(25.0)] + [Allocating(8.0)] ==
           [Setting((LARGEST + 1) as real), Allocating(size as real), Allocating(size as real), Allocating(25.0),
            Allocating(8.0)];
  }

  lemma AlignsThere()
    ensures var size := TWO_31 - 16;
            && Align(size as real) == size as real && Align((2 * size) as real) == (2 * size) as real
            && Align((2 * size + 25) as real) == 0.0
  {
    var size := TWO_31 - 16;
    AlignOf(size);
    AlignOf(2 * size);
    AlignOf(2 * size + 25);
  }

  lemma Shared(s: State, i: nat, j: nat)
    requires i < j < |s.slices| && !Apart(s.slices[i], s.slices[j])
    ensures !Safe(s)
  {
  }

  // ------------------------------------------------------------- the two limits

  predicate AllLimited(calls: seq<Call>, most: nat) {
    forall i :: 0 <= i < |calls| ==> Limited(calls[i], most)
  }

  /** With settings up to `most` the slices are safe in all runs exactly up to 2^32 - 8. */
  lemma SafeUpTo(most: nat)
    ensures (forall calls :: AllLimited(calls, most) ==> Safe(After(calls))) <==> most <= LARGEST
  {
    hide Safe, After;
    if most <= LARGEST {
      forall calls | AllLimited(calls, most) ensures Safe(After(calls)) {
        SlicesSafe(calls, if most < 8192 then 8192 else most);
      }
    } else {
      OverlapsBeyondLargest();
      var size := (TWO_31 - 16) as real;
      assert AllLimited([Setting((LARGEST + 1) as real), Allocating(size), Allocating(size), Allocating(25.0),
                         Allocating(8.0)], most);
    }
  }

  /** Whole settings from `least` to `most`. */
  predicate AllBetween(calls: seq<Call>, least: int, most: nat) {
    forall i :: 0 <= i < |calls| && calls[i].Setting? ==>
      calls[i].poolSize.Floor as real == calls[i].poolSize && least <= calls[i].poolSize.Floor <= most
  }

  /** With whole settings around the initial one, no call throws in any run exactly from 0 to 2^31. */
  lemma NothingThrows(least: int, most: nat)
    requires least <= 8192 <= most
    ensures (forall calls :: AllBetween(calls, least, most) ==> !Throws(calls)) <==> least >= 0 && most <= TWO_31
  {
    hide After, Step;
    if least < 0 {
      BelowZeroThrows();
      assert AllBetween([Setting(-1.0)] + [Allocating(8193.0)], least, most);
    } else if most <= TWO_31 {
      forall calls | AllBetween(calls, least, most) ensures !Throws(calls) {
        assert AllPlain(calls);
        assert forall i :: 0 <= i < |calls| ==> Limited(calls[i], most);
        SlicesSafe(calls, most);
      }
    } else {
      FailsBeyond31();
      var half := (TWO_31 / 2 - 1) as real;
      var calls := [Setting((TWO_31 + 1) as real), Allocating(half), Allocating(half), Allocating(1.0)];
      assert (calls + [Allocating(1.0)])[..4] == calls;
      WholeTrunc(TWO_31 + 1);
      assert AllBetween(calls + [Allocating(1.0)], least, most) && Throws(calls + [Allocating(1.0)]);
    }
  }

  /** A setting below zero makes every size but the largest a pooled one, and the pool cannot be made. */
  lemma BelowZeroThrows()
    ensures Throws([Setting(-1.0)] + [Allocating(8193.0)])
  {
    Extend([], Setting(-1.0));
    assert [] + [Setting(-1.0)] == [Setting(-1.0)];
    assert ([Setting(-1.0)] + [Allocating(8193.0)])[..1] == [Setting(-1.0)];
    assert Half(-1.0) == TWO_31 - 1;
  }

  /** A setting with a fraction: the pool seems half a byte longer than it is, and a string that just fits does not. */
  lemma FractionThrows()
    ensures Throws([Setting(8192.5), Allocating(4000.5), Allocating(4000.5), Allocating(4000.5), Allocating(104.0)]
                   + [Encoding(1022, 4088, 4088)])
  {
    hide Align, Half, After;
    var c := [Setting(8192.5)];
    Extend([], Setting(8192.5));
    assert [] + [Setting(8192.5)] == c;
    FractionFacts();
    assert After([]) == START by { NothingCalled(); }
    var s1 := After(c);
    assert s1 == START.(setting := 8192.5);
    Fits(c, s1, 4000.5);
    var c2 := c + [Allocating(4000.5)];
    Fits(c2, After(c2), 4000.5);
    var c3 := c2 + [Allocating(4000.5)];
    assert After(c3).poolOffset == 8008.0 && After(c3).sizes == [8192] && After(c3).poolSize == 8192.0;
    Extend(c3, Allocating(4000.5));
    var c4 := c3 + [Allocating(4000.5)];
    assert After(c4).poolOffset == 4000.5 && After(c4).poolSize == 8192.5 && After(c4).sizes == [8192, 8192];
    Fits(c4, After(c4), 104.0);
    var c5 := c4 + [Allocating(104.0)];
    assert c5 == [Setting(8192.5), Allocating(4000.5), Allocating(4000.5), Allocating(4000.5), Allocating(104.0)];
    assert (c5 + [Encoding(1022, 4088, 4088)])[..|c5|] == c5;
  }

  lemma NothingCalled()
    ensures After([]) == START
  {
  }

  lemma FractionFacts()
    ensures Half(8192.5) == 4096 && Align(4000.5) == 4000.5 && Align(8001.0) == 8008.0 && Align(4104.5) == 4104.5
  {
  }

  // -------------------------------------------------------------- the variables

  /** The variables of the module, which every call updates. */
  class Pools {
    /** `Buffer.poolSize`. */
    var setting: real
    var poolSize: real
    var poolOffset: real
    ghost var sizes: seq<nat>
    ghost var slices: seq<Slice>
    /** The number of `allocPool`, and its length. */
    var pool: nat
    var poolLength: nat

    ghost predicate Valid()
      reads this
    {
      |sizes| == pool + 1 && sizes[pool] == poolLength
    }

    ghost function Value(): State
      reads this
    {
      State(setting, poolSize, poolOffset, sizes, slices)
    }

    constructor ()
      ensures Valid() && Value() == START
    {
      setting, poolSize, poolOffset, pool, poolLength := 8192.0, 8192.0, 0.0, 0, 8192;
      sizes, slices := [8192], [];
    }

    /** `createPool`; it has set `poolSize` when the new buffer throws. */
    method CreatePool() returns (made: bool)
      requires Valid()
      modifies this
      ensures Valid() && (Value(), made) == WithNewPool(old(Value()))
    {
      poolSize := setting;
      if setting <= -1.0 {
        return false;
      }
      poolLength, pool := if setting < 0.0 then 0 else Trunc(setting), pool + 1;
      sizes := sizes + [poolLength];
      poolOffset := 0.0;
      return true;
    }

    method AlignPool()
      requires Valid()
      modifies this`poolOffset
      ensures poolOffset == Align(old(poolOffset))
    {
      if Trunc(poolOffset) % 8 != 0 {
        poolOffset := OrSeven(ToInt32(Trunc(poolOffset))) as real;
        poolOffset := poolOffset + 1.0;
      }
    }

    /** `new FastBuffer(allocPool, poolOffset, length)` and what follows it. */
    method TakeSlice(length: real) returns (b: Outcome)
      requires Valid() && length >= 0.0
      modifies this`slices, this`poolOffset
      ensures Valid() && (Value(), b) == Cut(old(Value()), length)
    {
      hide Align;
      if poolOffset < 0.0 {
        return RangeError;
      }
      b := Pooled(Slice(pool, poolOffset.Floor, length.Floor));
      slices := slices + [b.slice];
      poolOffset := poolOffset + length;
      AlignPool();
    }

    /** A new pool if there is no room. */
    method MakeRoom(length: real) returns (made: bool)
      requires Valid()
      modifies this
      ensures Valid() && (Value(), made) == Room(old(Value()), length)
    {
      made := true;
      if length > poolSize - poolOffset {
        made := CreatePool();
      }
    }

    method Allocate(size: real) returns (b: Outcome)
      requires Valid()
      modifies this
      ensures Valid() && (Value(), b) == Allocated(old(Value()), size)
    {
      hide Half, Cut, Room;
      if size <= 0.0 {
        return Unpooled;
      }
      if size < Half(setting) as real {
        var made := MakeRoom(size);
        if !made {
          return RangeError;
        }
        b := TakeSlice(size);
        return;
      }
      b := Unpooled;
    }

    method FromStringFast(units: nat, bytes: nat, written: nat) returns (b: Outcome)
      requires Valid()
      modifies this
      ensures Valid() && (Value(), b) == FromString(old(Value()), units, bytes, written)
    {
      hide Half, Cut, Room;
      var maxLength := Half(setting);
      var length := units;
      if length >= maxLength {
        return Unpooled;
      }
      length := length * 4;
      if length >= maxLength {
        length := bytes;
      }
      if length >= maxLength {
        return Unpooled;
      }
      var made := MakeRoom(length as real);
      if !made || poolOffset < 0.0 || length as real > poolLength as real - poolOffset {
        return RangeError;
      }
      var actual := if written < length then written else length;
      b := TakeSlice(actual as real);
    }
  }
}
