/**
 * Where small buffers lie and how long they are, told by the slices alone: in
 * runs with whole sizes and settings up to 2^31 the pool is filled from its
 * start, each slice at the first multiple of 8 after the one before.
 */
module BufferPlaces {
  import opened BufferPool

  /** The first multiple of 8 from `k` on. */
  function EightUp(k: nat): (m: nat)
    ensures m % 8 == 0 && k <= m < k + 8
  {
    (k + 7) / 8 * 8
  }

  /** Where the last pool is free, by the slices handed out. */
  function FreeFrom(s: State): nat {
    if s.slices != [] && s.slices[|s.slices| - 1].pool == |s.sizes| - 1 then
      EightUp(s.slices[|s.slices| - 1].offset + s.slices[|s.slices| - 1].length)
    else 0
  }

  predicate Whole(c: Call) {
    && (c.Allocating? ==> c.size.Floor as real == c.size)
    && (c.Setting? ==> Plain(c.poolSize) && c.poolSize <= TWO_31 as real)
  }

  predicate AllWhole(calls: seq<Call>) {
    forall i :: 0 <= i < |calls| ==> Whole(calls[i])
  }

  /** The bytes that a call sets aside before it knows how many it needs. */
  function Reserved(c: Call, half: nat): int
    requires !c.Setting?
  {
    if c.Allocating? then c.size.Floor else if c.units * 4 < half then c.units * 4 else c.bytes
  }

  /** The bytes of the buffer that it returns. */
  function Used(c: Call, half: nat): int
    requires !c.Setting?
  {
    if c.Encoding? && c.written < Reserved(c, half) then c.written else Reserved(c, half)
  }

  /** A buffer of something that is smaller than half a pool. */
  predicate Small(c: Call, half: nat) {
    match c
    case Allocating(size) => 0.0 < size < half as real
    case Encoding(units, _, _) => units < half && Reserved(c, half) < half
    case Setting(_) => false
  }

  /** The place of a slice: in the last pool if there is room behind what is there, else at the start of a new one. */
  function PlaceOf(s: State, reserved: nat, used: nat): Slice
    requires |s.sizes| > 0
  {
    var last := |s.sizes| - 1;
    if FreeFrom(s) + reserved <= s.sizes[last] then Slice(last, FreeFrom(s), used) else Slice(last + 1, 0, used)
  }

  /** The variables say what the slices say. */
  predicate Agrees(s: State) {
    && |s.sizes| > 0 && Plain(s.setting) && s.setting <= TWO_31 as real
    && s.poolSize == s.sizes[|s.sizes| - 1] as real && s.poolSize <= TWO_31 as real
    && s.poolOffset == FreeFrom(s) as real
  }

  lemma AlignEight(k: nat)
    requires k <= TWO_31
    ensures Align(k as real) == EightUp(k) as real
  {
    AlignOf(k);
    if k < TWO_31 { LowBits(k); }
  }

  lemma HalfPlain(setting: real)
    requires Plain(setting) && setting <= TWO_31 as real
    ensures Half(setting) == setting.Floor / 2
  {
    HalfOf(setting.Floor);
  }

  /** Room is made and a slice taken as `PlaceOf` says. */
  lemma CutPlaces(s: State, reserved: nat, used: nat)
    requires Agrees(s) && reserved < s.setting.Floor && used <= reserved
    ensures var (s1, made) := Room(s, reserved as real);
            && made && Writable(s1, reserved)
            && var (s2, r) := Cut(s1, used as real); var slice := PlaceOf(s, reserved, used);
            && r == Pooled(slice) && Agrees(s2) && s2.setting == s.setting && s2.slices == s.slices + [slice]
            && s2.sizes == s.sizes + (if slice.pool == |s.sizes| then [s.setting.Floor] else [])
  {
    hide Align;
    var (s1, made) := Room(s, reserved as real);
    var free := if FreeFrom(s) + reserved <= s.sizes[|s.sizes| - 1] then FreeFrom(s) else 0;
    assert s1.poolOffset == free as real;
    WholeTrunc(free);
    WholeTrunc(used);
    assert free as real + used as real == (free + used) as real;
    AlignEight(free + used);
  }

  /** What a call returns from `s`, and what it adds to the slices and the pools. */
  ghost predicate Answers(s: State, c: Call) {
    |s.sizes| > 0 && s.setting >= 0.0 &&
    var half, (s', r) := s.setting.Floor / 2, Step(s, c);
    if Small(c, half) then
      && 0 <= Used(c, half) <= Reserved(c, half)
      && var slice := PlaceOf(s, Reserved(c, half), Used(c, half));
      && r == Pooled(slice) && s'.slices == s.slices + [slice]
      && s'.sizes == s.sizes + (if slice.pool == |s.sizes| then [s.setting.Floor] else [])
    else r == Unpooled && s'.slices == s.slices && s'.sizes == s.sizes
  }

  lemma StepPlaces(s: State, c: Call)
    requires Agrees(s) && Whole(c)
    ensures Agrees(Step(s, c).0) && Answers(s, c)
  {
    hide Half, Room, Cut, Writable, PlaceOf, FreeFrom;
    HalfPlain(s.setting);
    var half := s.setting.Floor / 2;
    match c
    case Allocating(size) =>
      if Small(c, half) {
        CutPlaces(s, size.Floor, size.Floor);
      }
    case Encoding(units, bytes, written) =>
      if Small(c, half) {
        CutPlaces(s, Reserved(c, half), Used(c, half));
      }
    case Setting(poolSize) => SettingPlaces(s, poolSize);
  }

  lemma SettingPlaces(s: State, poolSize: real)
    requires Agrees(s) && Plain(poolSize) && poolSize <= TWO_31 as real
    ensures Agrees(s.(setting := poolSize))
  {
  }

  /** In every run each call answers so. */
  lemma {:induction false} RunPlaces(calls: seq<Call>, c: Call)
    requires AllWhole(calls) && Whole(c)
    ensures Agrees(After(calls)) && Answers(After(calls), c)
    decreases |calls|
  {
    hide Agrees, Answers, Step, Whole;
    if calls == [] {
      StartAgrees();
    } else {
      RunPlaces(calls[..|calls| - 1], calls[|calls| - 1]);
      StepPlaces(After(calls[..|calls| - 1]), calls[|calls| - 1]);
    }
    StepPlaces(After(calls), c);
  }

  lemma StartAgrees()
    ensures Agrees(START)
  {
  }

  /**
   * In any run at all, whole or not: the buffer of a string is never longer than
   * the bytes written, and exactly as long when all of its bytes were, of which
   * no code unit has more than four; any other buffer has the size asked for.
   */
  lemma LengthsAsked(calls: seq<Call>, c: Call)
    ensures var r := Step(After(calls), c).1;
            r.Pooled? ==>
              && (c.Encoding? ==> r.slice.length <= c.written)
              && (c.Encoding? && c.written == c.bytes <= 4 * c.units ==> r.slice.length == c.written)
              && (c.Allocating? ==> r.slice.length == c.size.Floor > -1)
  {
    hide Half, After;
    if c.Encoding? {
      WholeTrunc(c.written);
      WholeTrunc(c.bytes);
      WholeTrunc(4 * c.units);
    }
  }

  lemma AlignFloor(x: real)
    requires 0.0 <= x <= TWO_31 as real
    ensures Align(x).Floor == EightUp(x.Floor)
  {
    var k := x.Floor;
    if k % 8 != 0 {
      AlignEight(k);
      AlignOf(k);
      WholeTrunc(EightUp(k));
    }
  }

  /** The offset behind the slice of a string, in any run. */
  lemma StringEnds(s: State, c: Call)
    requires Kept(s, TWO_31) && Safe(s) && c.Encoding? && Step(s, c).1.Pooled?
    ensures var (s', r) := Step(s, c);
            && s'.poolOffset.Floor == EightUp(r.slice.offset + r.slice.length)
            && r.slice.pool == |s'.sizes| - 1
  {
    hide Safe, Align;
    var length := Reserved(c, Half(s.setting));
    RoomKept(s, length as real, TWO_31);
    var (s1, made) := Room(s, length as real);
    var used := Used(c, Half(s.setting));
    assert made && Writable(s1, length);
    AlignFloor(s1.poolOffset + used as real);
    assert (s1.poolOffset + used as real).Floor == s1.poolOffset.Floor + used;
  }

  /** A call that takes no slice leaves the offset alone, unless it makes a pool. */
  lemma OffsetKept(s: State, c: Call)
    requires |s.sizes| > 0
    ensures |Step(s, c).0.sizes| >= |s.sizes|
    ensures Step(s, c).0.slices == s.slices && |Step(s, c).0.sizes| == |s.sizes| ==> Step(s, c).0.poolOffset == s.poolOffset
    ensures |Step(s, c).0.slices| >= |s.slices| && Step(s, c).0.slices[..|s.slices|] == s.slices
    ensures Step(s, c).1.Pooled? && Step(s, c).1.slice.pool < |s.sizes| ==> Step(s, c).1.slice.offset == s.poolOffset.Floor
    ensures Step(s, c).1.Pooled? ==> Step(s, c).1.slice.pool == |Step(s, c).0.sizes| - 1
  {
    hide Half, Align;
  }

  lemma {:induction false} OffsetKeptOn(calls: seq<Call>, more: seq<Call>)
    ensures var s, s' := After(calls), After(calls + more);
            && |s'.sizes| >= |s.sizes| && |s'.slices| >= |s.slices|
            && (s'.slices == s.slices && |s'.sizes| == |s.sizes| ==> s'.poolOffset == s.poolOffset)
    decreases |more|
  {
    hide Step, After;
    if more == [] {
      assert calls + more == calls;
    } else {
      var before, c := more[..|more| - 1], more[|more| - 1];
      OffsetKeptOn(calls, before);
      assert calls + before + [c] == calls + more;
      Extend(calls + before, c);
      OffsetKept(After(calls + before), c);
    }
  }

  /**
   * In every run with settings up to 2^31, whole or not: the next slice in the
   * pool of a string starts at the first multiple of 8 after the string.
   */
  lemma {:induction false} NextAfterString(calls: seq<Call>, c: Call, more: seq<Call>, next: Call)
    requires AllLimited(calls, TWO_31) && c.Encoding?
    requires var r, s := Step(After(calls), c).1, After(calls + [c] + more); var r' := Step(s, next).1;
             && r.Pooled? && r'.Pooled? && r'.slice.pool == r.slice.pool && s.slices == After(calls + [c]).slices
    ensures var r := Step(After(calls), c).1; var r' := Step(After(calls + [c] + more), next).1;
            r'.slice.offset == EightUp(r.slice.offset + r.slice.length)
  {
    hide Step, After, Safe, Kept;
    SlicesSafe(calls, TWO_31);
    StringEnds(After(calls), c);
    Extend(calls, c);
    OffsetKeptOn(calls + [c], more);
    OffsetKept(After(calls + [c] + more), next);
  }

  /** The first pooled call of all, for "abc": three bytes. */
  lemma FirstString()
    ensures FromString(START, 3, 3, 3).1 == Pooled(Slice(0, 0, 3))
  {
    RunPlaces([], Encoding(3, 3, 3));
  }
}
