/**
 * Paths as lists of segments: splitting, the stack that "." and ".." act on,
 * and joining. lib/path.js never builds such lists; its character loops are
 * proved against them.
 */
module PathSegments {

  const DOT: string := "."
  const UP: string := ".."

  type Separators = char -> bool

  predicate IsPosixSep(c: char) { c == '/' }

  /** The position of the first separator of `p`, or its length. */
  function NextSep(p: string, isSep: Separators): (k: nat)
    ensures k <= |p|
    ensures k < |p| ==> isSep(p[k])
    ensures forall j :: 0 <= j < k ==> !isSep(p[j])
  {
    if p == "" || isSep(p[0]) then 0 else 1 + NextSep(p[1..], isSep)
  }

  /** The pieces of `p` between separators; "" has one piece, itself. */
  function Split(p: string, isSep: Separators): (r: seq<string>)
    ensures |r| > 0
    decreases |p|
  {
    var k := NextSep(p, isSep);
    if k == |p| then [p] else [p[..k]] + Split(p[k + 1..], isSep)
  }

  /** What one segment does to the stack of segments so far. */
  function Push(stack: seq<string>, s: string, above: bool): seq<string> {
    if s == "" || s == DOT then stack
    else if s == UP then
      if stack != [] && stack[|stack| - 1] != UP then stack[..|stack| - 1]
      else if above then stack + [UP]
      else stack
    else stack + [s]
  }

  function Fold(stack: seq<string>, segs: seq<string>, above: bool): seq<string>
    decreases |segs|
  {
    if segs == [] then stack else Fold(Push(stack, segs[0], above), segs[1..], above)
  }

  /** The normal form of `p`; `above` says whether leading ".." are kept. */
  function Normal(p: string, above: bool, isSep: Separators): seq<string> {
    Fold([], Split(p, isSep), above)
  }

  function Join(segs: seq<string>, sep: char): string {
    if segs == [] then ""
    else if |segs| == 1 then segs[0]
    else Join(segs[..|segs| - 1], sep) + [sep] + segs[|segs| - 1]
  }

  predicate IsSegment(s: string, isSep: Separators) {
    s != "" && forall k :: 0 <= k < |s| ==> !isSep(s[k])
  }

  /** Segments only, no ".", and ".." only at the front and only when going above is allowed. */
  ghost predicate IsNormal(segs: seq<string>, above: bool, isSep: Separators) {
    && (forall i :: 0 <= i < |segs| ==> IsSegment(segs[i], isSep) && segs[i] != DOT)
    && (forall i :: 0 <= i < |segs| && segs[i] == UP ==> above && forall j :: 0 <= j < i ==> segs[j] == UP)
  }

  // ------------------------------------------------------ splitting and joining

  lemma {:induction false} NextSepAt(p: string, k: nat, isSep: Separators)
    requires k <= |p| && (forall j :: 0 <= j < k ==> !isSep(p[j])) && (k < |p| ==> isSep(p[k]))
    ensures NextSep(p, isSep) == k
  {
  }

  lemma SplitFirst(p: string, n: nat, isSep: Separators)
    requires n < |p| && isSep(p[n]) && forall j :: 0 <= j < n ==> !isSep(p[j])
    ensures Split(p, isSep) == [p[..n]] + Split(p[n + 1..], isSep)
  {
    NextSepAt(p, n, isSep);
  }

  lemma SplitSegment(s: string, isSep: Separators)
    requires forall k :: 0 <= k < |s| ==> !isSep(s[k])
    ensures Split(s, isSep) == [s]
  {
    NextSepAt(s, |s|, isSep);
  }

  /** Cutting at a separator splits the list of pieces there. */
  lemma {:induction false} SplitAt(p: string, k: nat, isSep: Separators)
    requires k < |p| && isSep(p[k])
    ensures Split(p, isSep) == Split(p[..k], isSep) + Split(p[k + 1..], isSep)
    decreases |p|
  {
    hide Split;
    var n := NextSep(p, isSep);
    SplitFirst(p, n, isSep);
    var a, b := p[..k], p[k + 1..];
    if n < k {
      var rest := p[n + 1..];
      SplitAt(rest, k - n - 1, isSep);
      assert rest[..k - n - 1] == a[n + 1..] && rest[k - n..] == b;
      SplitFirst(a, n, isSep);
      assert a[..n] == p[..n];
      assert [a[..n]] + (Split(a[n + 1..], isSep) + Split(b, isSep)) == Split(a, isSep) + Split(b, isSep);
    } else {
      SplitSegment(a, isSep);
    }
  }

  lemma SplitJoined(a: string, sep: char, b: string, isSep: Separators)
    requires isSep(sep)
    ensures Split(a + [sep] + b, isSep) == Split(a, isSep) + Split(b, isSep)
  {
    var p := a + [sep] + b;
    SplitAt(p, |a|, isSep);
    assert p[..|a|] == a && p[|a| + 1..] == b;
  }

  /** Splitting undoes joining. */
  lemma {:induction false} SplitJoin(segs: seq<string>, sep: char, isSep: Separators)
    requires isSep(sep) && segs != []
    requires forall i :: 0 <= i < |segs| ==> IsSegment(segs[i], isSep)
    ensures Split(Join(segs, sep), isSep) == segs
  {
    var init, last := segs[..|segs| - 1], segs[|segs| - 1];
    SplitSegment(last, isSep);
    if init == [] {
      assert segs == [last];
    } else {
      SplitJoin(init, sep, isSep);
      SplitJoined(Join(init, sep), sep, last, isSep);
      assert segs == init + [last];
    }
  }

  lemma {:induction false} JoinLong(segs: seq<string>, sep: char, isSep: Separators)
    requires forall i :: 0 <= i < |segs| ==> IsSegment(segs[i], isSep)
    ensures segs != [] ==> |Join(segs, sep)| >= 2 * |segs| - 1 && segs[|segs| - 1] != "" && segs[0] != ""
    ensures segs != [] ==> Join(segs, sep)[|Join(segs, sep)| - 1] == segs[|segs| - 1][|segs[|segs| - 1]| - 1]
    ensures segs != [] ==> Join(segs, sep)[0] == segs[0][0]
  {
    if |segs| > 1 {
      JoinLong(segs[..|segs| - 1], sep, isSep);
    }
  }

  lemma {:induction false} JoinAppend(a: seq<string>, b: seq<string>, sep: char)
    ensures a == [] ==> Join(a + b, sep) == Join(b, sep)
    ensures b == [] ==> Join(a + b, sep) == Join(a, sep)
    ensures a != [] && b != [] ==> Join(a + b, sep) == Join(a, sep) + [sep] + Join(b, sep)
    decreases |b|
  {
    if a == [] {
      assert a + b == b;
    } else if b == [] {
      assert a + b == a;
    } else {
      var init := b[..|b| - 1];
      assert (a + b)[..|a + b| - 1] == a + init;
      JoinAppend(a, init, sep);
      if init != [] {
        assert Join(a, sep) + [sep] + Join(init, sep) + [sep] + b[|b| - 1] ==
               Join(a, sep) + [sep] + (Join(init, sep) + [sep] + b[|b| - 1]);
      } else {
        assert b == [b[0]];
      }
    }
  }

  // ------------------------------------------------------------------ folding

  lemma {:induction false} FoldAppend(stack: seq<string>, a: seq<string>, b: seq<string>, above: bool)
    ensures Fold(stack, a + b, above) == Fold(Fold(stack, a, above), b, above)
    decreases |a|
  {
    if a == [] {
      assert a + b == b;
    } else {
      assert (a + b)[1..] == a[1..] + b;
      FoldAppend(Push(stack, a[0], above), a[1..], b, above);
    }
  }

  lemma FoldOne(stack: seq<string>, s: string, above: bool)
    ensures Fold(stack, [s], above) == Push(stack, s, above)
  {
    assert [s][1..] == [];
    assert Fold(Push(stack, s, above), [], above) == Push(stack, s, above);
  }

  lemma {:induction false} SplitPieces(p: string, isSep: Separators)
    ensures forall i :: 0 <= i < |Split(p, isSep)| ==> Split(p, isSep)[i] == "" || IsSegment(Split(p, isSep)[i], isSep)
    decreases |p|
  {
    var k := NextSep(p, isSep);
    if k < |p| { SplitPieces(p[k + 1..], isSep); }
  }

  lemma PushNormal(stack: seq<string>, s: string, above: bool, isSep: Separators)
    requires IsNormal(stack, above, isSep)
    requires s == "" || IsSegment(s, isSep)
    ensures IsNormal(Push(stack, s, above), above, isSep)
  {
    if s == UP && stack != [] && stack[|stack| - 1] == UP {
      assert forall j :: 0 <= j < |stack| ==> stack[j] == UP;
    }
  }

  lemma {:induction false} FoldNormal(stack: seq<string>, segs: seq<string>, above: bool, isSep: Separators)
    requires IsNormal(stack, above, isSep)
    requires forall i :: 0 <= i < |segs| ==> segs[i] == "" || IsSegment(segs[i], isSep)
    ensures IsNormal(Fold(stack, segs, above), above, isSep)
    decreases |segs|
  {
    if segs != [] {
      assert IsNormal(Push(stack, segs[0], above), above, isSep);
      FoldNormal(Push(stack, segs[0], above), segs[1..], above, isSep);
    }
  }

  lemma NormalIsNormal(p: string, above: bool, isSep: Separators)
    ensures IsNormal(Normal(p, above, isSep), above, isSep)
  {
    SplitPieces(p, isSep);
    FoldNormal([], Split(p, isSep), above, isSep);
  }

  /** Names are appended; so are ".." on top of ".." when going above is allowed. */
  lemma {:induction false} FoldKeeps(stack: seq<string>, segs: seq<string>, above: bool, isSep: Separators)
    requires IsNormal(segs, above, isSep)
    requires |segs| > 0 && segs[0] == UP ==> forall i :: 0 <= i < |stack| ==> stack[i] == UP
    ensures Fold(stack, segs, above) == stack + segs
    decreases |segs|
  {
    if segs != [] {
      assert Push(stack, segs[0], above) == stack + [segs[0]];
      assert IsNormal(segs[1..], above, isSep) by {
        forall i | 0 <= i < |segs[1..]| && segs[1..][i] == UP
          ensures above && forall j :: 0 <= j < i ==> segs[1..][j] == UP
        {
          assert segs[i + 1] == UP;
        }
      }
      assert |segs| > 1 && segs[1] == UP ==> segs[0] == UP;
      FoldKeeps(stack + [segs[0]], segs[1..], above, isSep);
      assert stack + [segs[0]] + segs[1..] == stack + segs;
    }
  }

  /** Pushing a segment on a normal form and replaying the form are interchangeable. */
  lemma PushReplay(stack: seq<string>, r: seq<string>, s: string, above: bool, isSep: Separators)
    requires IsNormal(r, true, isSep)
    ensures Fold(stack, Push(r, s, true), above) == Push(Fold(stack, r, above), s, above)
  {
    if s == "" || s == DOT {
    } else if s == UP && r != [] && r[|r| - 1] != UP {
      var init, last := r[..|r| - 1], r[|r| - 1];
      assert r == init + [last];
      FoldAppend(stack, init, [last], above);
      FoldOne(Fold(stack, init, above), last, above);
      var t := Fold(stack, init, above);
      assert (t + [last])[..|t|] == t;
    } else {
      FoldAppend(stack, r, [s], above);
      FoldOne(Fold(stack, r, above), s, above);
    }
  }

  /** Folding a list and folding its normal form are the same, whatever they start from. */
  lemma {:induction false} FoldReplay(stack: seq<string>, r: seq<string>, segs: seq<string>, above: bool, isSep: Separators)
    requires IsNormal(r, true, isSep)
    requires forall i :: 0 <= i < |segs| ==> segs[i] == "" || IsSegment(segs[i], isSep)
    ensures Fold(stack, Fold(r, segs, true), above) == Fold(Fold(stack, r, above), segs, above)
    decreases |segs|
  {
    if segs != [] {
      PushReplay(stack, r, segs[0], above, isSep);
      assert IsNormal(Push(r, segs[0], true), true, isSep);
      FoldReplay(stack, Push(r, segs[0], true), segs[1..], above, isSep);
    }
  }

  function Ups(n: nat): (r: seq<string>)
    ensures |r| == n && forall i :: 0 <= i < n ==> r[i] == UP
  {
    seq(n, _ => UP)
  }

  /** Forbidding to go above drops exactly the leading "..". */
  lemma {:induction false} FoldRooted(stack: seq<string>, u: nat, segs: seq<string>, isSep: Separators) returns (u': nat)
    requires IsNormal(stack, false, isSep)
    requires forall i :: 0 <= i < |segs| ==> segs[i] == "" || IsSegment(segs[i], isSep)
    ensures Fold(Ups(u) + stack, segs, true) == Ups(u') + Fold(stack, segs, false)
    ensures u <= u'
    decreases |segs|
  {
    if segs == [] {
      u' := u;
    } else {
      var s := segs[0];
      if s == UP && stack == [] {
        assert Push(Ups(u) + stack, s, true) == Ups(u + 1) + Push(stack, s, false);
        u' := FoldRooted(Push(stack, s, false), u + 1, segs[1..], isSep);
      } else {
        assert Push(Ups(u) + stack, s, true) == Ups(u) + Push(stack, s, false);
        u' := FoldRooted(Push(stack, s, false), u, segs[1..], isSep);
      }
    }
  }

  lemma NormalRooted(p: string, isSep: Separators) returns (u: nat)
    ensures Normal(p, true, isSep) == Ups(u) + Normal(p, false, isSep)
  {
    SplitPieces(p, isSep);
    u := FoldRooted([], 0, Split(p, isSep), isSep);
    assert Ups(0) + [] == [];
  }

  /** Going up from the root stays at the root; anywhere else it goes somewhere else. */
  lemma {:induction false} FoldUps(stack: seq<string>, u: nat, above: bool, isSep: Separators)
    requires IsNormal(stack, above, isSep) && !isSep('.')
    ensures Fold(stack, Ups(u), above) == stack <==> u == 0 || (!above && stack == [])
    ensures IsNormal(Fold(stack, Ups(u), above), above, isSep)
    ensures u > 0 && !above && stack != [] ==> |Fold(stack, Ups(u), above)| < |stack|
    ensures above ==> Names(Fold(stack, Ups(u), above)) == Names(stack) - u
    decreases u
  {
    hide IsNormal, Names;
    if u > 0 {
      assert Ups(u)[1..] == Ups(u - 1);
      NamesPush(stack, isSep);
      PushNormal(stack, UP, above, isSep);
      FoldUps(Push(stack, UP, above), u - 1, above, isSep);
    }
  }

  /** Names count for one, ".." for minus one. */
  ghost function Names(segs: seq<string>): int {
    if segs == [] then 0
    else Names(segs[..|segs| - 1]) + (if segs[|segs| - 1] == UP then -1 else 1)
  }

  lemma NamesPush(stack: seq<string>, isSep: Separators)
    ensures Names(Push(stack, UP, true)) == Names(stack) - 1
  {
    assert (stack + [UP])[..|stack|] == stack;
  }
}
