/** The `posix` functions of lib/path.js on strings, and their laws. */
module PosixPath {
  import opened PathSegments

  const SEP: char := '/'

  /** What `normalizeString` returns for the POSIX separator. */
  function NormalString(p: string, above: bool): string {
    Join(Normal(p, above, IsPosixSep), SEP)
  }

  predicate IsAbsolute(p: string) { p != "" && p[0] == SEP }

  predicate EndsWithSep(p: string) { p != "" && p[|p| - 1] == SEP }

  function Segments(p: string): seq<string> {
    Normal(p, !IsAbsolute(p), IsPosixSep)
  }

  /** A normal form as text. */
  function Render(absolute: bool, segs: seq<string>, trailing: bool): string {
    if segs == [] then if absolute then "/" else if trailing then "./" else "."
    else (if absolute then "/" else "") + Join(segs, SEP) + (if trailing then "/" else "")
  }

  function Normalize(p: string): string {
    if p == "" then "." else Render(IsAbsolute(p), Segments(p), EndsWithSep(p))
  }

  /** The non-empty arguments joined with separators. */
  function JoinRaw(args: seq<string>): string {
    if args == [] then ""
    else
      var init, last := JoinRaw(args[..|args| - 1]), args[|args| - 1];
      if last == "" then init else if init == "" then last else init + "/" + last
  }

  function JoinPaths(args: seq<string>): string {
    if JoinRaw(args) == "" then "." else Normalize(JoinRaw(args))
  }

  /** The text that `resolve` collects from the last argument back to the last absolute one. */
  function Collect(args: seq<string>, resolved: string): string {
    if args == [] || IsAbsolute(resolved) then resolved
    else
      var last := args[|args| - 1];
      Collect(args[..|args| - 1], if last == "" then resolved else last + "/" + resolved)
  }

  /** `resolve` for an absolute working directory. */
  function Resolve(args: seq<string>, cwd: string): string {
    if args == [] || args == [""] || args == ["."] then cwd
    else
      var text := Collect(args, "");
      "/" + NormalString(if IsAbsolute(text) then text else cwd + "/" + text, false)
  }

  /** A normalized absolute directory. */
  function FromRoot(segs: seq<string>): string {
    "/" + Join(segs, SEP)
  }

  ghost predicate IsDirectory(segs: seq<string>) {
    IsNormal(segs, false, IsPosixSep)
  }

  // -------------------------------------------------------- reading normal forms

  lemma SplitEmpty()
    ensures Split("", IsPosixSep) == [""]
  {
    SplitSegment("", IsPosixSep);
  }

  lemma NormalCat(a: string, b: string, above: bool)
    ensures Normal(a + "/" + b, above, IsPosixSep) ==
            Fold(Normal(a, above, IsPosixSep), Split(b, IsPosixSep), above)
  {
    SplitJoined(a, SEP, b, IsPosixSep);
    FoldAppend([], Split(a, IsPosixSep), Split(b, IsPosixSep), above);
  }

  lemma FoldSplitJoin(stack: seq<string>, segs: seq<string>, above: bool)
    requires forall i :: 0 <= i < |segs| ==> IsSegment(segs[i], IsPosixSep)
    ensures Fold(stack, Split(Join(segs, SEP), IsPosixSep), above) == Fold(stack, segs, above)
  {
    if segs == [] {
      SplitEmpty();
      FoldOne(stack, "", above);
    } else {
      SplitJoin(segs, SEP, IsPosixSep);
    }
  }

  /** A rendered normal form acts as its segments: the separators around it add nothing. */
  lemma FoldRender(stack: seq<string>, absolute: bool, segs: seq<string>, trailing: bool, above: bool)
    requires forall i :: 0 <= i < |segs| ==> IsSegment(segs[i], IsPosixSep)
    ensures Fold(stack, Split(Render(absolute, segs, trailing), IsPosixSep), above) == Fold(stack, segs, above)
  {
    hide Split, IsSegment;
    var body := if segs == [] && !absolute then DOT else Join(segs, SEP);
    assert Fold(stack, Split(body, IsPosixSep), above) == Fold(stack, segs, above) by {
      if segs == [] && !absolute {
        SplitSegment(DOT, IsPosixSep);
        FoldOne(stack, DOT, above);
      } else {
        FoldSplitJoin(stack, segs, above);
      }
    }
    var front := if absolute then "/" + body else body;
    assert Fold(stack, Split(front, IsPosixSep), above) == Fold(stack, segs, above) by {
      if absolute {
        assert front == "" + [SEP] + body;
        SplitJoined("", SEP, body, IsPosixSep);
        SplitEmpty();
        FoldAppend(stack, [""], Split(body, IsPosixSep), above);
        FoldOne(stack, "", above);
      }
    }
    if Render(absolute, segs, trailing) != front {
      assert Render(absolute, segs, trailing) == front + [SEP] + "";
      SplitJoined(front, SEP, "", IsPosixSep);
      SplitEmpty();
      FoldAppend(stack, Split(front, IsPosixSep), [""], above);
      FoldOne(Fold(stack, segs, above), "", above);
    }
  }

  lemma RenderEnds(absolute: bool, segs: seq<string>, trailing: bool)
    requires forall i :: 0 <= i < |segs| ==> IsSegment(segs[i], IsPosixSep)
    ensures Render(absolute, segs, trailing) != ""
    ensures IsAbsolute(Render(absolute, segs, trailing)) == absolute
    ensures EndsWithSep(Render(absolute, segs, trailing)) == (trailing || (absolute && segs == []))
  {
    JoinLong(segs, SEP, IsPosixSep);
  }

  /** Normalizing reads back exactly what was rendered. */
  lemma NormalizeRender(absolute: bool, segs: seq<string>, trailing: bool)
    requires IsNormal(segs, !absolute, IsPosixSep)
    ensures Segments(Render(absolute, segs, trailing)) == segs
    ensures Normalize(Render(absolute, segs, trailing)) == Render(absolute, segs, trailing)
  {
    RenderEnds(absolute, segs, trailing);
    FoldRender([], absolute, segs, trailing, !absolute);
    FoldKeeps([], segs, !absolute, IsPosixSep);
    assert [] + segs == segs;
  }

  /** So two normal forms render alike only when they are the same, but for the root's separator. */
  lemma RenderInjective(absolute: bool, segs: seq<string>, trailing: bool, segs': seq<string>, trailing': bool)
    requires IsNormal(segs, !absolute, IsPosixSep) && IsNormal(segs', !absolute, IsPosixSep)
    ensures Render(absolute, segs, trailing) == Render(absolute, segs', trailing') <==>
            segs == segs' && (trailing == trailing' || (absolute && segs == []))
  {
    NormalizeRender(absolute, segs, trailing);
    NormalizeRender(absolute, segs', trailing');
    RenderEnds(absolute, segs, trailing);
    RenderEnds(absolute, segs', trailing');
  }

  // ----------------------------------------------------------------- normalize

  lemma NormalizeIdempotent(p: string)
    ensures Normalize(Normalize(p)) == Normalize(p)
  {
    if p == "" {
      NormalizeRender(false, [], false);
    } else {
      NormalIsNormal(p, !IsAbsolute(p), IsPosixSep);
      NormalizeRender(IsAbsolute(p), Segments(p), EndsWithSep(p));
    }
  }

  /** A path and its normal form take every directory to the same directory. */
  lemma NormalizeSameMeaning(stack: seq<string>, p: string, above: bool)
    requires p != "" && !IsAbsolute(p)
    ensures Fold(stack, Split(Normalize(p), IsPosixSep), above) == Fold(stack, Split(p, IsPosixSep), above)
  {
    NormalIsNormal(p, true, IsPosixSep);
    FoldRender(stack, false, Segments(p), EndsWithSep(p), above);
    SplitPieces(p, IsPosixSep);
    FoldReplay(stack, [], Split(p, IsPosixSep), above, IsPosixSep);
  }

  // ---------------------------------------------------------------------- join

  predicate IsRoot(p: string) { IsAbsolute(p) && Segments(p) == [] }

  /** `p`, read as a relative path, goes above where it starts. */
  predicate Climbs(p: string) {
    var segs := Normal(p, true, IsPosixSep);
    segs != [] && segs[0] == UP
  }

  /**
   * When normalizing the tail `q` before it is joined to `a` loses nothing:
   * always for a relative tail. An absolute tail must not climb, because its
   * normal form drops the "..", and must not come down to the root without a
   * trailing separator, because "/" has one. An empty tail becomes ".", which
   * hides the trailing separator of `a`. None of this matters at the root.
   */
  predicate JoinsAlike(a: string, q: string) {
    || IsRoot(a)
    || (if q == "" then !EndsWithSep(a)
        else IsAbsolute(q) ==> !Climbs(q) && (Segments(q) != [] || EndsWithSep(q)))
  }

  lemma JoinRawPair(a: string, b: string)
    ensures JoinRaw([a, b]) == if b == "" then a else if a == "" then b else a + "/" + b
  {
    assert [a, b][..1] == [a] && [a][..0] == [];
    assert JoinRaw([]) == "" && JoinRaw([a]) == a;
  }

  lemma {:induction false} NormalizeCat(a: string, q: string)
    requires a != "" && q != ""
    ensures Normalize(a + "/" + q) ==
            Render(IsAbsolute(a), Fold(Segments(a), Split(q, IsPosixSep), !IsAbsolute(a)), EndsWithSep(q))
    ensures IsNormal(Fold(Segments(a), Split(q, IsPosixSep), !IsAbsolute(a)), !IsAbsolute(a), IsPosixSep)
  {
    hide Render, Fold, Split, IsNormal, IsSegment;
    NormalCat(a, q, !IsAbsolute(a));
    NormalIsNormal(a, !IsAbsolute(a), IsPosixSep);
    SplitPieces(q, IsPosixSep);
    FoldNormal(Segments(a), Split(q, IsPosixSep), !IsAbsolute(a), IsPosixSep);
  }

  /** The head of a join may be normalized first. */
  lemma {:induction false} NormalizeHead(a: string, q: string)
    requires a != "" && q != ""
    ensures Normalize(Normalize(a) + "/" + q) == Normalize(a + "/" + q)
  {
    NormalIsNormal(a, !IsAbsolute(a), IsPosixSep);
    RenderEnds(IsAbsolute(a), Segments(a), EndsWithSep(a));
    NormalizeRender(IsAbsolute(a), Segments(a), EndsWithSep(a));
    NormalizeCat(a, q);
    NormalizeCat(Normalize(a), q);
  }

  /** Whether the tail of a join may be normalized first. */
  lemma {:induction false} NormalizeTail(a: string, q: string)
    requires a != "" && q != ""
    ensures Normalize(a + "/" + Normalize(q)) == Normalize(a + "/" + q) <==> JoinsAlike(a, q)
  {
    var above, stack := !IsAbsolute(a), Segments(a);
    NormalIsNormal(a, above, IsPosixSep);
    NormalIsNormal(q, !IsAbsolute(q), IsPosixSep);
    RenderEnds(IsAbsolute(q), Segments(q), EndsWithSep(q));
    NormalizeCat(a, q);
    NormalizeCat(a, Normalize(q));
    if !IsAbsolute(q) {
      NormalizeSameMeaning(stack, q, above);
    } else {
      FoldRender(stack, true, Segments(q), EndsWithSep(q), above);
      NormalizeAbsoluteTail(stack, q, above);
      RenderInjective(IsAbsolute(a), Fold(stack, Split(q, IsPosixSep), above), EndsWithSep(q),
                      Fold(stack, Segments(q), above), EndsWithSep(Normalize(q)));
    }
  }

  lemma NormalizeAbsoluteTail(stack: seq<string>, q: string, above: bool)
    requires IsNormal(stack, above, IsPosixSep) && IsAbsolute(q)
    ensures Fold(stack, Split(q, IsPosixSep), above) == Fold(stack, Segments(q), above) <==>
            !Climbs(q) || (!above && stack == [])
    ensures Fold(stack, Segments(q), above) == stack + Segments(q)
  {
    var u := NormalRooted(q, IsPosixSep);
    NormalIsNormal(q, false, IsPosixSep);
    SplitPieces(q, IsPosixSep);
    FoldReplay(stack, [], Split(q, IsPosixSep), above, IsPosixSep);
    assert Fold(stack, [], above) == stack;
    FoldAppend(stack, Ups(u), Segments(q), above);
    FoldUps(stack, u, above, IsPosixSep);
    FoldNames(Fold(stack, Ups(u), above), Segments(q), above);
    FoldNames(stack, Segments(q), above);
    var up := Fold(stack, Ups(u), above);
    assert up + Segments(q) == stack + Segments(q) <==> up == stack by {
      if up + Segments(q) == stack + Segments(q) {
        assert |up| == |stack|;
        assert up == (up + Segments(q))[..|up|] == (stack + Segments(q))[..|up|] == stack;
      }
    }
    assert Climbs(q) <==> u > 0 by {
      var all := Ups(u) + Segments(q);
      assert u == 0 ==> all == Segments(q);
    }
  }

  lemma {:induction false} FoldNames(stack: seq<string>, segs: seq<string>, above: bool)
    requires IsNormal(segs, false, IsPosixSep)
    ensures Fold(stack, segs, above) == stack + segs
    decreases |segs|
  {
    if segs != [] {
      assert Push(stack, segs[0], above) == stack + [segs[0]];
      FoldNames(stack + [segs[0]], segs[1..], above);
      assert stack + [segs[0]] + segs[1..] == stack + segs;
    } else {
      assert stack + segs == stack;
    }
  }

  /** `join` is associative, for a non-empty first argument, exactly when `JoinsAlike` holds. */
  lemma JoinAssociative(a: string, b: string, c: string)
    requires a != ""
    ensures JoinPaths([JoinPaths([a, b]), c]) == JoinPaths([a, JoinPaths([b, c])]) <==>
            JoinsAlike(a, JoinRaw([b, c]))
  {
    hide Normalize, JoinRaw, JoinsAlike;
    JoinRawPair(a, b);
    JoinRawPair(b, c);
    var ab, bc := JoinRaw([a, b]), JoinRaw([b, c]);
    NormalNonEmpty(ab);
    NormalNonEmpty(bc);
    JoinRawPair(Normalize(ab), c);
    JoinRawPair(a, JoinPaths([b, c]));
    NormalizeIdempotent(ab);
    if c != "" {
      NormalizeHead(ab, c);
    }
    if bc == "" {
      EmptyTail(a);
    } else {
      NormalizeTail(a, bc);
      assert a + "/" + bc == if c == "" then ab else ab + "/" + c by {
        if b != "" && c != "" {
          assert a + "/" + (b + "/" + c) == (a + "/" + b) + "/" + c;
        }
      }
    }
  }

  lemma NormalNonEmpty(p: string)
    ensures Normalize(p) != ""
  {
    NormalIsNormal(p, !IsAbsolute(p), IsPosixSep);
    RenderEnds(IsAbsolute(p), Segments(p), EndsWithSep(p));
  }

  lemma {:induction false} EmptyTail(a: string)
    requires a != ""
    ensures Normalize(a + "/" + ".") == Normalize(a) <==> JoinsAlike(a, "")
  {
    NormalizeCat(a, DOT);
    SplitSegment(DOT, IsPosixSep);
    FoldOne(Segments(a), DOT, !IsAbsolute(a));
    NormalIsNormal(a, !IsAbsolute(a), IsPosixSep);
    RenderInjective(IsAbsolute(a), Segments(a), false, Segments(a), EndsWithSep(a));
  }

  /** Where associativity fails: an absolute middle argument that climbs, and a lost trailing separator. */
  lemma {:induction false} JoinNotAssociative()
    ensures JoinPaths([JoinPaths(["a", "/.."]), ""]) != JoinPaths(["a", JoinPaths(["/..", ""])])
    ensures JoinPaths([JoinPaths(["a/", ""]), ""]) != JoinPaths(["a/", JoinPaths(["", ""])])
  {
    hide JoinPaths, JoinRaw, Climbs, Segments;
    JoinAssociative("a", "/..", "");
    JoinAssociative("a/", "", "");
    JoinRawPair("/..", "");
    JoinRawPair("", "");
    ClimbsUp();
  }

  lemma ClimbsUp()
    ensures Climbs("/..")
  {
    var q := "" + [SEP] + "..";
    assert q == "/..";
    SplitJoined("", SEP, "..", IsPosixSep);
    SplitEmpty();
    SplitSegment("..", IsPosixSep);
    FoldAppend([], [""], [".."], true);
    FoldOne([], "", true);
    FoldOne([], "..", true);
    assert Climbs("/..");
  }
}
