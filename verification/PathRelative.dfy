/** `resolve` as changing directories, and `relative` as the way from one directory to another. */
module PathRelative {
  import opened PathSegments
  import opened PosixPath

  /** Changing from the directory `dir` to `arg`. */
  function Cd(dir: seq<string>, arg: string): seq<string> {
    if arg == "" then dir else Fold(if IsAbsolute(arg) then [] else dir, Split(arg, IsPosixSep), false)
  }

  function CdAll(dir: seq<string>, args: seq<string>): seq<string> {
    if args == [] then dir else Cd(CdAll(dir, args[..|args| - 1]), args[|args| - 1])
  }

  lemma {:induction false} CdAllDirectory(dir: seq<string>, args: seq<string>)
    requires IsDirectory(dir)
    ensures IsDirectory(CdAll(dir, args))
  {
    if args != [] {
      CdAllDirectory(dir, args[..|args| - 1]);
      SplitPieces(args[|args| - 1], IsPosixSep);
      var from := if IsAbsolute(args[|args| - 1]) then [] else CdAll(dir, args[..|args| - 1]);
      FoldNormal(from, Split(args[|args| - 1], IsPosixSep), false, IsPosixSep);
    }
  }

  lemma FoldEmptyText(stack: seq<string>)
    ensures Fold(stack, Split("", IsPosixSep), false) == stack
  {
    SplitEmpty();
    FoldOne(stack, "", false);
  }

  /** What `resolve` has collected from the last arguments acts as changing to them in turn. */
  lemma {:induction false} CollectMeaning(dir: seq<string>, args: seq<string>, resolved: string)
    requires !IsAbsolute(resolved)
    ensures var text := Collect(args, resolved);
            Fold(CdAll(dir, args), Split(resolved, IsPosixSep), false) ==
            Fold(if IsAbsolute(text) then [] else dir, Split(text, IsPosixSep), false)
    decreases |args|
  {
    if args != [] {
      var init, last := args[..|args| - 1], args[|args| - 1];
      if last == "" {
        CollectMeaning(dir, init, resolved);
      } else {
        var from := if IsAbsolute(last) then [] else CdAll(dir, init);
        SplitJoined(last, SEP, resolved, IsPosixSep);
        FoldAppend(from, Split(last, IsPosixSep), Split(resolved, IsPosixSep), false);
        if !IsAbsolute(last) {
          CollectMeaning(dir, init, last + "/" + resolved);
        }
      }
    }
  }

  lemma NormalFromRoot(dir: seq<string>)
    requires IsDirectory(dir)
    ensures Normal(FromRoot(dir), false, IsPosixSep) == dir
  {
    assert FromRoot(dir) == Render(true, dir, false);
    NormalizeRender(true, dir, false);
  }

  /** `resolve` from a normalized directory is changing to each argument in turn. */
  lemma ResolveIsCd(dir: seq<string>, args: seq<string>)
    requires IsDirectory(dir)
    ensures Resolve(args, FromRoot(dir)) == FromRoot(CdAll(dir, args))
  {
    var cwd := FromRoot(dir);
    if args == [] || args == [""] || args == ["."] {
      if args == ["."] {
        SplitSegment(".", IsPosixSep);
        FoldOne(dir, ".", false);
      }
      assert args != [] ==> args[..|args| - 1] == [];
    } else {
      var text := Collect(args, "");
      CollectMeaning(dir, args, "");
      FoldEmptyText(CdAll(dir, args));
      if !IsAbsolute(text) {
        NormalFromRoot(dir);
        NormalCat(cwd, text, false);
      }
    }
  }

  lemma FromRootInjective(a: seq<string>, b: seq<string>)
    requires IsDirectory(a) && IsDirectory(b)
    ensures FromRoot(a) == FromRoot(b) <==> a == b
  {
    NormalFromRoot(a);
    NormalFromRoot(b);
  }

  // ------------------------------------------------------------------ relative

  /** The number of leading segments that two directories share. */
  function Common(f: seq<string>, t: seq<string>): (l: nat)
    ensures l <= |f| && l <= |t| && f[..l] == t[..l]
    ensures l < |f| && l < |t| ==> f[l] != t[l]
  {
    if f == [] || t == [] || f[0] != t[0] then 0
    else
      assert f == [f[0]] + f[1..] && t == [t[0]] + t[1..];
      1 + Common(f[1..], t[1..])
  }

  /** One ".." for each segment of `f` past the common ones, then the rest of `t`. */
  function Way(f: seq<string>, t: seq<string>): seq<string> {
    Ups(|f| - Common(f, t)) + t[Common(f, t)..]
  }

  lemma CommonIs(f: seq<string>, t: seq<string>, k: nat)
    requires k <= |f| && k <= |t| && f[..k] == t[..k]
    requires k < |f| && k < |t| ==> f[k] != t[k]
    ensures Common(f, t) == k
  {
    PrefixAgrees(f, t, k);
    PrefixAgrees(f, t, Common(f, t));
  }

  lemma PrefixAgrees<T>(a: seq<T>, b: seq<T>, k: nat)
    requires k <= |a| && k <= |b| && a[..k] == b[..k]
    ensures forall j :: 0 <= j < k ==> a[j] == b[j]
  {
    assert forall j :: 0 <= j < k ==> a[j] == a[..k][j] && b[j] == b[..k][j];
  }

  lemma {:induction false} FoldUpsTake(f: seq<string>, n: nat)
    requires IsDirectory(f) && n <= |f|
    ensures Fold(f, Ups(n), false) == f[..|f| - n]
  {
    if n > 0 {
      assert Ups(n)[1..] == Ups(n - 1);
      assert Push(f, UP, false) == f[..|f| - 1];
      FoldUpsTake(f[..|f| - 1], n - 1);
      assert f[..|f| - 1][..|f| - n] == f[..|f| - n];
    }
  }

  lemma WayIsNormal(f: seq<string>, t: seq<string>)
    requires IsDirectory(f) && IsDirectory(t)
    ensures IsNormal(Way(f, t), true, IsPosixSep)
    ensures Way(f, t) == [] <==> f == t
  {
    if Way(f, t) == [] {
      assert f[..|f|] == t[..|t|];
    }
    if f == t {
      CommonIs(f, t, |f|);
    }
  }

  lemma DirectoryDrop(t: seq<string>, k: nat)
    requires IsDirectory(t) && k <= |t|
    ensures IsDirectory(t[k..])
  {
  }

  /** The way leads there. */
  lemma WayLeads(f: seq<string>, t: seq<string>)
    requires IsDirectory(f) && IsDirectory(t)
    ensures Fold(f, Way(f, t), false) == t
  {
    hide Fold, IsNormal;
    var l := Common(f, t);
    DirectoryDrop(t, l);
    FoldAppend(f, Ups(|f| - l), t[l..], false);
    FoldUpsTake(f, |f| - l);
    FoldNames(f[..l], t[l..], false);
    assert t[..l] + t[l..] == t;
  }

  /** And no other relative normal form that leads there is as short. */
  lemma {:induction false} WayShortest(f: seq<string>, t: seq<string>, u: nat, names: seq<string>)
    requires IsDirectory(f) && IsDirectory(t) && IsDirectory(names)
    requires Fold(f, Ups(u) + names, false) == t
    ensures |Way(f, t)| <= u + |names|
    ensures |Way(f, t)| == u + |names| ==> Way(f, t) == Ups(u) + names
  {
    hide Fold;
    var l := Common(f, t);
    FoldAppend(f, Ups(u), names, false);
    if u <= |f| {
      FoldUpsTake(f, u);
      FoldNames(f[..|f| - u], names, false);
      assert t == f[..|f| - u] + names;
      var k := |f| - u;
      assert forall j :: 0 <= j < k ==> t[j] == f[j];
      assert names == t[k..];
    } else {
      assert Ups(u) == Ups(|f|) + Ups(u - |f|);
      FoldAppend(f, Ups(|f|), Ups(u - |f|), false);
      FoldUpsTake(f, |f|);
      FoldUps([], u - |f|, false, IsPosixSep);
      FoldNames([], names, false);
      assert [] + names == names;
    }
  }

  /** What `relative` returns, for directories. */
  function RelativeText(f: seq<string>, t: seq<string>): string {
    Join(Way(f, t), SEP)
  }

  function From(dir: seq<string>, arg: string): seq<string> { CdAll(dir, [arg]) }

  lemma CdAllTwo(dir: seq<string>, a: string, b: string)
    ensures CdAll(dir, [a, b]) == Cd(From(dir, a), b)
  {
    assert [a, b][..1] == [a];
  }

  /** Resolving a relative path against its start gives its goal: `relative` is undone by `resolve`. */
  lemma ResolveRelative(dir: seq<string>, from: string, to: string)
    requires IsDirectory(dir)
    ensures Resolve([from, RelativeText(From(dir, from), From(dir, to))], FromRoot(dir)) == Resolve([to], FromRoot(dir))
  {
    var f, t := From(dir, from), From(dir, to);
    CdAllDirectory(dir, [from]);
    CdAllDirectory(dir, [to]);
    var r := RelativeText(f, t);
    ResolveIsCd(dir, [from, r]);
    ResolveIsCd(dir, [to]);
    CdAllTwo(dir, from, r);
    WayIsNormal(f, t);
    WayLeads(f, t);
    JoinLong(Way(f, t), SEP, IsPosixSep);
    FoldSplitJoin(f, Way(f, t), false);
  }

  // --------------------------------------------------- `relative` on characters

  /** A separator in a joined list stands between two of its segments. */
  lemma JoinNothing()
    ensures Join([], SEP) == ""
  {
  }

  lemma JoinLast(segs: seq<string>)
    requires segs != []
    ensures Join(segs, SEP) == if |segs| == 1 then segs[0] else Join(segs[..|segs| - 1], SEP) + [SEP] + segs[|segs| - 1]
    ensures |segs| == 1 ==> Join(segs[..|segs| - 1], SEP) == ""
  {
    JoinNothing();
    assert |segs| == 1 ==> segs[..|segs| - 1] == [];
  }

  lemma NoSepIn(s: string)
    requires IsSegment(s, IsPosixSep)
    ensures SEP !in s
  {
  }

  lemma {:induction false} SepPosition(segs: seq<string>, c: nat) returns (k: nat)
    requires forall i :: 0 <= i < |segs| ==> IsSegment(segs[i], IsPosixSep)
    requires c < |Join(segs, SEP)| && Join(segs, SEP)[c] == SEP
    ensures 0 < k < |segs| && Join(segs[..k], SEP) == Join(segs, SEP)[..c]
    ensures Join(segs[k..], SEP) == Join(segs, SEP)[c + 1..]
  {
    hide IsSegment, Join;
    assert segs != [] by { JoinNothing(); }
    var init, last := segs[..|segs| - 1], segs[|segs| - 1];
    NoSepIn(last);
    JoinLast(segs);
    assert |segs| > 1;
    SepIn(Join(init, SEP), last, c);
    if c < |Join(init, SEP)| {
      k := SepPosition(init, c);
      assert init[..k] == segs[..k];
      assert segs[k..][..|segs[k..]| - 1] == init[k..] && segs[k..][|segs[k..]| - 1] == last;
      JoinLast(segs[k..]);
    } else {
      k := |segs| - 1;
      assert segs[k..] == [last];
      JoinLast([last]);
    }
  }

  /** A separator of a joined text is in its front, or the one before its last segment. */
  lemma SepIn(front: string, last: string, c: nat)
    requires SEP !in last && c < |front + [SEP] + last| && (front + [SEP] + last)[c] == SEP
    ensures c <= |front| && (front + [SEP] + last)[..c] == front[..c]
    ensures c < |front| ==> front[c] == SEP && (front + [SEP] + last)[c + 1..] == front[c + 1..] + [SEP] + last
    ensures c == |front| ==> front[..c] == front && (front + [SEP] + last)[c + 1..] == last
  {
    var whole := front + [SEP] + last;
    assert forall j :: |front| < j < |whole| ==> whole[j] == last[j - |front| - 1];
    assert whole[..c] == front[..c];
  }

  lemma JoinInjective(a: seq<string>, b: seq<string>)
    requires IsDirectory(a) && IsDirectory(b) && Join(a, SEP) == Join(b, SEP)
    ensures a == b
  {
    FromRootInjective(a, b);
  }

  lemma DirectoryTake(t: seq<string>, k: nat)
    requires IsDirectory(t) && k <= |t|
    ensures IsDirectory(t[..k])
  {
  }

  /** A whole list that is followed by a separator in another is its head. */
  lemma {:induction false} HeadAt(f: seq<string>, t: seq<string>)
    requires IsDirectory(f) && IsDirectory(t)
    requires |Join(f, SEP)| < |Join(t, SEP)| && Join(t, SEP)[|Join(f, SEP)|] == SEP
    requires Join(t, SEP)[..|Join(f, SEP)|] == Join(f, SEP)
    ensures |f| < |t| && f == t[..|f|] && Join(t[|f|..], SEP) == Join(t, SEP)[|Join(f, SEP)| + 1..]
  {
    hide Join;
    var k := SepPosition(t, |Join(f, SEP)|);
    DirectoryTake(t, k);
    JoinInjective(f, t[..k]);
  }

  /** The last separator before the first difference: the segments before it are the common ones. */
  lemma {:induction false} CommonAt(f: seq<string>, t: seq<string>, i: nat, c: int) returns (k: nat)
    requires IsDirectory(f) && IsDirectory(t) && f != [] && t != []
    requires LastCommonSep(Join(f, SEP), Join(t, SEP), i, c)
    requires Differ(Join(f, SEP), Join(t, SEP), i)
    ensures k < |f| && k < |t| && Common(f, t) == k && (k == 0 <==> c == -1)
    ensures Join(f[k..], SEP) == Join(f, SEP)[c + 1..] && Join(t[k..], SEP) == Join(t, SEP)[c + 1..]
  {
    hide Join, IsNormal, Differ;
    k := SameHeads(f, t, i, c);
    if f[k] == t[k] {
      var a, b := Join(f, SEP), Join(t, SEP);
      SameSegment(f[k..], t[k..], a[c + 1..], b[c + 1..]);
      var e := c + 1 + |f[k]|;
      AgreeFurther(a, b, c + 1, |f[k]|);
      SameEnd(a, b, i, c, e);
    }
    CommonIs(f, t, k);
  }

  lemma {:induction false} SameHeads(f: seq<string>, t: seq<string>, i: nat, c: int) returns (k: nat)
    requires IsDirectory(f) && IsDirectory(t) && f != [] && t != []
    requires LastCommonSep(Join(f, SEP), Join(t, SEP), i, c)
    ensures k < |f| && k < |t| && f[..k] == t[..k] && (k == 0 <==> c == -1)
    ensures Join(f[k..], SEP) == Join(f, SEP)[c + 1..] && Join(t[k..], SEP) == Join(t, SEP)[c + 1..]
    ensures Join(f, SEP)[..c + 1] == Join(t, SEP)[..c + 1]
  {
    hide Join;
    var a, b := Join(f, SEP), Join(t, SEP);
    k := 0;
    if c >= 0 {
      PrefixAgrees(a, b, i);
      k := SepPosition(f, c);
      var k' := SepPosition(t, c);
      assert a[..c] == b[..c];
      DirectoryTake(f, k);
      DirectoryTake(t, k');
      JoinInjective(f[..k], t[..k']);
      assert |f[..k]| == |t[..k']|;
    }
  }

  lemma AgreeFurther(a: string, b: string, m: nat, n: nat)
    requires m + n <= |a| && m + n <= |b|
    requires a[..m] == b[..m] && a[m..][..n] == b[m..][..n]
    ensures a[..m + n] == b[..m + n]
    ensures m + n < |a| ==> a[m + n] == a[m..][n]
    ensures m + n < |b| ==> b[m + n] == b[m..][n]
  {
    assert a[..m + n] == a[..m] + a[m..][..n];
    assert b[..m + n] == b[..m] + b[m..][..n];
  }

  /** All positions before `i` agree and `c` is the last separator among them, or -1. */
  ghost predicate LastCommonSep(a: string, b: string, i: nat, c: int) {
    && i <= |a| && i <= |b| && a[..i] == b[..i]
    && -1 <= c < i && (c >= 0 ==> a[c] == SEP)
    && forall j :: c < j < i ==> a[j] != SEP
  }

  /** Position `i` differs, or one text ends there in the middle of a segment of the other. */
  ghost predicate Differ(a: string, b: string, i: nat)
    requires i <= |a| && i <= |b|
  {
    || (i < |a| && i < |b| && a[i] != b[i])
    || (i == |a| && i < |b| && b[i] != SEP)
    || (i == |b| && i < |a| && a[i] != SEP)
  }

  lemma SameSegment(f: seq<string>, t: seq<string>, a: string, b: string)
    requires f != [] && t != [] && f[0] == t[0] && a == Join(f, SEP) && b == Join(t, SEP)
    ensures |f[0]| <= |a| && |f[0]| <= |b| && a[..|f[0]|] == b[..|f[0]|] == f[0]
    ensures |f[0]| < |a| ==> a[|f[0]|] == SEP
    ensures |f[0]| < |b| ==> b[|f[0]|] == SEP
  {
    FirstSegment(f);
    FirstSegment(t);
  }

  lemma FirstSegment(f: seq<string>)
    requires f != []
    ensures |f[0]| <= |Join(f, SEP)| && Join(f, SEP)[..|f[0]|] == f[0]
    ensures |f[0]| < |Join(f, SEP)| ==> Join(f, SEP)[|f[0]|] == SEP
  {
    assert f == [f[0]] + f[1..];
    JoinAppend([f[0]], f[1..], SEP);
    assert Join([f[0]], SEP) == f[0];
  }

  /** Two texts that agree up to the end of a segment of both have no difference before it. */
  lemma SameEnd(a: string, b: string, i: nat, c: int, e: nat)
    requires LastCommonSep(a, b, i, c)
    requires c < e <= |a| && e <= |b| && a[..e] == b[..e]
    requires (e < |a| ==> a[e] == SEP) && (e < |b| ==> b[e] == SEP)
    ensures !Differ(a, b, i)
  {
    PrefixAgrees(a, b, e);
  }

  lemma SplitTail(p: string)
    requires p != "" && !IsPosixSep(p[0])
    ensures |Split(p[1..], IsPosixSep)| == |Split(p, IsPosixSep)|
  {
    var k := NextSep(p, IsPosixSep);
    if k < |p| {
      SplitFirst(p[1..], k - 1, IsPosixSep);
      assert p[1..][k..] == p[k + 1..];
    } else {
      SplitSegment(p[1..], IsPosixSep);
    }
  }
}
