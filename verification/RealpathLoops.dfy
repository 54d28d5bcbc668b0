/** The loop of `realpathSync` on the text of the path, with the position and the pieces it keeps. */
module RealpathLoops {
  import opened Results
  import opened PathSegments
  import opened PosixPath
  import opened PathRelative
  import opened PathLoops
  import opened Realpath

  /** The text of a directory with a separator at its end. */
  function DirText(dir: seq<string>): string {
    if dir == [] then "/" else FromRoot(dir) + "/"
  }

  /** Position `pos` of `p` is where part `k` of its segments starts, or the end. */
  ghost predicate At(p: string, pos: int, segs: seq<string>, k: int) {
    && 0 <= pos <= |p| && 0 <= k <= |segs| && IsDirectory(segs) && p == FromRoot(segs)
    && (if k == |segs| then pos == |p| else p[pos..] == Join(segs[k..], SEP) && p[..pos] == DirText(segs[..k]))
  }

  lemma JoinOne(s: string)
    ensures Join([s], SEP) == s
  {
  }

  lemma NamesNonEmpty(segs: seq<string>)
    requires IsDirectory(segs) && segs != []
    ensures Join(segs, SEP) != ""
  {
    JoinLong(segs, SEP, IsPosixSep);
  }

  lemma {:induction false} NamesText(segs: seq<string>)
    requires IsDirectory(segs) && segs != []
    ensures var text := Join(segs, SEP); var n := NextSep(text, IsPosixSep);
            && text != "" && n == |segs[0]| && text[..n] == segs[0]
            && (if |segs| == 1 then n == |text| else n < |text| && text[n + 1..] == Join(segs[1..], SEP))
  {
    hide Join, NextSep;
    var text := Join(segs, SEP);
    FirstSegment(segs);
    assert segs == [segs[0]] + segs[1..];
    JoinAppend([segs[0]], segs[1..], SEP);
    JoinOne(segs[0]);
    if |segs| > 1 {
      DirectoryDrop(segs, 1);
      NamesNonEmpty(segs[1..]);
    }
    assert forall j :: 0 <= j < |segs[0]| ==> text[j] == text[..|segs[0]|][j];
    NextSepAt(text, |segs[0]|, IsPosixSep);
  }

  lemma DirTextStep(dir: seq<string>, s: string)
    ensures DirText(dir) + s == FromRoot(dir + [s]) && DirText(dir) + s + "/" == DirText(dir + [s])
  {
    JoinAppend(dir, [s], SEP);
    assert Join([s], SEP) == s;
    if dir == [] {
      assert "/" + s == FromRoot(dir + [s]);
    } else {
      assert "/" + Join(dir, SEP) + "/" + s == "/" + (Join(dir, SEP) + [SEP] + s);
    }
  }

  lemma AtStart(segs: seq<string>)
    requires IsDirectory(segs)
    ensures At(FromRoot(segs), 1, segs, 0)
    ensures segs != [] ==> FromRoot(segs) != "/" && FromRoot(segs)[1] != '/'
  {
    assert segs[0..] == segs && segs[..0] == [];
    if segs != [] {
      NamesText(segs);
      assert FromRoot(segs)[1] == Join(segs, SEP)[0] == segs[0][0];
    } else {
      assert Join(segs, SEP) == "";
    }
  }

  /** One part further. */
  lemma {:induction false} AtNext(p: string, pos: nat, segs: seq<string>, k: nat)
    requires At(p, pos, segs, k) && pos < |p|
    ensures var n := NextSep(p[pos..], IsPosixSep);
            && k < |segs| && n <= |p| - pos && p[pos..pos + n] == segs[k]
            && p[..pos] + p[pos..pos + n] == FromRoot(segs[..k] + [segs[k]]) && segs[..k] + [segs[k]] == segs[..k + 1]
            && (if k + 1 == |segs| then pos + n == |p| && At(p, |p|, segs, k + 1)
                else pos + n < |p| && At(p, pos + n + 1, segs, k + 1) && p[..pos + n + 1] == p[..pos] + p[pos..pos + n + 1])
  {
    hide FromRoot, DirText, Join, NextSep;
    var n := NextSep(p[pos..], IsPosixSep);
    var rest := segs[k..];
    DirectoryDrop(segs, k);
    NamesText(rest);
    assert p[pos..pos + n] == p[pos..][..n] == segs[k];
    DirTextStep(segs[..k], segs[k]);
    assert rest[1..] == segs[k + 1..];
    if k + 1 < |segs| {
      assert p[pos..][n + 1..] == p[pos + n + 1..];
      assert p[pos + n] == p[pos..][n] == SEP;
      assert p[..pos + n + 1] == p[..pos] + p[pos..pos + n] + "/";
      assert segs[..k] + [segs[k]] == segs[..k + 1];
    }
  }

  /** A directory with or without a separator at its end, as an argument of `resolve`. */
  lemma CdDirText(dir: seq<string>, to: seq<string>)
    requires IsDirectory(to)
    ensures Cd(dir, DirText(to)) == to && Cd(dir, FromRoot(to)) == to
  {
    CdRoot(dir, to);
    if to == [] {
      assert Join(to, SEP) == "" && DirText(to) == FromRoot(to);
    } else {
      SplitJoined(FromRoot(to), SEP, "", IsPosixSep);
      SplitEmpty();
      assert FromRoot(to) + [SEP] + "" == DirText(to);
      FoldAppend([], Split(FromRoot(to), IsPosixSep), [""], false);
      FoldOne(to, "", false);
    }
  }

  lemma CdNames(dir: seq<string>, names: seq<string>)
    requires IsDirectory(names)
    ensures Cd(dir, Join(names, SEP)) == dir + names
  {
    if names == [] {
      assert dir + names == dir;
    } else {
      NamesText(names);
      SplitJoin(names, SEP, IsPosixSep);
      FoldNames(dir, names, false);
    }
  }

  /** `resolve` of a directory and a text. */
  lemma ResolveTwo(cwd: seq<string>, a: string, b: string, to: seq<string>)
    requires IsDirectory(cwd) && Cd(cwd, a) == to
    ensures Resolve([a, b], FromRoot(cwd)) == FromRoot(Cd(to, b))
  {
    hide Cd, FromRoot;
    ResolveIsCd(cwd, [a, b]);
    CdAllTwo(cwd, a, b);
    CdOne(cwd, a);
    CdOne(to, b);
  }

  /** `splitRoot`: the separators in front. */
  method SplitRoot(str: string) returns (root: string)
    ensures root <= str && (forall i :: 0 <= i < |root| ==> root[i] == '/')
    ensures |root| == |str| || str[|root|] != '/'
  {
    var i := 0;
    while i < |str|
      invariant 0 <= i <= |str| && forall j :: 0 <= j < i ==> str[j] == '/'
    {
      if str[i] != '/' {
        return str[..i];
      }
      i := i + 1;
    }
    return str;
  }

  lemma RootIs(segs: seq<string>, root: string)
    requires IsDirectory(segs) && root <= FromRoot(segs) && (forall i :: 0 <= i < |root| ==> root[i] == '/')
    requires |root| == |FromRoot(segs)| || FromRoot(segs)[|root|] != '/'
    ensures root == "/"
  {
    AtStart(segs);
    assert forall i :: 0 <= i < |root| ==> FromRoot(segs)[i] == root[i];
    assert segs == [] ==> FromRoot(segs) == "/";
  }

  lemma ResolveOne(dir: seq<string>, path: string)
    requires IsDirectory(dir)
    ensures Resolve([path], FromRoot(dir)) == FromRoot(Cd(dir, path)) && IsDirectory(Cd(dir, path))
    ensures IsAbsolute(FromRoot(dir))
  {
    ResolveIsCd(dir, [path]);
    CdOne(dir, path);
    CdAllDirectory(dir, [path]);
  }

  lemma TakeNone(segs: seq<string>)
    ensures segs[..0] == [] && segs[0..] == segs
    ensures FromRoot(segs)[..1] == "/"
  {
  }

  lemma AtDirectory(p: string, pos: nat, segs: seq<string>, k: nat)
    requires At(p, pos, segs, k) && pos < |p|
    ensures p[..pos] == DirText(segs[..k]) && IsDirectory(segs[..k])
  {
    DirectoryTake(segs, k);
  }

  lemma AtEnd(p: string, pos: nat, segs: seq<string>, k: nat)
    requires At(p, pos, segs, k) && pos == |p|
    ensures k == |segs| && p == FromRoot(segs)
  {
    if k < |segs| {
      DirectoryDrop(segs, k);
      NamesNonEmpty(segs[k..]);
    }
  }

  lemma RoundUnfolds(fs: Fs, segs: seq<string>, k: nat, left: nat, seen: map<nat, string>)
    requires k < |segs|
    ensures segs[..k] + [segs[k]] == segs[..k + 1]
    ensures Rounds(fs, segs[..k], segs[k..], left, seen) ==
            var at := FromRoot(segs[..k + 1]);
            if at !in fs.entries then Missing(at)
            else if fs.entries[at].Plain? then Rounds(fs, segs[..k + 1], segs[k + 1..], left, seen)
            else if left == 0 then TooMany
            else
              var id := fs.entries[at].id;
              if id !in seen && at !in fs.reachable then Unreachable(at)
              else
                var text := if id in seen then seen[id] else fs.entries[at].target;
                Rounds(fs, [], Cd(segs[..k], text) + segs[k + 1..], left - 1, seen[id := text])
  {
    hide Cd;
    assert segs[..k] + [segs[k]] == segs[..k + 1] && segs[k..][1..] == segs[k + 1..];
  }

  lemma RoundEnds(fs: Fs, segs: seq<string>, k: nat, left: nat, seen: map<nat, string>)
    requires k == |segs|
    ensures Rounds(fs, segs[..k], segs[k..], left, seen) == Real(segs)
  {
    assert segs[..k] == segs && segs[k..] == [];
  }

  /** The link's target with the rest of the path behind it. */
  lemma {:induction false} Rest(p: string, pos: nat, segs: seq<string>, k: nat, before: seq<string>, target: string,
                                dir: seq<string>)
    requires At(p, pos, segs, k) && IsDirectory(before) && IsDirectory(dir)
    ensures var q := Cd(before, target);
            Resolve([FromRoot(q), p[pos..]], FromRoot(dir)) == FromRoot(q + segs[k..]) && IsDirectory(q + segs[k..])
  {
    hide Cd, FromRoot, DirText;
    var q := Cd(before, target);
    NormalNothing();
    DirectoryCd(before, target, []);
    assert q + [] == q;
    DirectoryDrop(segs, k);
    DirectoryCd(before, target, segs[k..]);
    CdDirText(dir, q);
    ResolveTwo(dir, FromRoot(q), p[pos..], q);
    NoNames();
    CdNames(q, segs[k..]);
    assert k == |segs| ==> segs[k..] == [] && p[pos..] == "";
  }

  lemma NoNames()
    ensures Join([], SEP) == ""
  {
  }

  ghost predicate Known(fs: Fs, known: set<string>) {
    forall at :: at in known ==> at in fs.entries && fs.entries[at].Plain?
  }

  /** The next part of the path, with the path up to it with and without the separator after it. */
  method NextPart(p: string, pos: nat, previous: string, ghost segs: seq<string>, ghost k: nat)
    returns (current: string, base: string, next: nat)
    requires At(p, pos, segs, k) && pos < |p| && previous == p[..pos]
    ensures k < |segs| && pos < next <= |p| && At(p, next, segs, k + 1)
    ensures current == p[..next] && base == FromRoot(segs[..k + 1])
  {
    hide FromRoot, At, IsNormal, NextSep;
    AtNext(p, pos, segs, k);
    var n := NextSep(p[pos..], IsPosixSep);
    if pos + n == |p| {
      var last := p[pos..];
      assert last == p[pos..pos + n];
      current := previous + last;
      base := previous + last;
      next := |p|;
      FullLength(p, pos, segs, k);
    } else {
      current := previous + p[pos..pos + n + 1];
      base := previous + p[pos..pos + n];
      next := pos + n + 1;
      assert k + 1 < |segs|;
    }
  }

  lemma FullLength(p: string, pos: nat, segs: seq<string>, k: nat)
    requires pos < |p| && k < |segs| && At(p, pos, segs, k) && pos + NextSep(p[pos..], IsPosixSep) == |p|
    ensures k + 1 == |segs|
  {
    hide FromRoot, At, IsNormal, NextSep;
    AtNext(p, pos, segs, k);
  }

  /** A link's target in its directory, with the rest of the path behind it. */
  method FollowLink(p: string, pos: nat, previous: string, target: string, cwd: string,
                    ghost dir: seq<string>, ghost segs: seq<string>, ghost k: nat)
    returns (r: string)
    requires IsDirectory(dir) && cwd == FromRoot(dir) && k < |segs| && IsDirectory(segs[..k])
    requires At(p, pos, segs, k + 1) && previous == DirText(segs[..k])
    ensures IsDirectory(Cd(segs[..k], target) + segs[k + 1..]) && r == FromRoot(Cd(segs[..k], target) + segs[k + 1..])
  {
    hide FromRoot, Cd, DirText, IsNormal, At;
    ResolveOne(dir, "");
    CdDirText(dir, segs[..k]);
    ResolveTwo(dir, previous, target, segs[..k]);
    var resolvedLink := ResolveArgs([previous, target], cwd);
    AtBounds(p, pos, segs, k + 1);
    Rest(p, pos, segs, k + 1, segs[..k], target, dir);
    r := ResolveArgs([resolvedLink, p[pos..]], cwd);
  }

  lemma AtBounds(p: string, pos: int, segs: seq<string>, k: int)
    requires At(p, pos, segs, k)
    ensures 0 <= pos <= |p| && 0 <= k <= |segs|
  {
  }

  /** The start of a round: past the separators in front. */
  method StartOver(p: string, ghost segs: seq<string>) returns (root: string)
    requires IsDirectory(segs) && p == FromRoot(segs)
    ensures root == "/" && |p| >= 1 && p[..1] == root && At(p, 1, segs, 0)
  {
    root := SplitRoot(p);
    RootIs(segs, root);
    AtStart(segs);
    TakeNone(segs);
  }

  /**
   * `realpathSync` without a cache, for at most `links` links. The paths that
   * `lstat` has found not to be links are kept in `knownHard`, the targets read
   * so far in `seenLinks`.
   */
  method RealpathSync(fs: Fs, path: string, cwd: string, links: nat, ghost dir: seq<string>)
    returns (r: Result<string, Outcome>)
    requires IsDirectory(dir) && cwd == FromRoot(dir)
    ensures var o := RealpathOf(fs, dir, path, links); r == if o.Real? then Ok(FromRoot(o.path)) else Err(o)
  {
    hide Rounds, FromRoot, Cd, At, DirText, IsNormal, NextSep;
    ResolveOne(dir, path);
    var p := ResolveArgs([path], cwd);
    ghost var segs, k: nat := Cd(dir, path), 0;
    ghost var goal := RealpathOf(fs, dir, path, links);
    var seenLinks: map<nat, string>, knownHard: set<string> := map[], {};
    var left := links;
    var current := StartOver(p, segs);
    var pos, base := |current|, current;
    TakeNone(segs);
    while pos < |p|
      invariant 0 <= pos <= |p| && k <= |segs| && At(p, pos, segs, k) && current == p[..pos]
      invariant Known(fs, knownHard)
      invariant Rounds(fs, segs[..k], segs[k..], left, seenLinks) == goal
      decreases left, |p| - pos
    {
      AtDirectory(p, pos, segs, k);
      var previous := current;
      current, base, pos := NextPart(p, pos, previous, segs, k);
      RoundUnfolds(fs, segs, k, left, seenLinks);
      k := k + 1;
      if base in knownHard {
        continue;
      }
      if base !in fs.entries {
        return Err(Missing(base));
      }
      if fs.entries[base].Plain? {
        knownHard := knownHard + {base};
        continue;
      }
      if left == 0 {
        return Err(TooMany);
      }
      var id := fs.entries[base].id;
      if id !in seenLinks && base !in fs.reachable {
        return Err(Unreachable(base));
      }
      var linkTarget := if id in seenLinks then seenLinks[id] else fs.entries[base].target;
      seenLinks := seenLinks[id := linkTarget];
      p := FollowLink(p, pos, previous, linkTarget, cwd, dir, segs, k - 1);
      segs, k := Cd(segs[..k - 1], linkTarget) + segs[k..], 0;
      left := left - 1;
      current := StartOver(p, segs);
      pos, base := |current|, current;
      TakeNone(segs);
    }
    AtEnd(p, pos, segs, k);
    RoundEnds(fs, segs, k, left, seenLinks);
    r := Ok(p);
  }
}
