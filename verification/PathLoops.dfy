/** The character loops of lib/path.js, proved equal to the functions on segments. */
module PathLoops {
  import opened PathSegments
  import opened PosixPath
  import opened PathRelative

  /** The `dots` counter after the characters of `cur`: how many dots it is made of, or -1. */
  function Dots(cur: string): int {
    if forall k :: 0 <= k < |cur| ==> cur[k] == '.' then |cur| else -1
  }

  lemma DotsSegments(cur: string)
    ensures Dots(cur) == 0 <==> cur == ""
    ensures Dots(cur) == 1 <==> cur == DOT
    ensures Dots(cur) == 2 <==> cur == UP
  {
  }

  lemma DotsStep(path: string, lastSlash: int, i: nat)
    requires -1 <= lastSlash < i < |path|
    ensures var before, after := Dots(path[lastSlash + 1..i]), Dots(path[lastSlash + 1..i + 1]);
            after == if path[i] == '.' && before != -1 then before + 1 else -1
  {
    var cur := path[lastSlash + 1..i];
    assert path[lastSlash + 1..i + 1] == cur + [path[i]];
    if path[i] == '.' && Dots(cur) == -1 {
      var k :| 0 <= k < |cur| && cur[k] != '.';
      assert (cur + [path[i]])[k] != '.';
    }
  }

  /** What the loop keeps of the segment stack: the joined text and the length of the last segment. */
  ghost predicate Kept(res: string, lastSegmentLength: int, stack: seq<string>, sep: char, isSep: Separators) {
    && (forall i :: 0 <= i < |stack| ==> IsSegment(stack[i], isSep))
    && res == Join(stack, sep)
    && lastSegmentLength == if stack == [] then 0 else |stack[|stack| - 1]|
  }

  /** `String.prototype.lastIndexOf` for one character. */
  function LastIndexOf(s: string, c: char): (i: int)
    ensures -1 <= i < |s|
    ensures i >= 0 ==> s[i] == c
    ensures forall k :: i < k < |s| ==> s[k] != c
  {
    if s == "" then -1 else if s[|s| - 1] == c then |s| - 1 else LastIndexOf(s[..|s| - 1], c)
  }

  lemma LastSep(res: string, init: string, last: string, sep: char)
    requires res == init + last && sep !in last && (init == "" || init[|init| - 1] == sep)
    ensures LastIndexOf(res, sep) == |init| - 1
  {
    hide LastIndexOf;
    assert |init| > 0 ==> res[|init| - 1] == sep;
    assert forall j :: |init| <= j < |res| ==> res[j] == last[j - |init|];
  }

  /** Reading the last segment off the joined text. */
  lemma KeptLast(res: string, len: int, stack: seq<string>, sep: char, isSep: Separators)
    requires Kept(res, len, stack, sep, isSep) && isSep(sep) && !isSep('.')
    ensures stack == [] <==> res == ""
    ensures (|res| >= 2 && len == 2 && res[|res| - 1] == '.' && res[|res| - 2] == '.') <==>
            stack != [] && stack[|stack| - 1] == UP
    ensures 0 < |res| <= 2 ==> |stack| == 1
    ensures stack != [] ==> |res| - len - 1 == (if |stack| == 1 then -1 else |Join(stack[..|stack| - 1], sep)|)
    ensures |res| - 1 - LastIndexOf(res, sep) == len
  {
    hide LastIndexOf;
    JoinLong(stack, sep, isSep);
    if stack != [] {
      var last := stack[|stack| - 1];
      var init := if |stack| == 1 then "" else Join(stack[..|stack| - 1], sep) + [sep];
      assert res == init + last;
      LastSep(res, init, last, sep);
      if len == 2 && |res| >= 2 {
        assert last == [res[|res| - 2], res[|res| - 1]];
      }
    }
  }

  /** Popping a segment, the way the original finds where to cut. */
  lemma KeptPop(res: string, len: int, stack: seq<string>, sep: char, isSep: Separators)
    requires Kept(res, len, stack, sep, isSep) && isSep(sep) && !isSep('.') && stack != []
    ensures |stack| == 1 ==> Kept("", 0, [], sep, isSep) && stack[..|stack| - 1] == []
    ensures |stack| > 1 ==>
              var cut := |res| - len - 1;
              0 <= cut <= |res| &&
              Kept(res[..cut], cut - 1 - LastIndexOf(res[..cut], sep), stack[..|stack| - 1], sep, isSep)
  {
    KeptLast(res, len, stack, sep, isSep);
    if |stack| > 1 {
      var init := stack[..|stack| - 1];
      var cut := |res| - len - 1;
      assert res == Join(init, sep) + [sep] + stack[|stack| - 1];
      assert res[..cut] == Join(init, sep);
      KeptLast(res[..cut], |init[|init| - 1]|, init, sep, isSep);
    }
  }

  lemma KeptPush(res: string, len: int, stack: seq<string>, s: string, sep: char, isSep: Separators)
    requires Kept(res, len, stack, sep, isSep) && IsSegment(s, isSep)
    ensures Kept(if |res| > 0 then res + [sep] + s else s, |s|, stack + [s], sep, isSep)
  {
    JoinLong(stack, sep, isSep);
    assert (stack + [s])[..|stack|] == stack;
  }

  /** What the loop does at a separator, for a segment that is not empty and not ".". */
  method CloseSegment(res: string, lastSegmentLength: int, cur: string, dots: int, allowAboveRoot: bool, separator: char,
                      isSep: Separators, ghost stack: seq<string>)
    returns (res': string, lastSegmentLength': int)
    requires Kept(res, lastSegmentLength, stack, separator, isSep) && isSep(separator) && !isSep('.')
    requires IsSegment(cur, isSep) && cur != DOT && dots == Dots(cur)
    ensures Kept(res', lastSegmentLength', Push(stack, cur, allowAboveRoot), separator, isSep)
  {
    DotsSegments(cur);
    KeptLast(res, lastSegmentLength, stack, separator, isSep);
    res', lastSegmentLength' := res, lastSegmentLength;
    if dots == 2 {
      if |res| < 2 || lastSegmentLength != 2 || res[|res| - 1] != '.' || res[|res| - 2] != '.' {
        if |res| > 2 {
          KeptPop(res, lastSegmentLength, stack, separator, isSep);
          var lastSlashIndex := |res| - lastSegmentLength - 1;
          if lastSlashIndex == -1 {
            res', lastSegmentLength' := "", 0;
          } else {
            res' := res[..lastSlashIndex];
            lastSegmentLength' := |res'| - 1 - LastIndexOf(res', separator);
          }
          return;
        } else if |res| != 0 {
          KeptPop(res, lastSegmentLength, stack, separator, isSep);
          res', lastSegmentLength' := "", 0;
          return;
        }
      }
      if allowAboveRoot {
        KeptPush(res, lastSegmentLength, stack, UP, separator, isSep);
        res' := if |res| > 0 then res + [separator] + ".." else "..";
        lastSegmentLength' := 2;
      }
    } else {
      KeptPush(res, lastSegmentLength, stack, cur, separator, isSep);
      if |res| > 0 {
        res' := res + [separator] + cur;
      } else {
        res' := cur;
      }
      lastSegmentLength' := |cur|;
    }
  }

  method NormalizeString(path: string, allowAboveRoot: bool, separator: char, isSep: Separators) returns (res: string)
    requires isSep(separator) && isSep('/') && !isSep('.')
    ensures res == Join(Normal(path, allowAboveRoot, isSep), separator)
  {
    DotsSegments("");
    StartNormal(path, allowAboveRoot, isSep);
    hide Kept, Fold, Split, Push, Join, NextSep, Dots, Normal;
    res := "";
    var lastSegmentLength, lastSlash, dots := 0, -1, 0;
    ghost var stack: seq<string> := [];
    KeptNothing(separator, isSep);
    var i := 0;
    var code: char := '\0';
    while i <= |path|
      invariant 0 <= i <= |path| + 1 && -1 <= lastSlash < i
      invariant 0 < i <= |path| ==> code == path[i - 1]
      invariant i <= |path| ==> forall k :: lastSlash < k < i ==> !isSep(path[k])
      invariant i <= |path| ==> dots == Dots(path[lastSlash + 1..i])
      invariant i <= |path| ==> Fold(stack, Split(path[lastSlash + 1..], isSep), allowAboveRoot) ==
                                Normal(path, allowAboveRoot, isSep)
      invariant i > |path| ==> stack == Normal(path, allowAboveRoot, isSep)
      invariant Kept(res, lastSegmentLength, stack, separator, isSep)
    {
      ghost var cur := path[lastSlash + 1..i];
      if i < |path| {
        code := path[i];
      } else if isSep(code) {
        assert path[lastSlash + 1..] == "";
        EndsAtSeparator(stack, allowAboveRoot, isSep);
        break;
      } else {
        code := '/';
      }
      if isSep(code) {
        CurrentPiece(path, lastSlash, i, isSep);
        FoldPieces(stack, cur, if i < |path| then Split(path[i + 1..], isSep) else [], allowAboveRoot);
        assert [cur] + [] == [cur];
        DotsSegments(cur);
        if lastSlash == i - 1 || dots == 1 {
          PushNothing(stack, cur, allowAboveRoot);
        } else {
          res, lastSegmentLength := CloseSegment(res, lastSegmentLength, path[lastSlash + 1..i], dots, allowAboveRoot,
                                                 separator, isSep, stack);
        }
        stack := Push(stack, cur, allowAboveRoot);
        assert i < |path| ==> path[i + 1..i + 1] == "";
        lastSlash := i;
        dots := 0;
      } else if code == '.' && dots != -1 {
        DotsStep(path, lastSlash, i);
        dots := dots + 1;
      } else {
        DotsStep(path, lastSlash, i);
        dots := -1;
      }
      i := i + 1;
    }
    KeptText(res, lastSegmentLength, stack, separator, isSep);
  }

  lemma StartNormal(path: string, above: bool, isSep: Separators)
    ensures path[0..] == path && path[0..0] == "" && Fold([], Split(path[0..], isSep), above) == Normal(path, above, isSep)
  {
    assert path[0..] == path;
  }

  lemma KeptNothing(sep: char, isSep: Separators)
    ensures Kept("", 0, [], sep, isSep)
  {
  }

  lemma KeptText(res: string, len: int, stack: seq<string>, sep: char, isSep: Separators)
    requires Kept(res, len, stack, sep, isSep)
    ensures res == Join(stack, sep)
  {
  }

  lemma PushNothing(stack: seq<string>, s: string, above: bool)
    requires s == "" || s == DOT
    ensures Push(stack, s, above) == stack
  {
  }

  lemma FoldPieces(stack: seq<string>, s: string, rest: seq<string>, above: bool)
    ensures Fold(stack, [s] + rest, above) == Fold(Push(stack, s, above), rest, above)
    ensures Fold(Push(stack, s, above), [], above) == Push(stack, s, above)
  {
    assert ([s] + rest)[1..] == rest;
  }

  /** The pieces from the current segment on. */
  lemma CurrentPiece(path: string, lastSlash: int, i: nat, isSep: Separators)
    requires -1 <= lastSlash < i <= |path| && forall k :: lastSlash < k < i ==> !isSep(path[k])
    requires i < |path| ==> isSep(path[i])
    ensures var pieces := Split(path[lastSlash + 1..], isSep);
            if i < |path| then pieces == [path[lastSlash + 1..i]] + Split(path[i + 1..], isSep)
            else pieces == [path[lastSlash + 1..i]]
  {
    var rest := path[lastSlash + 1..];
    assert rest[..i - lastSlash - 1] == path[lastSlash + 1..i];
    if i < |path| {
      SplitFirst(rest, i - lastSlash - 1, isSep);
      assert rest[i - lastSlash..] == path[i + 1..];
    } else {
      assert rest == path[lastSlash + 1..i];
      assert forall k :: 0 <= k < |rest| ==> rest[k] == path[lastSlash + 1 + k];
      SplitSegment(rest, isSep);
    }
  }

  /** A path that ends with a separator, or is empty, has nothing left to push. */
  lemma EndsAtSeparator(stack: seq<string>, above: bool, isSep: Separators)
    ensures Fold(stack, Split("", isSep), above) == stack
  {
    SplitSegment("", isSep);
    FoldOne(stack, "", above);
  }

  lemma NormalStringEmpty(path: string, above: bool)
    ensures NormalString(path, above) == "" <==> Normal(path, above, IsPosixSep) == []
  {
    NormalIsNormal(path, above, IsPosixSep);
    JoinLong(Normal(path, above, IsPosixSep), SEP, IsPosixSep);
  }

  /** `path.normalize`. */
  method NormalizePath(path: string) returns (r: string)
    ensures r == Normalize(path)
  {
    if |path| == 0 {
      return ".";
    }
    var isAbsolute := path[0] == '/';
    var trailingSeparator := path[|path| - 1] == '/';
    NormalStringEmpty(path, !isAbsolute);
    hide Normal, Join;
    r := NormalizeString(path, !isAbsolute, '/', IsPosixSep);
    if |r| == 0 {
      if isAbsolute {
        return "/";
      }
      return if trailingSeparator then "./" else ".";
    }
    if trailingSeparator {
      r := r + "/";
    }
    if isAbsolute {
      assert trailingSeparator ==> "/" + (NormalString(path, false) + "/") == "/" + NormalString(path, false) + "/";
      r := "/" + r;
    }
  }

  /** `path.join`. */
  method JoinArgs(args: seq<string>) returns (r: string)
    ensures r == JoinPaths(args)
  {
    var joined := "";
    var i := 0;
    while i < |args|
      invariant 0 <= i <= |args| && joined == JoinRaw(args[..i])
    {
      assert args[..i + 1][..i] == args[..i];
      if |args[i]| > 0 {
        joined := if joined == "" then args[i] else joined + "/" + args[i];
      }
      i := i + 1;
    }
    assert args[..i] == args;
    if joined == "" {
      return ".";
    }
    r := NormalizePath(joined);
  }

  /** `path.resolve` for an absolute working directory. */
  method ResolveArgs(args: seq<string>, cwd: string) returns (r: string)
    requires IsAbsolute(cwd)
    ensures r == Resolve(args, cwd)
  {
    if |args| == 0 || (|args| == 1 && (args[0] == "" || args[0] == ".")) {
      return cwd;
    }
    var resolvedPath, resolvedAbsolute := "", false;
    var i := |args| - 1;
    assert args[..i + 1] == args;
    while i >= 0 && !resolvedAbsolute
      invariant -1 <= i < |args|
      invariant resolvedAbsolute == IsAbsolute(resolvedPath)
      invariant Collect(args[..i + 1], resolvedPath) == Collect(args, "")
    {
      assert args[..i + 1][..i] == args[..i];
      if |args[i]| > 0 {
        resolvedPath := args[i] + "/" + resolvedPath;
        resolvedAbsolute := args[i][0] == '/';
      }
      i := i - 1;
    }
    if !resolvedAbsolute {
      resolvedPath := cwd + "/" + resolvedPath;
    }
    r := NormalizeString(resolvedPath, false, '/', IsPosixSep);
    r := "/" + r;
  }

  /** The last loop of `relative`: one ".." for each segment of the text from `start` on. */
  method UpEachSegment(text: string, start: nat) returns (out: string)
    requires start <= |text|
    ensures out == Join(Ups(|Split(text[start..], IsPosixSep)|), SEP)
  {
    hide Split, Join, NextSep;
    UpsLonger(0);
    out := "";
    ghost var ups: nat, from: nat := 0, start;
    var i := start;
    while i <= |text|
      invariant start <= from <= i <= |text| + 1
      invariant forall k :: from <= k < i && k < |text| ==> text[k] != '/'
      invariant out == Join(Ups(ups), SEP)
      invariant if from <= |text| then ups + |Split(text[from..], IsPosixSep)| == |Split(text[start..], IsPosixSep)|
                else ups == |Split(text[start..], IsPosixSep)|
      invariant i > |text| ==> from > |text|
    {
      if i == |text| || text[i] == '/' {
        CurrentPiece(text, from - 1, i, IsPosixSep);
        UpsLonger(ups);
        out := if |out| == 0 then ".." else out + "/..";
        ups, from := ups + 1, i + 1;
      }
      i := i + 1;
    }
  }

  lemma UpsLonger(n: nat)
    ensures Join(Ups(n), SEP) == "" <==> n == 0
    ensures Join(Ups(n + 1), SEP) == if n == 0 then ".." else Join(Ups(n), SEP) + "/.."
  {
    assert Ups(n + 1)[..n] == Ups(n);
    assert forall k :: 0 <= k < n ==> IsSegment(Ups(n)[k], IsPosixSep);
    JoinLong(Ups(n), SEP, IsPosixSep);
    assert Join(Ups(n), SEP) + [SEP] + ".." == Join(Ups(n), SEP) + "/..";
  }

  /** The comparison loop of `relative`: how far the texts agree, and the last separator before that. */
  method Compare(a: string, b: string) returns (i: nat, lastCommonSep: int)
    ensures LastCommonSep(a, b, i, lastCommonSep)
    ensures i == |a| || i == |b| || a[i] != b[i]
  {
    var length := if |a| < |b| then |a| else |b|;
    lastCommonSep := -1;
    i := 0;
    while i < length
      invariant 0 <= i <= length
      invariant LastCommonSep(a, b, i, lastCommonSep)
    {
      if a[i] != b[i] {
        break;
      } else if a[i] == '/' {
        lastCommonSep := i;
      }
      assert a[..i + 1] == a[..i] + [a[i]] && b[..i + 1] == b[..i] + [b[i]];
      i := i + 1;
    }
  }

  /** The text that `relative` puts together once it knows how many segments to leave. */
  lemma JoinUps(n: nat, rest: seq<string>)
    requires n > 0
    ensures rest == [] ==> Join(Ups(n) + rest, SEP) == Join(Ups(n), SEP)
    ensures rest != [] ==> Join(Ups(n) + rest, SEP) == Join(Ups(n), SEP) + ("/" + Join(rest, SEP))
  {
    hide Join;
    JoinAppend(Ups(n), rest, SEP);
    Associate(Join(Ups(n), SEP), Join(rest, SEP));
  }

  lemma {:induction false} RelativeParts(f: seq<string>, t: seq<string>, k: nat, out: string, rest: string)
    requires k < |f| && k <= |t| && Common(f, t) == k
    requires out == Join(Ups(|f| - k), SEP)
    requires k == |t| ==> rest == ""
    requires k < |t| ==> rest == "/" + Join(t[k..], SEP)
    ensures out + rest == RelativeText(f, t)
  {
    hide Common, Join;
    var rest' := t[k..];
    JoinUps(|f| - k, rest');
    assert Way(f, t) == Ups(|f| - k) + rest';
    NothingAdded(out);
  }

  lemma NothingAdded(s: string)
    ensures s + "" == s
  {
  }

  lemma Associate(a: string, b: string)
    ensures a + [SEP] + b == a + ("/" + b)
  {
  }

  /** `path.relative` for a normalized absolute working directory. */
  method Relative(from: string, to: string, ghost dir: seq<string>, cwd: string) returns (r: string)
    requires IsDirectory(dir) && cwd == FromRoot(dir)
    ensures r == RelativeText(From(dir, from), From(dir, to))
  {
    ghost var fs, ts := From(dir, from), From(dir, to);
    CdAllDirectory(dir, [from]);
    CdAllDirectory(dir, [to]);
    WayIsNormal(fs, ts);
    if from == to {
      return "";
    }
    ResolveIsCd(dir, [from]);
    ResolveIsCd(dir, [to]);
    var f := ResolveArgs([from], cwd);
    var t := ResolveArgs([to], cwd);
    FromRootInjective(fs, ts);
    if f == t {
      return "";
    }
    r := RelativeResolved(f, t, fs, ts);
  }

  /** `fs` is a proper head of `ts`: the way only goes down. */
  lemma StartIsPrefix(fs: seq<string>, ts: seq<string>)
    requires IsDirectory(fs) && IsDirectory(ts)
    requires |Join(fs, SEP)| < |Join(ts, SEP)| && Join(ts, SEP)[|Join(fs, SEP)|] == SEP
    requires Join(ts, SEP)[..|Join(fs, SEP)|] == Join(fs, SEP)
    ensures RelativeText(fs, ts) == Join(ts, SEP)[|Join(fs, SEP)| + 1..]
  {
    HeadAt(fs, ts);
    CommonIs(fs, ts, |fs|);
    assert Ups(0) + ts[|fs|..] == ts[|fs|..];
  }

  lemma StartIsRoot(fs: seq<string>, ts: seq<string>)
    requires fs == []
    ensures RelativeText(fs, ts) == Join(ts, SEP)
  {
    CommonIs(fs, ts, 0);
    assert Ups(0) + ts[0..] == ts;
  }

  /** Where the way leaves `fs`, in terms of the separator `last` that the loop settled on. */
  ghost predicate Leaves(fs: seq<string>, ts: seq<string>, last: int, k: nat) {
    && -1 <= last < |Join(fs, SEP)| && last <= |Join(ts, SEP)|
    && k < |fs| && k <= |ts| && Common(fs, ts) == k
    && |Split(FromRoot(fs)[1 + last + 1..], IsPosixSep)| == |fs| - k
    && FromRoot(ts)[1 + last..] == if k == |ts| then "" else "/" + Join(ts[k..], SEP)
  }

  lemma JoinEmpty(segs: seq<string>)
    requires IsDirectory(segs)
    ensures Join(segs, SEP) == "" <==> segs == []
  {
    JoinLong(segs, SEP, IsPosixSep);
  }

  lemma {:induction false} LeaveToHead(fs: seq<string>, ts: seq<string>, i: nat, c: int) returns (k: nat)
    requires IsDirectory(fs) && IsDirectory(ts)
    requires LastCommonSep(Join(fs, SEP), Join(ts, SEP), i, c)
    requires i == |Join(ts, SEP)| < |Join(fs, SEP)| && Join(fs, SEP)[i] == SEP
    ensures Leaves(fs, ts, i, k)
  {
    hide Join, Split;
    assert Join(fs, SEP)[..i] == Join(ts, SEP);
    HeadAt(ts, fs);
    k := |ts|;
    CommonIs(fs, ts, k);
    SplitRest(fs, k);
    assert FromRoot(fs)[1 + i + 1..] == Join(fs, SEP)[i + 1..];
  }

  lemma LeaveToRoot(fs: seq<string>, ts: seq<string>) returns (k: nat)
    requires IsDirectory(fs) && IsDirectory(ts) && fs != [] && Join(ts, SEP) == ""
    ensures Leaves(fs, ts, 0, k)
  {
    JoinLong(fs, SEP, IsPosixSep);
    JoinLong(ts, SEP, IsPosixSep);
    hide Join, Split;
    k := 0;
    CommonIs(fs, ts, 0);
    SplitTail(Join(fs, SEP));
    assert fs[0..] == fs;
    SplitRest(fs, 0);
    assert FromRoot(fs)[2..] == Join(fs, SEP)[1..];
  }

  lemma {:induction false} LeaveAtSep(fs: seq<string>, ts: seq<string>, i: nat, c: int) returns (k: nat)
    requires IsDirectory(fs) && IsDirectory(ts) && fs != []
    requires LastCommonSep(Join(fs, SEP), Join(ts, SEP), i, c) && Differ(Join(fs, SEP), Join(ts, SEP), i)
    requires ts != []
    ensures Leaves(fs, ts, c, k)
  {
    hide Split, Join, IsNormal, Differ, Common;
    k := CommonAt(fs, ts, i, c);
    SplitRest(fs, k);
    JoinEmpty(fs);
    JoinEmpty(ts);
    FromSep(Join(fs, SEP), Join(ts, SEP), i, c);
  }

  lemma FromSep(a: string, b: string, i: nat, c: int)
    requires LastCommonSep(a, b, i, c) && a != "" && b != ""
    ensures c < |a| && c < |b|
    ensures ("/" + a)[1 + c + 1..] == a[c + 1..]
    ensures ("/" + b)[1 + c..] == "/" + b[c + 1..]
  {
    PrefixAgrees(a, b, i);
  }

  lemma SplitRest(fs: seq<string>, k: nat)
    requires IsDirectory(fs) && k < |fs|
    ensures |Split(Join(fs[k..], SEP), IsPosixSep)| == |fs| - k
  {
    SplitJoin(fs[k..], SEP, IsPosixSep);
  }

  lemma FromRootText(segs: seq<string>)
    ensures FromRoot(segs) != "" && FromRoot(segs)[1..] == Join(segs, SEP)
  {
  }

  method RelativeResolved(f: string, t: string, ghost fs: seq<string>, ghost ts: seq<string>) returns (r: string)
    requires IsDirectory(fs) && IsDirectory(ts) && fs != ts
    requires f == FromRoot(fs) && t == FromRoot(ts)
    ensures r == RelativeText(fs, ts)
  {
    JoinEmpty(fs);
    JoinEmpty(ts);
    FromRootText(fs);
    FromRootText(ts);
    hide *;
    var a, b := f[1..], t[1..];
    if a == b {
      JoinInjective(fs, ts);
    }
    var i, lastCommonSep := Compare(a, b);
    ghost var k := 0;
    if i == |a| || i == |b| {
      assert a[..|a|] == a && b[..|b|] == b;
      if |b| > i {
        if b[i] == '/' {
          StartIsPrefix(fs, ts);
          assert t[1 + i + 1..] == b[i + 1..];
          return t[1 + i + 1..];
        }
        if i == 0 {
          StartIsRoot(fs, ts);
          assert t[1 + i..] == b;
          return t[1 + i..];
        }
        k := LeaveAtSep(fs, ts, i, lastCommonSep);
      } else if |a| > i {
        if a[i] == '/' {
          k := LeaveToHead(fs, ts, i, lastCommonSep);
          lastCommonSep := i;
        } else if i == 0 {
          k := LeaveToRoot(fs, ts);
          lastCommonSep := 0;
        } else {
          k := LeaveAtSep(fs, ts, i, lastCommonSep);
        }
      }
    } else {
      k := LeaveAtSep(fs, ts, i, lastCommonSep);
    }
    r := LeaveAndEnter(f, t, lastCommonSep, fs, ts, k);
  }

  /** The end of `relative`: the ".." for what is left, then the rest of the goal. */
  method LeaveAndEnter(f: string, t: string, lastCommonSep: int, ghost fs: seq<string>, ghost ts: seq<string>, ghost k: nat)
    returns (r: string)
    requires f == FromRoot(fs) && t == FromRoot(ts) && Leaves(fs, ts, lastCommonSep, k)
    ensures r == RelativeText(fs, ts)
  {
    hide Split, Join, Common, Way, RelativeText;
    var out := UpEachSegment(f, 1 + lastCommonSep + 1);
    var rest := t[1 + lastCommonSep..];
    RelativeParts(fs, ts, k, out, rest);
    r := out + rest;
  }
}
