/**
 * `realpathSync` of lib/fs.js over a fixed file system, as rounds that take one
 * part of the path at a time and start over at each link; and the walk of a
 * kernel, which takes a link's target from where the link is.
 */
module Realpath {
  import opened PathSegments
  import opened PosixPath
  import opened PathRelative

  datatype Entry = Link(id: nat, target: string) | Plain

  /**
   * What `lstat` finds at each absolute path whose directories are no links
   * (`id` stands for device and inode), and the paths on which `stat` succeeds.
   */
  datatype Fs = Fs(entries: map<string, Entry>, reachable: set<string>)

  /** `TooMany` stands for a call that has followed as many links as it was allowed to. */
  datatype Outcome = Real(path: seq<string>) | Missing(at: string) | Unreachable(at: string) | TooMany

  function Pieces(text: string): seq<string> { Split(text, IsPosixSep) }

  function Parent(dir: seq<string>): seq<string> {
    if dir == [] then [] else dir[..|dir| - 1]
  }

  function Start(dir: seq<string>, text: string): seq<string> {
    if IsAbsolute(text) then [] else dir
  }

  /** The kernel's walk: ".." leaves the directory where the walk is, not the name before it. */
  function Walk(fs: Fs, dir: seq<string>, todo: seq<string>, links: nat): Outcome
    decreases links, |todo|
  {
    if todo == [] then Real(dir)
    else if todo[0] == "" || todo[0] == DOT then Walk(fs, dir, todo[1..], links)
    else if todo[0] == UP then Walk(fs, Parent(dir), todo[1..], links)
    else
      var at := FromRoot(dir + [todo[0]]);
      if at !in fs.entries then Missing(at)
      else
        match fs.entries[at]
        case Plain => Walk(fs, dir + [todo[0]], todo[1..], links)
        case Link(_, target) =>
          if links == 0 then TooMany else Walk(fs, Start(dir, target), Pieces(target) + todo[1..], links - 1)
  }

  /** The rounds of `realpathSync`: `done` are the parts looked at since it last started over. */
  function Rounds(fs: Fs, done: seq<string>, todo: seq<string>, links: nat, seen: map<nat, string>): Outcome
    decreases links, |todo|
  {
    if todo == [] then Real(done)
    else
      var at := FromRoot(done + [todo[0]]);
      if at !in fs.entries then Missing(at)
      else
        match fs.entries[at]
        case Plain => Rounds(fs, done + [todo[0]], todo[1..], links, seen)
        case Link(id, target) =>
          if links == 0 then TooMany
          else if id !in seen && at !in fs.reachable then Unreachable(at)
          else
            var text := if id in seen then seen[id] else target;
            Rounds(fs, [], Cd(done, text) + todo[1..], links - 1, seen[id := text])
  }

  /** Everything on the way to `dir` is there and no link. */
  ghost predicate Clean(fs: Fs, dir: seq<string>) {
    forall k :: 0 < k <= |dir| ==> FromRoot(dir[..k]) in fs.entries && fs.entries[FromRoot(dir[..k])].Plain?
  }

  /** One inode has one target. */
  ghost predicate Consistent(fs: Fs) {
    forall a :: a in fs.entries && fs.entries[a].Link? ==> SameTarget(fs, fs.entries[a].id, fs.entries[a].target)
  }

  ghost predicate SameTarget(fs: Fs, id: nat, target: string) {
    forall a :: a in fs.entries && fs.entries[a].Link? && fs.entries[a].id == id ==> fs.entries[a].target == target
  }

  ghost predicate SeenOk(fs: Fs, seen: map<nat, string>) {
    forall id :: id in seen ==> SameTarget(fs, id, seen[id])
  }

  // ---------------------------------------------------------------- the result

  lemma CleanStep(fs: Fs, dir: seq<string>, s: string)
    requires Clean(fs, dir) && FromRoot(dir + [s]) in fs.entries && fs.entries[FromRoot(dir + [s])].Plain?
    ensures Clean(fs, dir + [s])
  {
    forall k | 0 < k <= |dir| + 1
      ensures FromRoot((dir + [s])[..k]) in fs.entries && fs.entries[FromRoot((dir + [s])[..k])].Plain?
    {
      if k <= |dir| {
        assert (dir + [s])[..k] == dir[..k];
      } else {
        assert (dir + [s])[..k] == dir + [s];
      }
    }
  }

  lemma CleanTake(fs: Fs, dir: seq<string>, k: nat)
    requires Clean(fs, dir) && k <= |dir|
    ensures Clean(fs, dir[..k])
  {
    assert forall j :: 0 < j <= k ==> dir[..k][..j] == dir[..j];
  }

  lemma DirectoryCd(dir: seq<string>, text: string, rest: seq<string>)
    requires IsDirectory(dir) && IsDirectory(rest)
    ensures IsDirectory(Cd(dir, text) + rest)
  {
    hide Cd;
    assert CdAll(dir, [text]) == Cd(dir, text) by { CdOne(dir, text); }
    CdAllDirectory(dir, [text]);
  }

  lemma CdOne(dir: seq<string>, text: string)
    ensures CdAll(dir, [text]) == Cd(dir, text)
  {
    assert [text][..0] == [];
  }

  lemma DirectoryParts(done: seq<string>, todo: seq<string>)
    requires IsDirectory(done + todo)
    ensures IsDirectory(done) && IsDirectory(todo)
    ensures todo != [] ==> IsDirectory(done + [todo[0]] + todo[1..]) && IsDirectory(todo[1..])
    ensures todo != [] ==> todo[0] != "" && todo[0] != DOT && todo[0] != UP
  {
    DirectoryHalves(done, todo);
    if todo != [] {
      assert done + [todo[0]] + todo[1..] == done + todo;
      assert todo == [todo[0]] + todo[1..];
      DirectoryHalves([todo[0]], todo[1..]);
    }
  }

  lemma DirectoryHalves(a: seq<string>, b: seq<string>)
    requires IsDirectory(a + b)
    ensures IsDirectory(a) && IsDirectory(b)
  {
    assert a == (a + b)[..|a|];
    assert forall i :: 0 <= i < |b| ==> b[i] == (a + b)[|a| + i];
  }

  /** What `realpathSync` returns is a normal path, and no part of it is a link. */
  lemma {:induction false} RealIsClean(fs: Fs, done: seq<string>, todo: seq<string>, links: nat, seen: map<nat, string>)
    requires IsDirectory(done + todo) && Clean(fs, done) && Rounds(fs, done, todo, links, seen).Real?
    ensures var q := Rounds(fs, done, todo, links, seen).path; IsDirectory(q) && Clean(fs, q)
    decreases links, |todo|
  {
    hide Cd, IsDirectory, Clean;
    if todo == [] {
      assert done + todo == done;
    } else {
      DirectoryParts(done, todo);
      var at := FromRoot(done + [todo[0]]);
      match fs.entries[at]
      case Plain =>
        CleanStep(fs, done, todo[0]);
        RealIsClean(fs, done + [todo[0]], todo[1..], links, seen);
      case Link(id, target) =>
        var text := if id in seen then seen[id] else target;
        DirectoryCd(done, text, todo[1..]);
        RootClean(fs);
        assert [] + (Cd(done, text) + todo[1..]) == Cd(done, text) + todo[1..];
        RealIsClean(fs, [], Cd(done, text) + todo[1..], links - 1, seen[id := text]);
    }
  }

  lemma RootClean(fs: Fs)
    ensures Clean(fs, [])
  {
  }

  /** Nothing happens on a clean path. */
  lemma {:induction false} CleanStays(fs: Fs, dir: seq<string>, k: nat, todo: seq<string>,
                                      links: nat, seen: map<nat, string>)
    requires Clean(fs, dir) && k <= |dir|
    ensures Rounds(fs, dir[..k], dir[k..] + todo, links, seen) == Rounds(fs, dir, todo, links, seen)
    decreases |dir| - k
  {
    if k == |dir| {
      assert dir[..k] == dir && dir[k..] + todo == todo;
    } else {
      assert dir[..k] + [dir[k]] == dir[..k + 1];
      assert (dir[k..] + todo)[1..] == dir[k + 1..] + todo;
      CleanStays(fs, dir, k + 1, todo, links, seen);
    }
  }

  /** `realpathSync` of what it returned returns the same, and follows no link. */
  lemma RealAgain(fs: Fs, p: seq<string>, links: nat, more: nat)
    requires IsDirectory(p) && Rounds(fs, [], p, links, map[]).Real?
    ensures var q := Rounds(fs, [], p, links, map[]); Rounds(fs, [], q.path, more, map[]) == q
  {
    hide Clean, Rounds;
    var q := Rounds(fs, [], p, links, map[]).path;
    RootClean(fs);
    assert [] + p == p;
    RealIsClean(fs, [], p, links, map[]);
    CleanStays(fs, q, 0, [], more, map[]);
    assert q[..0] == [] && q[0..] + [] == q;
    NothingLeft(fs, q, more);
  }

  lemma NothingLeft(fs: Fs, q: seq<string>, links: nat)
    ensures Rounds(fs, q, [], links, map[]) == Real(q)
  {
  }

  /** A larger allowance of links changes nothing but `TooMany`. */
  lemma {:induction false} MoreLinks(fs: Fs, done: seq<string>, todo: seq<string>, links: nat, seen: map<nat, string>)
    requires Rounds(fs, done, todo, links, seen) != TooMany
    ensures Rounds(fs, done, todo, links + 1, seen) == Rounds(fs, done, todo, links, seen)
    decreases links, |todo|
  {
    hide Cd;
    if todo != [] && FromRoot(done + [todo[0]]) in fs.entries {
      match fs.entries[FromRoot(done + [todo[0]])]
      case Plain => MoreLinks(fs, done + [todo[0]], todo[1..], links, seen);
      case Link(id, target) =>
        if id in seen || FromRoot(done + [todo[0]]) in fs.reachable {
          var text := if id in seen then seen[id] else target;
          MoreLinks(fs, [], Cd(done, text) + todo[1..], links - 1, seen[id := text]);
        }
    }
  }

  // ------------------------------------------------------------- the kernel's walk

  predicate Has(fs: Fs, at: seq<string>, e: Entry) {
    FromRoot(at) in fs.entries && fs.entries[FromRoot(at)] == e
  }

  /** If the walk gets to where the last name of `stack` is looked up, that name is there and no link. */
  ghost predicate LastIsPlain(fs: Fs, stack: seq<string>, links: nat) {
    stack != [] ==>
      var w := Walk(fs, [], Parent(stack), links);
      w.Real? ==> Has(fs, w.path + [stack[|stack| - 1]], Plain)
  }

  /**
   * No ".." leaves a link, or a name that is not there; what comes before it may
   * go through links. Texts whose ".." all stand in front are of this kind.
   */
  ghost predicate Backs(fs: Fs, stack: seq<string>, segs: seq<string>)
    decreases |segs|
  {
    segs == [] ||
    ((segs[0] == UP ==> forall links: nat :: LastIsPlain(fs, stack, links)) &&
     Backs(fs, Push(stack, segs[0], false), segs[1..]))
  }

  /** A link named `s` in a directory that is reached without links. */
  ghost predicate LinkAt(fs: Fs, dir: seq<string>, s: string) {
    && IsDirectory(dir + [s]) && Clean(fs, dir)
    && FromRoot(dir + [s]) in fs.entries && fs.entries[FromRoot(dir + [s])].Link?
  }

  ghost predicate LinkBacks(fs: Fs, dir: seq<string>, s: string)
    requires LinkAt(fs, dir, s)
  {
    var text := fs.entries[FromRoot(dir + [s])].target;
    Backs(fs, Start(dir, text), Pieces(text))
  }

  /** The targets of all links are of this kind, each seen from the directory of its link. */
  ghost predicate LinksBack(fs: Fs) {
    forall dir, s :: LinkAt(fs, dir, s) ==> LinkBacks(fs, dir, s)
  }

  lemma {:induction false} WalkSkip(fs: Fs, dir: seq<string>, a: seq<string>, s: string, b: seq<string>, links: nat)
    requires s == "" || s == DOT
    ensures Walk(fs, dir, a + [s] + b, links) == Walk(fs, dir, a + b, links)
    decreases links, |a|
  {
    if a == [] {
      assert a + [s] + b == [s] + b && a + b == b;
      assert ([s] + b)[1..] == b;
    } else {
      assert (a + [s] + b)[1..] == a[1..] + [s] + b && (a + b)[1..] == a[1..] + b;
      if a[0] == "" || a[0] == DOT {
        WalkSkip(fs, dir, a[1..], s, b, links);
      } else if a[0] == UP {
        WalkSkip(fs, Parent(dir), a[1..], s, b, links);
      } else if FromRoot(dir + [a[0]]) in fs.entries {
        match fs.entries[FromRoot(dir + [a[0]])]
        case Plain => WalkSkip(fs, dir + [a[0]], a[1..], s, b, links);
        case Link(_, target) =>
          if links > 0 {
            var rest := Pieces(target) + a[1..];
            assert Pieces(target) + (a[1..] + [s] + b) == rest + [s] + b;
            assert Pieces(target) + (a[1..] + b) == rest + b;
            WalkSkip(fs, Start(dir, target), rest, s, b, links - 1);
          }
      }
    }
  }

  /** The walk gets to a clean directory without a detour. */
  lemma {:induction false} WalkClean(fs: Fs, dir: seq<string>, k: nat, todo: seq<string>, links: nat)
    requires IsDirectory(dir) && Clean(fs, dir) && k <= |dir|
    ensures Walk(fs, dir[..k], dir[k..] + todo, links) == Walk(fs, dir, todo, links)
    decreases |dir| - k
  {
    if k == |dir| {
      assert dir[..k] == dir && dir[k..] + todo == todo;
    } else {
      assert dir[..k] + [dir[k]] == dir[..k + 1];
      assert (dir[k..] + todo)[1..] == dir[k + 1..] + todo;
      WalkClean(fs, dir, k + 1, todo, links);
    }
  }

  lemma WalkFromRoot(fs: Fs, dir: seq<string>, todo: seq<string>, links: nat)
    requires IsDirectory(dir) && Clean(fs, dir)
    ensures Walk(fs, [], dir + todo, links) == Walk(fs, dir, todo, links)
  {
    WalkClean(fs, dir, 0, todo, links);
    assert dir[..0] == [] && dir[0..] + todo == dir + todo;
  }

  /**
   * A walk of two parts is the walk of the second from where the first ends,
   * with the links that the first has left; for two second parts at once.
   */
  lemma {:induction false} WalkOn(fs: Fs, dir: seq<string>, a: seq<string>, b: seq<string>, c: seq<string>, links: nat)
    returns (left: nat)
    ensures var w := Walk(fs, dir, a, links);
            && Walk(fs, dir, a + b, links) == (if w.Real? then Walk(fs, w.path, b, left) else w)
            && Walk(fs, dir, a + c, links) == (if w.Real? then Walk(fs, w.path, c, left) else w)
    decreases links, |a|
  {
    hide FromRoot;
    left := links;
    if a == [] {
      assert a + b == b && a + c == c;
    } else {
      assert (a + b)[1..] == a[1..] + b && (a + c)[1..] == a[1..] + c;
      if a[0] == "" || a[0] == DOT {
        left := WalkOn(fs, dir, a[1..], b, c, links);
      } else if a[0] == UP {
        left := WalkOn(fs, Parent(dir), a[1..], b, c, links);
      } else if FromRoot(dir + [a[0]]) in fs.entries {
        match fs.entries[FromRoot(dir + [a[0]])]
        case Plain => left := WalkOn(fs, dir + [a[0]], a[1..], b, c, links);
        case Link(_, target) =>
          if links > 0 {
            assert Pieces(target) + (a[1..] + b) == Pieces(target) + a[1..] + b;
            assert Pieces(target) + (a[1..] + c) == Pieces(target) + a[1..] + c;
            left := WalkOn(fs, Start(dir, target), Pieces(target) + a[1..], b, c, links - 1);
          }
      }
    }
  }

  lemma WalkName(fs: Fs, dir: seq<string>, s: string, rest: seq<string>, links: nat)
    requires Has(fs, dir + [s], Plain) && s != "" && s != DOT && s != UP
    ensures Walk(fs, dir, [s] + rest, links) == Walk(fs, dir + [s], rest, links)
  {
    assert ([s] + rest)[1..] == rest;
  }

  /** Going back out of a plain entry. */
  lemma WalkBack(fs: Fs, stack: seq<string>, rest: seq<string>, links: nat)
    requires IsDirectory(stack) && LastIsPlain(fs, stack, links)
    ensures Walk(fs, [], stack + [UP] + rest, links) == Walk(fs, [], Push(stack, UP, false) + rest, links)
  {
    if stack == [] {
      RootUp(fs, rest, links);
    } else {
      var up, last := Parent(stack), stack[|stack| - 1];
      assert last != UP && last != "" && last != DOT;
      hide Walk, FromRoot, IsDirectory;
      var visit := [last] + ([UP] + rest);
      assert stack + [UP] + rest == up + visit;
      var left := WalkOn(fs, [], up, visit, rest, links);
      var w := Walk(fs, [], up, links);
      if w.Real? {
        InAndOut(fs, w.path, last, rest, left);
      }
    }
  }

  lemma RootUp(fs: Fs, rest: seq<string>, links: nat)
    ensures Walk(fs, [], [] + [UP] + rest, links) == Walk(fs, [], Push([], UP, false) + rest, links)
  {
    assert ([] + [UP] + rest)[1..] == rest && [] + rest == rest;
  }

  lemma InAndOut(fs: Fs, dir: seq<string>, s: string, rest: seq<string>, links: nat)
    requires Has(fs, dir + [s], Plain) && s != "" && s != DOT && s != UP
    ensures Walk(fs, dir, [s] + ([UP] + rest), links) == Walk(fs, dir, rest, links)
  {
    hide FromRoot;
    WalkName(fs, dir, s, [UP] + rest, links);
    assert ([UP] + rest)[1..] == rest && (dir + [s])[..|dir|] == dir;
  }

  /** Reducing the dots of a text first makes no difference to the walk, where no ".." leaves a link. */
  lemma {:induction false} WalkFold(fs: Fs, stack: seq<string>, segs: seq<string>, rest: seq<string>, links: nat)
    requires IsDirectory(stack) && (forall i :: 0 <= i < |segs| ==> segs[i] == "" || IsSegment(segs[i], IsPosixSep))
    requires Backs(fs, stack, segs)
    ensures Walk(fs, [], stack + segs + rest, links) == Walk(fs, [], Fold(stack, segs, false) + rest, links)
    decreases |segs|
  {
    hide Clean, FromRoot, Walk;
    if segs == [] {
      assert stack + segs + rest == stack + rest;
    } else {
      var s, more := segs[0], segs[1..];
      var stack' := Push(stack, s, false);
      assert stack + segs + rest == stack + [s] + (more + rest);
      PushDirectory(stack, s);
      WalkFold(fs, stack', more, rest, links);
      assert stack' + more + rest == stack' + (more + rest);
      if s == "" || s == DOT {
        WalkSkip(fs, [], stack, s, more + rest, links);
      } else if s == UP {
        WalkBack(fs, stack, more + rest, links);
      }
    }
  }

  lemma PushDirectory(stack: seq<string>, s: string)
    requires IsDirectory(stack) && (s == "" || IsSegment(s, IsPosixSep))
    ensures IsDirectory(Push(stack, s, false))
  {
    PushNormal(stack, s, false, IsPosixSep);
  }

  /** Taking a link's target from a clean directory, reduced or as it stands. */
  lemma WalkText(fs: Fs, dir: seq<string>, text: string, rest: seq<string>, links: nat)
    requires IsDirectory(dir) && Clean(fs, dir) && Backs(fs, Start(dir, text), Pieces(text))
    ensures Walk(fs, Start(dir, text), Pieces(text) + rest, links) == Walk(fs, [], Cd(dir, text) + rest, links)
  {
    hide Clean, FromRoot, Walk, Backs;
    var from := Start(dir, text);
    assert Clean(fs, from) by { RootClean(fs); }
    SplitPieces(text, IsPosixSep);
    WalkFromRoot(fs, from, Pieces(text) + rest, links);
    assert from + (Pieces(text) + rest) == from + Pieces(text) + rest;
    WalkFold(fs, from, Pieces(text), rest, links);
    if text == "" {
      FoldEmptyText(dir);
    }
  }

  /** `stat` succeeds on whatever the kernel can walk to. */
  ghost predicate StatFollows(fs: Fs) {
    forall p, links: nat :: IsDirectory(p) && Walk(fs, [], p, links).Real? ==> FromRoot(p) in fs.reachable
  }

  /**
   * Where no ".." of a link leaves another link, `realpathSync` ends where the
   * kernel's walk ends, after as many links. Only a failing `stat` can end it
   * earlier, and then the kernel does not get there either.
   */
  lemma {:induction false} RoundsAreTheWalk(fs: Fs, done: seq<string>, todo: seq<string>, links: nat, seen: map<nat, string>)
    requires Consistent(fs) && SeenOk(fs, seen) && LinksBack(fs)
    requires IsDirectory(done + todo) && Clean(fs, done)
    ensures var r, w := Rounds(fs, done, todo, links, seen), Walk(fs, done, todo, links);
            && (r == w || r.Unreachable?)
            && (StatFollows(fs) && w.Real? ==> r == w)
    decreases links, |todo|
  {
    hide Cd, IsDirectory, Clean, Backs, FromRoot, SameTarget, StatFollows;
    if todo != [] {
      DirectoryParts(done, todo);
      var at := FromRoot(done + [todo[0]]);
      if at in fs.entries {
        match fs.entries[at]
        case Plain =>
          CleanStep(fs, done, todo[0]);
          RoundsAreTheWalk(fs, done + [todo[0]], todo[1..], links, seen);
        case Link(id, target) =>
          if links > 0 {
            var text := if id in seen then seen[id] else target;
            assert text == target by { Targets(fs, at, seen); }
            DirectoryNext(done, todo);
            assert LinkBacks(fs, done, todo[0]);
            WalkText(fs, done, target, todo[1..], links - 1);
            if id !in seen && at !in fs.reachable {
              StatSees(fs, done, todo, links);
            } else {
              DirectoryCd(done, target, todo[1..]);
              RootClean(fs);
              assert [] + (Cd(done, target) + todo[1..]) == Cd(done, target) + todo[1..];
              RoundsAreTheWalk(fs, [], Cd(done, target) + todo[1..], links - 1, seen[id := target]);
            }
          }
      }
    }
  }

  lemma Targets(fs: Fs, at: string, seen: map<nat, string>)
    requires Consistent(fs) && SeenOk(fs, seen) && at in fs.entries && fs.entries[at].Link?
    ensures fs.entries[at].id in seen ==> seen[fs.entries[at].id] == fs.entries[at].target
    ensures SeenOk(fs, seen[fs.entries[at].id := fs.entries[at].target])
  {
  }

  lemma DirectoryNext(done: seq<string>, todo: seq<string>)
    requires IsDirectory(done + todo) && todo != []
    ensures IsDirectory(done + [todo[0]])
  {
    assert done + [todo[0]] + todo[1..] == done + todo;
    DirectoryHalves(done + [todo[0]], todo[1..]);
  }

  lemma StatSees(fs: Fs, done: seq<string>, todo: seq<string>, links: nat)
    requires IsDirectory(done + todo) && Clean(fs, done) && todo != []
    requires FromRoot(done + [todo[0]]) !in fs.reachable
    ensures StatFollows(fs) ==> !Walk(fs, done, todo, links).Real?
  {
    hide Clean, FromRoot, Walk;
    DirectoryParts(done, todo);
    if Walk(fs, done, todo, links).Real? {
      assert [todo[0]] + todo[1..] == todo;
      var left := WalkOn(fs, done, [todo[0]], todo[1..], [], links);
      WalkFromRoot(fs, done, [todo[0]], links);
      DirectoryNext(done, todo);
    }
  }

  // -------------------------------------------------------------------- the call

  /** `realpathSync(p)` from the working directory `cwd`. */
  function RealpathOf(fs: Fs, cwd: seq<string>, p: string, links: nat): Outcome {
    Rounds(fs, [], Cd(cwd, p), links, map[])
  }

  predicate UpsFirst(segs: seq<string>) {
    segs == [] || (if segs[0] == "" || segs[0] == DOT || segs[0] == UP then UpsFirst(segs[1..]) else UP !in segs)
  }

  lemma {:induction false} UpsFirstBacks(fs: Fs, stack: seq<string>, segs: seq<string>)
    requires IsDirectory(stack) && Clean(fs, stack) && UpsFirst(segs)
    ensures Backs(fs, stack, segs)
    decreases |segs|
  {
    hide Clean, IsDirectory, LastIsPlain;
    if segs != [] {
      if segs[0] == "" || segs[0] == DOT || segs[0] == UP {
        forall links: nat ensures LastIsPlain(fs, stack, links) {
          CleanLast(fs, stack, links);
        }
        CleanTake(fs, stack, |Parent(stack)|);
        DirectoryTake(stack, |Parent(stack)|);
        assert stack[..|stack|] == stack;
        PushDots(stack, segs[0]);
        UpsFirstBacks(fs, Push(stack, segs[0], false), segs[1..]);
      } else {
        NoUpsBacks(fs, stack, segs);
      }
    }
  }

  lemma PushDots(stack: seq<string>, s: string)
    requires IsDirectory(stack) && (s == "" || s == DOT || s == UP)
    ensures Push(stack, s, false) == if s == UP then stack[..|Parent(stack)|] else stack
  {
  }

  lemma CleanLast(fs: Fs, stack: seq<string>, links: nat)
    requires IsDirectory(stack) && Clean(fs, stack)
    ensures LastIsPlain(fs, stack, links)
  {
    if stack != [] {
      hide Walk, FromRoot;
      var up := Parent(stack);
      DirectoryTake(stack, |up|);
      CleanTake(fs, stack, |up|);
      WalkFromRoot(fs, up, [], links);
      assert up + [] == up && stack[..|stack|] == up + [stack[|stack| - 1]];
      StandsStill(fs, up, links);
    }
  }

  lemma StandsStill(fs: Fs, dir: seq<string>, links: nat)
    ensures Walk(fs, dir, [], links) == Real(dir)
  {
  }

  lemma {:induction false} NoUpsBacks(fs: Fs, stack: seq<string>, segs: seq<string>)
    requires UP !in segs
    ensures Backs(fs, stack, segs)
    decreases |segs|
  {
    if segs != [] {
      NoUpsBacks(fs, Push(stack, segs[0], false), segs[1..]);
    }
  }

  /** A file system whose links have their ".." in front has no text that leaves a link. */
  lemma UpsFirstLinks(fs: Fs)
    requires forall a :: a in fs.entries && fs.entries[a].Link? ==> UpsFirst(Pieces(fs.entries[a].target))
    ensures LinksBack(fs)
  {
    hide Clean, UpsFirst, Pieces;
    RootClean(fs);
    NormalNothing();
    forall dir, s | LinkAt(fs, dir, s) ensures LinkBacks(fs, dir, s) {
      DirectoryHalves(dir, [s]);
      var text := fs.entries[FromRoot(dir + [s])].target;
      UpsFirstBacks(fs, Start(dir, text), Pieces(text));
    }
  }

  /**
   * From a working directory that is no link, `realpathSync` ends where the
   * kernel's walk of the text ends, when no ".." in the text or in a link
   * leaves a link; a failing `stat` is the only thing that can come between.
   */
  lemma RealpathIsTheWalk(fs: Fs, cwd: seq<string>, p: string, links: nat)
    requires Consistent(fs) && LinksBack(fs) && IsDirectory(cwd) && Clean(fs, cwd)
    requires Backs(fs, Start(cwd, p), Pieces(p))
    ensures var r, w := RealpathOf(fs, cwd, p, links), Walk(fs, Start(cwd, p), Pieces(p), links);
            && (r == w || r.Unreachable?)
            && (StatFollows(fs) && w.Real? ==> r == w)
  {
    hide Cd, IsDirectory, Clean, Backs, Walk, Rounds, StatFollows, LinksBack, Consistent;
    WalkText(fs, cwd, p, [], links);
    assert Pieces(p) + [] == Pieces(p) && Cd(cwd, p) + [] == Cd(cwd, p) && [] + Cd(cwd, p) == Cd(cwd, p);
    NoneSeen(fs);
    RootClean(fs);
    NormalNothing();
    DirectoryCd(cwd, p, []);
    RoundsAreTheWalk(fs, [], Cd(cwd, p), links, map[]);
  }

  lemma NoneSeen(fs: Fs)
    ensures SeenOk(fs, map[])
  {
  }

  lemma NormalNothing()
    ensures IsDirectory([])
  {
  }

  /** Whatever it returns is normal, free of links, and its own real path. */
  lemma RealpathLaws(fs: Fs, cwd: seq<string>, p: string, links: nat, dir: seq<string>, more: nat)
    requires IsDirectory(cwd) && IsDirectory(dir) && RealpathOf(fs, cwd, p, links).Real?
    ensures var q := RealpathOf(fs, cwd, p, links).path;
            IsDirectory(q) && Clean(fs, q) && RealpathOf(fs, dir, FromRoot(q), more) == Real(q)
  {
    hide Cd, IsDirectory, Clean, Rounds, FromRoot;
    var segs := Cd(cwd, p);
    assert segs + [] == segs && [] + segs == segs;
    NormalNothing();
    DirectoryCd(cwd, p, []);
    RootClean(fs);
    RealIsClean(fs, [], segs, links, map[]);
    var q := RealpathOf(fs, cwd, p, links).path;
    RealAgain(fs, segs, links, more);
    CdRoot(dir, q);
  }

  lemma CdRoot(dir: seq<string>, q: seq<string>)
    requires IsDirectory(q)
    ensures Cd(dir, FromRoot(q)) == q
  {
    NormalFromRoot(q);
  }

  // ------------------------------------------------------------ where they part

  /** `l` goes through the link `x` and back out of it, to `name`. */
  function Detour(name: string): Fs {
    Fs(map["/l" := Link(1, "x/../" + name), "/x" := Link(2, "/d/e"), "/d" := Plain, "/d/e" := Plain,
           "/y" := Plain, "/d/y" := Plain, "/d/l" := Plain],
       {"/l", "/x", "/d", "/d/e", "/y", "/d/y", "/d/l"})
  }

  lemma JoinThree(a: string, b: string, c: string)
    ensures Join([a], SEP) == a && Join([a, b], SEP) == a + "/" + b && Join([a, b, c], SEP) == a + "/" + b + "/" + c
  {
    assert [a][..0] == [] && [a, b][..1] == [a] && [a, b, c][..2] == [a, b];
    assert Join([a, b, c], SEP) == Join([a, b], SEP) + [SEP] + c;
  }

  lemma DetourTexts(name: string)
    requires name == "y" || name == "l"
    ensures Pieces("x/../" + name) == ["x", "..", name] && Pieces("/d/e") == ["", "d", "e"]
  {
    hide Join, Split;
    JoinThree("x", "..", name);
    assert "x" + "/" + ".." + "/" + name == "x/../" + name;
    SplitJoin(["x", "..", name], SEP, IsPosixSep);
    DirectoryTexts();
  }

  lemma DirectoryTexts()
    ensures Pieces("/d/e") == ["", "d", "e"]
  {
    hide Join, Split;
    JoinThree("d", "e", "");
    SplitJoin(["d", "e"], SEP, IsPosixSep);
    SplitJoined("", SEP, "d/e", IsPosixSep);
    SplitEmpty();
    assert "" + [SEP] + "d/e" == "/d/e" && "d" + "/" + "e" == "d/e";
    assert [""] + ["d", "e"] == ["", "d", "e"];
  }

  /** What is found where. */
  lemma DetourEntries(name: string)
    requires name == "y" || name == "l"
    ensures var fs := Detour(name);
            && Has(fs, ["l"], Link(1, "x/../" + name)) && Has(fs, ["x"], Link(2, "/d/e"))
            && Has(fs, ["d"], Plain) && Has(fs, ["d", "e"], Plain) && Has(fs, ["y"], Plain) && Has(fs, ["d", name], Plain)
            && FromRoot(["l"]) in fs.reachable
  {
    hide Join;
    JoinThree("l", "", "");
    JoinThree("x", "", "");
    JoinThree("y", "", "");
    JoinThree("d", "e", "");
    JoinThree("d", name, "");
    DifferentTexts();
  }

  lemma DifferentTexts()
    ensures "/l" != "/x" && "/l" != "/d" && "/l" != "/y" && "/x" != "/d" && "/x" != "/y" && "/d" != "/y"
    ensures "/" + "l" == "/l" && "/" + "x" == "/x" && "/" + "y" == "/y" && "/" + "d" == "/d"
    ensures "/" + ("d" + "/" + "e") == "/d/e" && "/" + ("d" + "/" + "y") == "/d/y" && "/" + ("d" + "/" + "l") == "/d/l"
    ensures "/d/e" != "/d/y" && "/d/e" != "/d/l" && "/d/y" != "/d/l"
  {
    assert "/l"[1] == 'l' && "/x"[1] == 'x' && "/d"[1] == 'd' && "/y"[1] == 'y';
    assert "/d/e"[3] == 'e' && "/d/y"[3] == 'y' && "/d/l"[3] == 'l';
  }

  lemma CdDetour(name: string)
    requires name == "y" || name == "l"
    ensures Cd([], "x/../" + name) == [name]
  {
    DetourTexts(name);
    var segs := ["x", "..", name];
    assert segs[1..] == ["..", name] && segs[1..][1..] == [name] && [name][1..] == [];
    assert Push([], "x", false) == ["x"] && Push(["x"], "..", false) == [] && Push([], name, false) == [name];
    assert Fold([name], [], false) == [name];
    assert Fold([], [name], false) == [name];
    assert Fold(["x"], ["..", name], false) == [name];
  }

  lemma WalkLink(fs: Fs, dir: seq<string>, s: string, e: Entry, rest: seq<string>, links: nat)
    requires e.Link? && Has(fs, dir + [s], e) && s != "" && s != DOT && s != UP && links > 0
    ensures Walk(fs, dir, [s] + rest, links) == Walk(fs, Start(dir, e.target), Pieces(e.target) + rest, links - 1)
  {
    assert ([s] + rest)[1..] == rest;
  }

  /** The kernel ends in the directory of the other link's target. */
  lemma WalkDetour(name: string)
    requires name == "y" || name == "l"
    ensures Walk(Detour(name), [], ["l"], 2) == Real(["d", name])
  {
    hide Detour, FromRoot, Has, Pieces;
    var fs := Detour(name);
    DetourTexts(name);
    DetourEntries(name);
    var rest := ["..", name];
    hide Walk;
    assert [] + ["l"] == ["l"] && ["l"] + [] == ["l"] && [] + ["x"] == ["x"] && [] + ["d"] == ["d"];
    WalkLink(fs, [], "l", Link(1, "x/../" + name), [], 2);
    assert ["x", "..", name] + [] == ["x"] + rest;
    WalkLink(fs, [], "x", Link(2, "/d/e"), rest, 1);
    var inner := ["", "d", "e"] + rest;
    assert inner[1..] == ["d"] + (["e"] + rest);
    WalkName(fs, [], "d", ["e"] + rest, 0);
    assert ["d"] + ["e"] == ["d", "e"] && ["d"] + [name] == ["d", name];
    WalkName(fs, ["d"], "e", rest, 0);
    assert Parent(["d", "e"]) == ["d"] && rest[1..] == [name] + [];
    WalkName(fs, ["d"], name, [], 0);
  }

  lemma RoundName(fs: Fs, s: string, links: nat, seen: map<nat, string>)
    requires Has(fs, [s], Plain)
    ensures Rounds(fs, [], [s], links, seen) == Real([s])
  {
    assert [] + [s] == [s] && [s][1..] == [];
  }

  lemma RoundLink(fs: Fs, s: string, e: Entry, links: nat, seen: map<nat, string>)
    requires e.Link? && Has(fs, [s], e) && FromRoot([s]) in fs.reachable && (e.id in seen ==> seen[e.id] == e.target)
    ensures Rounds(fs, [], [s], links, seen) ==
            if links == 0 then TooMany else Rounds(fs, [], Cd([], e.target), links - 1, seen[e.id := e.target])
  {
    assert [] + [s] == [s] && [s][1..] == [] && Cd([], e.target) + [] == Cd([], e.target);
  }

  /** A ".." that leaves a link: `realpathSync` returns another file than the one the kernel opens. */
  lemma Elsewhere()
    ensures Walk(Detour("y"), [], ["l"], 2) == Real(["d", "y"])
    ensures Rounds(Detour("y"), [], ["l"], 1, map[]) == Real(["y"])
  {
    hide Detour, FromRoot, Has, Pieces, Cd, Rounds, Walk;
    WalkDetour("y");
    DetourEntries("y");
    CdDetour("y");
    RoundLink(Detour("y"), "l", Link(1, "x/../" + "y"), 1, map[]);
    RoundName(Detour("y"), "y", 0, map[1 := "x/../" + "y"]);
    assert map[][1 := "x/../" + "y"] == map[1 := "x/../" + "y"];
  }

  /** Or it never returns, however many links it follows, where the kernel follows two. */
  lemma {:induction false} Forever(links: nat, seen: map<nat, string>)
    requires 1 in seen ==> seen[1] == "x/../" + "l"
    ensures Walk(Detour("l"), [], ["l"], 2) == Real(["d", "l"])
    ensures Rounds(Detour("l"), [], ["l"], links, seen) == TooMany
    decreases links
  {
    hide Detour, FromRoot, Has, Pieces, Cd, Rounds, Walk;
    WalkDetour("l");
    DetourEntries("l");
    CdDetour("l");
    RoundLink(Detour("l"), "l", Link(1, "x/../" + "l"), links, seen);
    if links > 0 {
      Forever(links - 1, seen[1 := "x/../" + "l"]);
    }
  }
}
