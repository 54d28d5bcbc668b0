/**
 * For which texts `realpathSync` is the kernel's walk on every file system: for
 * any other text there is a file system with one link on which the two end in
 * different files.
 */
module RealpathTexts {
  import opened PathSegments
  import opened PosixPath
  import opened PathRelative
  import opened Realpath

  predicate IsName(s: string) {
    IsSegment(s, IsPosixSep) && s != DOT && s != UP
  }

  // ---------------------------------------------------------- parts that do nothing

  function Strip(segs: seq<string>): seq<string> {
    if segs == [] then []
    else (if segs[0] == "" || segs[0] == DOT then [] else [segs[0]]) + Strip(segs[1..])
  }

  lemma {:induction false} StripWalk(fs: Fs, a: seq<string>, segs: seq<string>, links: nat)
    ensures Walk(fs, [], a + segs, links) == Walk(fs, [], a + Strip(segs), links)
    decreases |segs|
  {
    hide Walk;
    if segs != [] {
      assert segs == [segs[0]] + segs[1..];
      assert a + segs == a + [segs[0]] + segs[1..];
      if segs[0] == "" || segs[0] == DOT {
        WalkSkip(fs, [], a, segs[0], segs[1..], links);
        StripWalk(fs, a, segs[1..], links);
        assert Strip(segs) == Strip(segs[1..]);
      } else {
        StripWalk(fs, a + [segs[0]], segs[1..], links);
        assert a + [segs[0]] + Strip(segs[1..]) == a + Strip(segs);
      }
    }
  }

  lemma {:induction false} StripFold(stack: seq<string>, segs: seq<string>)
    ensures Fold(stack, Strip(segs), false) == Fold(stack, segs, false)
    decreases |segs|
  {
    if segs != [] {
      StripFold(Push(stack, segs[0], false), segs[1..]);
      if segs[0] == "" || segs[0] == DOT {
        assert Strip(segs) == Strip(segs[1..]);
      } else {
        assert Strip(segs)[1..] == Strip(segs[1..]);
      }
    }
  }

  lemma {:induction false} StripKeeps(segs: seq<string>)
    ensures UP in Strip(segs) <==> UP in segs
    ensures forall s :: s in Strip(segs) ==> s in segs && s != "" && s != DOT
    decreases |segs|
  {
    if segs != [] {
      StripKeeps(segs[1..]);
      assert segs == [segs[0]] + segs[1..];
    }
  }

  lemma {:induction false} StripUps(segs: seq<string>)
    ensures UpsFirst(Strip(segs)) <==> UpsFirst(segs)
    decreases |segs|
  {
    StripKeeps(segs);
    if segs != [] {
      StripUps(segs[1..]);
      if segs[0] == "" || segs[0] == DOT {
        assert Strip(segs) == Strip(segs[1..]);
      } else {
        assert Strip(segs)[1..] == Strip(segs[1..]) && Strip(segs)[0] == segs[0];
      }
    }
  }

  /** Names and "..", nothing else. */
  ghost predicate Steps(segs: seq<string>) {
    forall i :: 0 <= i < |segs| ==> segs[i] == UP || IsName(segs[i])
  }

  // ------------------------------------------------------------- the file system

  /** The lists of at most `n` names. */
  function Paths(names: set<string>, n: nat): set<seq<string>> {
    if n == 0 then {[]}
    else Paths(names, n - 1) + set p, s | p in Paths(names, n - 1) && s in names :: p + [s]
  }

  lemma {:induction false} InPaths(names: set<string>, n: nat, q: seq<string>)
    requires |q| <= n && forall s :: s in q ==> s in names
    ensures q in Paths(names, n)
    decreases n
  {
    if |q| == n && n > 0 {
      var init, last := q[..n - 1], q[n - 1];
      InPaths(names, n - 1, init);
      assert init + [last] == q && last in q;
    } else if n > 0 {
      InPaths(names, n - 1, q);
    }
  }

  /** Every path is a directory, except that `at` is a link. */
  function Trap(names: set<string>, n: nat, at: seq<string>, target: string): Fs {
    var texts := set p | p in Paths(names, n) :: FromRoot(p);
    Fs(map t | t in texts :: if t == FromRoot(at) then Link(0, target) else Plain, texts)
  }

  ghost predicate Over(names: set<string>, q: seq<string>) {
    forall i :: 0 <= i < |q| ==> q[i] in names
  }

  ghost predicate AllNames(names: set<string>) {
    forall s :: s in names ==> IsName(s)
  }

  lemma OverDirectory(names: set<string>, q: seq<string>)
    requires AllNames(names) && Over(names, q)
    ensures IsDirectory(q)
  {
  }

  lemma TrapHas(names: set<string>, n: nat, at: seq<string>, target: string, q: seq<string>)
    requires AllNames(names) && Over(names, at) && Over(names, q) && |q| <= n
    ensures Has(Trap(names, n, at, target), q, if q == at then Link(0, target) else Plain)
    ensures FromRoot(q) in Trap(names, n, at, target).reachable
  {
    OverDirectory(names, at);
    OverDirectory(names, q);
    InPaths(names, n, q);
    if FromRoot(q) == FromRoot(at) {
      assert FromRoot(q)[1..] == FromRoot(at)[1..];
      JoinInjective(q, at);
    }
  }

  lemma TrapClean(names: set<string>, n: nat, at: seq<string>, target: string, q: seq<string>)
    requires AllNames(names) && Over(names, at) && Over(names, q) && |q| <= n && at != [] && !(at <= q)
    ensures Clean(Trap(names, n, at, target), q)
  {
    hide FromRoot;
    forall k | 0 < k <= |q| ensures Has(Trap(names, n, at, target), q[..k], Plain) {
      TrapHas(names, n, at, target, q[..k]);
    }
  }

  lemma TrapConsistent(names: set<string>, n: nat, at: seq<string>, target: string)
    requires UP !in Pieces(target)
    ensures Consistent(Trap(names, n, at, target)) && LinksBack(Trap(names, n, at, target))
  {
    hide FromRoot, Clean, IsDirectory, Pieces;
    var fs := Trap(names, n, at, target);
    forall dir, s | LinkAt(fs, dir, s) ensures LinkBacks(fs, dir, s) {
      NoUpsBacks(fs, Start(dir, target), Pieces(target));
    }
  }

  // ---------------------------------------------------------------- walking in it

  /** No name of `segs` is looked up at `at`. */
  ghost predicate Avoids(at: seq<string>, stack: seq<string>, segs: seq<string>)
    decreases |segs|
  {
    segs == [] || ((segs[0] != UP ==> stack + [segs[0]] != at) && Avoids(at, Push(stack, segs[0], false), segs[1..]))
  }

  /** Without the link the walk is the fold. */
  lemma {:induction false} TrapWalk(names: set<string>, n: nat, at: seq<string>, target: string,
                                    stack: seq<string>, segs: seq<string>, rest: seq<string>, links: nat)
    requires AllNames(names) && Over(names, at) && Over(names, stack) && |stack| + |segs| <= n
    requires Steps(segs) && (forall i :: 0 <= i < |segs| && segs[i] != UP ==> segs[i] in names) && Avoids(at, stack, segs)
    ensures var fs, end := Trap(names, n, at, target), Fold(stack, segs, false);
            && Walk(fs, stack, segs + rest, links) == Walk(fs, end, rest, links)
            && Over(names, end) && |end| <= |stack| + |segs|
    decreases |segs|
  {
    hide FromRoot, IsName, Trap;
    var fs := Trap(names, n, at, target);
    if segs == [] {
      assert segs + rest == rest;
    } else {
      var s, more := segs[0], segs[1..] + rest;
      assert segs + rest == [s] + more && ([s] + more)[1..] == more;
      assert Steps(segs[1..]);
      if s == UP {
        PushUp(names, stack);
        TrapWalk(names, n, at, target, Parent(stack), segs[1..], rest, links);
      } else {
        NameFacts(s);
        TrapHas(names, n, at, target, stack + [s]);
        WalkName(fs, stack, s, more, links);
        TrapWalk(names, n, at, target, stack + [s], segs[1..], rest, links);
      }
    }
  }

  lemma NameFacts(s: string)
    requires s == UP || IsName(s)
    ensures s != "" && s != DOT
  {
  }

  lemma PushUp(names: set<string>, stack: seq<string>)
    requires AllNames(names) && Over(names, stack)
    ensures Push(stack, UP, false) == Parent(stack) && Over(names, Parent(stack))
  {
    assert stack != [] ==> IsName(stack[|stack| - 1]);
  }

  // ------------------------------------------------------------ where the link is

  /** The first ".." that comes after a name stands right behind one. */
  lemma {:induction false} FirstBack(segs: seq<string>) returns (i: nat)
    requires Steps(segs) && !UpsFirst(segs)
    ensures i + 1 < |segs| && IsName(segs[i]) && segs[i + 1] == UP && UpsFirst(segs[..i + 1])
  {
    if segs[0] == UP {
      i := FirstBack(segs[1..]);
      assert segs[..i + 2][1..] == segs[1..][..i + 1];
      i := i + 1;
    } else {
      assert IsName(segs[0]) by { NameFacts(segs[0]); }
      i := 0;
      while segs[i + 1] != UP
        invariant i + 1 < |segs| && UP !in segs[..i + 1] && UP in segs[i + 1..]
        decreases |segs| - i
      {
        i := i + 1;
        assert segs[..i + 1] == segs[..i] + [segs[i]] && segs[i..] == [segs[i]] + segs[i + 1..];
      }
      NameFacts(segs[0]);
      assert segs[..i + 1][0] == segs[0] && segs[..i + 1][i] == segs[i];
    }
  }

  /** Up to there no stack is as long as the last. */
  lemma {:induction false} UpsFirstAvoids(at: seq<string>, segs: seq<string>, s: string)
    requires Steps(segs) && IsName(s) && UpsFirst(segs + [s]) && at == Fold([], segs, false) + [s]
    ensures Avoids(at, [], segs)
    decreases |segs|
  {
    if segs != [] {
      assert (segs + [s])[1..] == segs[1..] + [s] && (segs + [s])[0] == segs[0];
      if segs[0] == UP {
        UpsFirstAvoids(at, segs[1..], s);
      } else {
        NameFacts(segs[0]);
        assert UP !in segs by { assert forall k :: 0 <= k < |segs| ==> segs[k] == (segs + [s])[k]; }
        NamesAvoid(at, [], segs);
      }
    }
  }

  lemma {:induction false} NamesAvoid(at: seq<string>, stack: seq<string>, segs: seq<string>)
    requires Steps(segs) && UP !in segs && |at| > |Fold(stack, segs, false)|
    ensures Avoids(at, stack, segs) && |Fold(stack, segs, false)| == |stack| + |segs|
    decreases |segs|
  {
    if segs != [] {
      NameFacts(segs[0]);
      NamesAvoid(at, stack + [segs[0]], segs[1..]);
    }
  }

  /** Deep down, the walk stays under another first directory than the link's. */
  lemma {:induction false} DeepAvoids(at: seq<string>, stack: seq<string>, segs: seq<string>)
    requires Steps(segs) && IsDirectory(stack) && |stack| > |segs| && at != [] && at[0] != stack[0]
    ensures Avoids(at, stack, segs)
    ensures Fold(stack, segs, false) != [] && Fold(stack, segs, false)[0] == stack[0]
    decreases |segs|
  {
    hide IsName;
    if segs != [] {
      assert Steps(segs[1..]);
      DeepPush(stack, segs[0]);
      DeepAvoids(at, Push(stack, segs[0], false), segs[1..]);
    }
  }

  lemma DeepPush(stack: seq<string>, s: string)
    requires (s == UP || IsName(s)) && IsDirectory(stack) && |stack| > 1
    ensures var stack' := Push(stack, s, false); IsDirectory(stack') && |stack'| >= |stack| - 1 && stack'[0] == stack[0]
  {
    PushDirectory(stack, s);
    NameFacts(s);
  }

  /** The name `f` stands only below `m`. */
  ghost predicate OnlyBelow(stack: seq<string>, f: string, m: nat) {
    forall i :: m <= i < |stack| ==> stack[i] != f
  }

  lemma {:induction false} FoldOnlyBelow(stack: seq<string>, segs: seq<string>, f: string, m: nat)
    requires OnlyBelow(stack, f, m) && f !in segs
    ensures OnlyBelow(Fold(stack, segs, false), f, m)
    decreases |segs|
  {
    if segs != [] {
      assert OnlyBelow(Push(stack, segs[0], false), f, m);
      assert segs == [segs[0]] + segs[1..];
      FoldOnlyBelow(Push(stack, segs[0], false), segs[1..], f, m);
    }
  }

  // ------------------------------------------------------------------ a new name

  function Lengths(segs: seq<string>): nat {
    if segs == [] then 0 else |segs[0]| + Lengths(segs[1..])
  }

  lemma {:induction false} ShorterThanAll(segs: seq<string>, s: string)
    requires s in segs
    ensures |s| <= Lengths(segs)
    decreases |segs|
  {
    if s != segs[0] {
      assert segs == [segs[0]] + segs[1..];
      ShorterThanAll(segs[1..], s);
    }
  }

  function NewName(segs: seq<string>): string {
    seq(Lengths(segs) + 3, _ => 'z')
  }

  lemma NewNameFacts(segs: seq<string>)
    ensures IsName(NewName(segs)) && NewName(segs) !in segs
  {
    var f := NewName(segs);
    assert |f| >= 3;
    if f in segs { ShorterThanAll(segs, f); }
  }

  function Deep(f: string, n: nat): (q: seq<string>)
    ensures |q| == n && forall i :: 0 <= i < n ==> q[i] == f
  {
    seq(n, _ => f)
  }

  /** The text of a directory, taken apart. */
  lemma RootPieces(q: seq<string>)
    requires IsDirectory(q) && q != []
    ensures Pieces(FromRoot(q)) == [""] + q && IsAbsolute(FromRoot(q))
  {
    hide Join, Split;
    assert FromRoot(q) == "" + [SEP] + Join(q, SEP);
    SplitJoined("", SEP, Join(q, SEP), IsPosixSep);
    SplitEmpty();
    SplitJoin(q, SEP, IsPosixSep);
  }

  // -------------------------------------------------------------------- the two ends

  /** A text: its parts up to a name that ".." leaves, and the parts after that. */
  datatype Case = Case(front: seq<string>, s: string, after: seq<string>)
  {
    function Segs(): seq<string> { front + ([s] + ([UP] + after)) }

    function At(): seq<string> { Fold([], front, false) + [s] }

    function Other(): string { NewName(Segs()) }

    /** Where the link leads: deeper than the text can climb, and nowhere that it names. */
    function Goal(): seq<string> { Deep(Other(), |Segs()| + 2) }

    function Names(): set<string> { (set x | x in Segs() && x != UP) + {Other()} }

    function Files(): Fs { Trap(Names(), 2 * |Segs()| + 4, At(), FromRoot(Goal())) }
  }

  ghost predicate Proper(c: Case) {
    Steps(c.Segs()) && IsName(c.s) && UpsFirst(c.front + [c.s])
  }

  lemma Members(c: Case)
    requires Proper(c)
    ensures AllNames(c.Names()) && Steps(c.front) && Steps(c.after) && c.Other() !in c.Segs() && c.s in c.Names()
    ensures forall i :: 0 <= i < |c.front| && c.front[i] != UP ==> c.front[i] in c.Names()
    ensures forall i :: 0 <= i < |c.after| && c.after[i] != UP ==> c.after[i] in c.Names()
    ensures c.Other() !in c.after && c.Other() !in c.front && c.Other() != c.s && c.Other() in c.Names()
    ensures |c.front| + |c.after| + 2 == |c.Segs()|
  {
    hide IsName;
    var segs := c.Segs();
    NewNameFacts(segs);
    assert forall i :: 0 <= i < |c.front| ==> c.front[i] == segs[i];
    assert segs[|c.front|] == c.s;
    assert forall i :: 0 <= i < |c.after| ==> c.after[i] == segs[|c.front| + 2 + i];
    NotUp(c.s);
  }

  lemma NotUp(s: string)
    requires IsName(s)
    ensures s != UP
  {
  }

  /** What stands where: the link, and directories everywhere else. */
  lemma Places(c: Case)
    requires Proper(c)
    ensures var names, at, goal := c.Names(), c.At(), c.Goal();
            && Over(names, at) && |at| <= |c.front| + 1 && Over(names, goal) && IsDirectory(at) && IsDirectory(goal)
            && at[0] != c.Other() && c.Other() !in at && Avoids(at, [], c.front)
            && FromRoot(at) in c.Files().reachable && Has(c.Files(), at, Link(0, FromRoot(goal)))
            && (forall links :: Walk(c.Files(), [], c.Segs(), links) ==
                                Walk(c.Files(), Fold([], c.front, false), [c.s] + ([UP] + c.after), links))
  {
    hide Trap, FromRoot, IsName, Walk;
    var names, at, goal := c.Names(), c.At(), c.Goal();
    Members(c);
    UpsFirstAvoids(at, c.front, c.s);
    FrontOver(names, [], c.front);
    FoldOnlyBelow([], c.front, c.Other(), 0);
    var rest := [c.s] + ([UP] + c.after);
    forall links: nat
      ensures Walk(c.Files(), [], c.Segs(), links) == Walk(c.Files(), Fold([], c.front, false), rest, links)
    {
      TrapWalk(names, 2 * |c.Segs()| + 4, at, FromRoot(goal), [], c.front, rest, links);
    }
    OverDirectory(names, at);
    OverDirectory(names, goal);
    TrapHas(names, 2 * |c.Segs()| + 4, at, FromRoot(goal), at);
  }

  lemma {:induction false} FrontOver(names: set<string>, stack: seq<string>, segs: seq<string>)
    requires AllNames(names) && Over(names, stack) && Steps(segs)
    requires forall i :: 0 <= i < |segs| && segs[i] != UP ==> segs[i] in names
    ensures Over(names, Fold(stack, segs, false)) && |Fold(stack, segs, false)| <= |stack| + |segs|
    decreases |segs|
  {
    hide IsName;
    if segs != [] {
      assert Steps(segs[1..]);
      if segs[0] == UP {
        PushUp(names, stack);
      } else {
        NameFacts(segs[0]);
      }
      FrontOver(names, Push(stack, segs[0], false), segs[1..]);
    }
  }

  /** The kernel goes through the link and out of its goal: it ends below the goal's first directory, not in all of it. */
  lemma KernelEnd(c: Case) returns (end: seq<string>)
    requires Proper(c)
    ensures Walk(c.Files(), [], c.Segs(), 1) == Real(end)
    ensures c.Other() in end && OnlyBelow(end, c.Other(), |c.Goal()| - 1)
  {
    hide Walk, Trap, FromRoot, IsName, IsDirectory, Has, Pieces;
    Members(c);
    Places(c);
    var fs, goal, at := c.Files(), c.Goal(), c.At();
    var dir, n := Fold([], c.front, false), 2 * |c.Segs()| + 4;
    ThroughLink(fs, dir, c.s, goal, [UP] + c.after);
    var up := Parent(goal);
    GoalClean(c);
    WalkClean(fs, goal, 0, [UP] + c.after, 0);
    assert goal[..0] == [] && goal[0..] + ([UP] + c.after) == goal + ([UP] + c.after);
    BackOut(fs, goal, c.after);
    DirectoryTake(goal, |up|);
    DeepAvoids(at, up, c.after);
    TrapWalk(c.Names(), n, at, FromRoot(goal), up, c.after, [], 0);
    assert c.after + [] == c.after;
    end := Fold(up, c.after, false);
    StandsStill(fs, end, 0);
    FoldOnlyBelow(up, c.after, c.Other(), |goal| - 1);
    assert end[0] == c.Other();
  }

  lemma ThroughLink(fs: Fs, dir: seq<string>, s: string, goal: seq<string>, rest: seq<string>)
    requires Has(fs, dir + [s], Link(0, FromRoot(goal))) && IsName(s) && IsDirectory(goal) && goal != []
    ensures Walk(fs, dir, [s] + rest, 1) == Walk(fs, [], goal + rest, 0)
  {
    hide FromRoot, Pieces, IsDirectory;
    NameFacts(s);
    NotUp(s);
    WalkLink(fs, dir, s, Link(0, FromRoot(goal)), rest, 1);
    RootPieces(goal);
    assert ([""] + goal + rest)[1..] == goal + rest;
  }

  lemma BackOut(fs: Fs, goal: seq<string>, rest: seq<string>)
    ensures Walk(fs, goal, [UP] + rest, 0) == Walk(fs, Parent(goal), rest, 0)
  {
    assert ([UP] + rest)[1..] == rest;
  }

  lemma GoalClean(c: Case)
    requires Proper(c)
    ensures Clean(c.Files(), c.Goal())
  {
    hide Trap, Clean, IsName;
    Members(c);
    Places(c);
    TrapClean(c.Names(), 2 * |c.Segs()| + 4, c.At(), FromRoot(c.Goal()), c.Goal());
  }

  /** The rounds never see the link, or take it for the whole goal. */
  lemma RoundsEnd(c: Case) returns (end: seq<string>)
    requires Proper(c)
    ensures Rounds(c.Files(), [], Fold([], c.Segs(), false), 1, map[]) == Real(end)
    ensures c.Other() !in end || (|end| >= |c.Goal()| && end[|c.Goal()| - 1] == c.Other())
  {
    hide Rounds, Trap, FromRoot, IsName, IsDirectory, Has, Clean;
    Members(c);
    Places(c);
    var fs, goal, at, names, n := c.Files(), c.Goal(), c.At(), c.Names(), 2 * |c.Segs()| + 4;
    var q := Fold([], c.Segs(), false);
    StepsHere(c);
    FrontOver(names, [], c.Segs());
    FoldOnlyBelow([], c.Segs(), c.Other(), 0);
    if at <= q {
      var tail := q[|at|..];
      assert q == at + tail;
      LinkTaken(c, tail);
      end := goal + tail;
      assert Over(names, end);
      TrapClean(names, n, at, FromRoot(goal), end);
      StaysThere(fs, end, 0, map[0 := FromRoot(goal)]);
    } else {
      TrapClean(names, n, at, FromRoot(goal), q);
      StaysThere(fs, q, 1, map[]);
      end := q;
    }
  }

  lemma StepsHere(c: Case)
    requires Proper(c)
    ensures forall i :: 0 <= i < |c.Segs()| && c.Segs()[i] != UP ==> c.Segs()[i] in c.Names()
  {
  }

  lemma StaysThere(fs: Fs, q: seq<string>, links: nat, seen: map<nat, string>)
    requires Clean(fs, q)
    ensures Rounds(fs, [], q, links, seen) == Real(q)
  {
    hide Clean;
    CleanStays(fs, q, 0, [], links, seen);
    assert q[..0] == [] && q[0..] + [] == q;
  }

  lemma LinkTaken(c: Case, tail: seq<string>)
    requires Proper(c)
    ensures Rounds(c.Files(), [], c.At() + tail, 1, map[]) ==
            Rounds(c.Files(), [], c.Goal() + tail, 0, map[0 := FromRoot(c.Goal())])
  {
    hide IsDirectory, Has, Clean, Rounds, FromRoot, Fold, Case.Files, Case.Names, Case.Segs, Case.Goal, Proper, Over;
    Places(c);
    LinkDirectory(c);
    var fs, goal, at := c.Files(), c.Goal(), c.At();
    var dir := Fold([], c.front, false);
    CleanStays(fs, dir, 0, [c.s] + tail, 1, map[]);
    assert dir[..0] == [] && dir[0..] + ([c.s] + tail) == at + tail;
    OneRound(fs, dir, c.s, goal, tail);
  }

  lemma LinkDirectory(c: Case)
    requires Proper(c)
    ensures Clean(c.Files(), Fold([], c.front, false))
  {
    hide Trap, IsName, IsDirectory, Has, Clean, FromRoot, Fold;
    Members(c);
    Places(c);
    var at, dir := c.At(), Fold([], c.front, false);
    assert forall i :: 0 <= i < |dir| ==> dir[i] == at[i];
    TrapClean(c.Names(), 2 * |c.Segs()| + 4, at, FromRoot(c.Goal()), dir);
  }

  lemma OneRound(fs: Fs, dir: seq<string>, s: string, goal: seq<string>, tail: seq<string>)
    requires Has(fs, dir + [s], Link(0, FromRoot(goal))) && FromRoot(dir + [s]) in fs.reachable && IsDirectory(goal)
    ensures Rounds(fs, dir, [s] + tail, 1, map[]) == Rounds(fs, [], goal + tail, 0, map[0 := FromRoot(goal)])
  {
    hide Cd, FromRoot, IsDirectory;
    CdRoot(dir, goal);
    assert ([s] + tail)[1..] == tail;
    assert map[][0 := FromRoot(goal)] == map[0 := FromRoot(goal)];
  }

  // -------------------------------------------------------------------- the theorem

  /** What `RealpathIsTheWalk` ensures, from the root. */
  ghost predicate SameEnd(fs: Fs, p: string, links: nat) {
    var r, w := RealpathOf(fs, [], p, links), Walk(fs, [], Pieces(p), links);
    (r == w || r.Unreachable?) && (StatFollows(fs) && w.Real? ==> r == w)
  }

  /** A file system without ".." in its links on which the two end in different files. */
  lemma OtherFile(p: string) returns (fs: Fs)
    requires !UpsFirst(Pieces(p))
    ensures Consistent(fs) && LinksBack(fs)
    ensures var r, w := RealpathOf(fs, [], p, 1), Walk(fs, [], Pieces(p), 1); r.Real? && w.Real? && r.path != w.path
  {
    hide *;
    StripUps(Pieces(p));
    PiecesSteps(p);
    var c := CaseOf(Strip(Pieces(p)));
    fs := c.Files();
    CaseEnds(c);
    StripWalk(fs, [], Pieces(p), 1);
    assert [] + Pieces(p) == Pieces(p) && [] + Strip(Pieces(p)) == Strip(Pieces(p));
    StripFold([], Pieces(p));
    CallIsRounds(fs, p, 1);
  }

  lemma CaseOf(segs: seq<string>) returns (c: Case)
    requires Steps(segs) && !UpsFirst(segs)
    ensures Proper(c) && c.Segs() == segs
  {
    hide IsName, UpsFirst;
    var i := FirstBack(segs);
    c := Case(segs[..i], segs[i], segs[i + 2..]);
    assert c.Segs() == segs && c.front + [c.s] == segs[..i + 1];
  }

  lemma CaseEnds(c: Case)
    requires Proper(c)
    ensures Consistent(c.Files()) && LinksBack(c.Files())
    ensures var r, w := Rounds(c.Files(), [], Fold([], c.Segs(), false), 1, map[]), Walk(c.Files(), [], c.Segs(), 1);
            r.Real? && w.Real? && r.path != w.path
  {
    hide Walk, Rounds, Pieces, IsName, Trap, FromRoot, Consistent, LinksBack;
    var kernel := KernelEnd(c);
    var rounds := RoundsEnd(c);
    assert kernel != rounds;
    Places(c);
    RootPieces(c.Goal());
    NoUpInGoal(c);
    TrapConsistent(c.Names(), 2 * |c.Segs()| + 4, c.At(), FromRoot(c.Goal()));
  }

  lemma CallIsRounds(fs: Fs, p: string, links: nat)
    ensures RealpathOf(fs, [], p, links) == Rounds(fs, [], Fold([], Pieces(p), false), links, map[])
  {
    hide Rounds;
    CdPieces(p);
  }

  lemma PiecesSteps(p: string)
    ensures Steps(Strip(Pieces(p)))
  {
    var segs := Strip(Pieces(p));
    StripKeeps(Pieces(p));
    SplitPieces(p, IsPosixSep);
    forall i | 0 <= i < |segs| ensures segs[i] == UP || IsName(segs[i]) {
      assert segs[i] in segs;
    }
  }

  lemma CdPieces(p: string)
    ensures Cd([], p) == Fold([], Pieces(p), false)
  {
    if p == "" { FoldEmptyText([]); }
  }

  lemma NoUpInGoal(c: Case)
    requires Proper(c)
    ensures UP !in [""] + c.Goal()
  {
    NewNameFacts(c.Segs());
    NotUp(c.Other());
  }

  /**
   * From the root, `realpathSync` of a text ends where the kernel's walk ends on
   * every file system without such links, if and only if no ".." of the text
   * comes after a name.
   */
  lemma TextsAlike(p: string)
    ensures (forall fs, links :: Consistent(fs) && LinksBack(fs) ==> SameEnd(fs, p, links)) <==> UpsFirst(Pieces(p))
  {
    hide Walk, Rounds, Pieces, Consistent, LinksBack, UpsFirst, StatFollows, RealpathOf;
    if UpsFirst(Pieces(p)) {
      forall fs, links: nat | Consistent(fs) && LinksBack(fs) ensures SameEnd(fs, p, links) {
        RootClean(fs);
        NormalNothing();
        UpsFirstBacks(fs, [], Pieces(p));
        assert Start([], p) == [];
        RealpathIsTheWalk(fs, [], p, links);
      }
    } else {
      var fs := OtherFile(p);
      assert !SameEnd(fs, p, 1);
    }
  }
}
